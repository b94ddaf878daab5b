/** When a transfer is exact, when it ends, and the exact conditions for both. */
module TransferTheorems {
  import opened Bytes
  import opened Runs
  import opened Files
  import opened Transfer

  /** Both sides have returned and the whole file is there, after one round per chunk. */
  predicate Complete(c: Config, s: State) {
    s.sender.SDone? && s.receiver.RDone? && s.file == c.src && s.rounds == |c.src| / CHUNK + 1
  }

  lemma RunSnoc(c: Config, run: seq<State>, step: Step)
    requires IsRun(c, run) && Enabled(c, LastState(run), step)
    ensures IsRun(c, run + [After(c, LastState(run), step)])
  {
    assert Next(c, LastState(run), After(c, LastState(run), step));
  }

  // ----- Termination -----

  function Rank(r: Receiver): nat {
    match r
    case RPolling => 1
    case RReading(got, last) => 4 * |got| + if last.Wrote? then 2 else 0
    case RWriting(left, _) => 3 * |left|
    case _ => 0
  }

  /** Each byte has further to go the earlier it is on its way. */
  function Distance(s: State): nat {
    8 * |s.unread| + 7 * |SendBuf(s)| + 6 * |Flat(s.wire)| + 5 * |s.queue| + Rank(s.receiver)
  }

  lemma SendAdvances(c: Config, s: State, step: Step)
    requires Enabled(c, s, step) && step.WriteSocket?
    ensures Distance(After(c, s, step)) < Distance(s)
  {
    FlatAppend(s.wire, s.sender.left[..step.count]);
  }

  lemma SenderAdvances(c: Config, s: State, step: Step)
    requires Exact(c, s) && Enabled(c, s, step) && |c.src| % CHUNK != 0
    requires step.ReadFile? || step.SendAgain? || step.SendStops? || step.Deliver?
    ensures Distance(After(c, s, step)) < Distance(s)
  {
    Lengths(c, s);
  }

  lemma ReceiverAdvances(c: Config, s: State, step: Step)
    requires Conserved(c, s) && Enabled(c, s, step)
    requires step.Poll? || step.ReadSocket? || step.SocketEmpty? || step.WriteFile?
    ensures Distance(After(c, s, step)) < Distance(s)
  {
    var s' := After(c, s, step);
    assert s'.unread == s.unread && s'.wire == s.wire && SendBuf(s') == SendBuf(s);
    match step
    case ReadSocket(count) =>
      assert 5 * |s'.queue| + 5 * count == 5 * |s.queue|;
      assert Rank(s'.receiver) <= Rank(s.receiver) + 4 * count;
    case SocketEmpty => assert Rank(s'.receiver) < Rank(s.receiver);
    case WriteFile(count) => assert Rank(s'.receiver) < Rank(s.receiver);
    case Poll => assert Rank(s'.receiver) < Rank(s.receiver);
  }

  lemma EveryNextAdvances(c: Config)
    requires |c.src| % CHUNK != 0
    ensures forall s, s' :: Exact(c, s) && Next(c, s, s') ==> Distance(s') < Distance(s)
  {
    forall s, s' | Exact(c, s) && Next(c, s, s') ensures Distance(s') < Distance(s) {
      var step :| Enabled(c, s, step) && s' == After(c, s, step);
      if step.Poll? || step.ReadSocket? || step.SocketEmpty? || step.WriteFile? {
        ReceiverAdvances(c, s, step);
      } else if step.WriteSocket? {
        SendAdvances(c, s, step);
      } else {
        SenderAdvances(c, s, step);
      }
    }
  }

  /** Every run is finite: no schedule and no pattern of short counts keeps a transfer going. */
  lemma {:induction false} RunsAreBounded(c: Config, run: seq<State>)
    requires c.ChunksArriveWhole() && |c.src| % CHUNK != 0 && IsRun(c, run)
    ensures |run| + Distance(LastState(run)) <= 8 * |c.src| + 2
    decreases |run|
  {
    if |run| > 1 {
      var prefix := run[..|run| - 1];
      RunsAreBounded(c, prefix);
      RunExact(c, run, |run| - 2);
      EveryNextAdvances(c);
      assert Next(c, run[|run| - 2], run[|run| - 1]);
    }
  }

  lemma DoneHasAll(c: Config, s: State)
    requires Exact(c, s) && s.receiver.RDone?
    ensures s.file == c.src
  {
    Lengths(c, s);
  }

  lemma ReceiverMoves(c: Config, s: State)
    requires Exact(c, s) && |c.src| % CHUNK != 0 && s.sender.SDone? && s.wire == []
    ensures Complete(c, s) || exists step :: Enabled(c, s, step)
  {
    Lengths(c, s);
    match s.receiver
    case RPolling =>
      assert s.queue != [];
      assert Enabled(c, s, Poll);
    case RReading(_, _) =>
      if s.queue == [] {
        assert Enabled(c, s, SocketEmpty);
      } else {
        assert Enabled(c, s, ReadSocket(1));
      }
    case RWriting(_, _) => assert Enabled(c, s, WriteFile(1));
    case RDone => DoneHasAll(c, s);
  }

  lemma MovesOrComplete(c: Config, s: State)
    requires Exact(c, s) && |c.src| % CHUNK != 0
    ensures Complete(c, s) || exists step :: Enabled(c, s, step)
  {
    Lengths(c, s);
    match s.sender
    case SReading => assert Enabled(c, s, ReadFile);
    case SWriting(left, _) => assert Enabled(c, s, WriteSocket(|left|));
    case SDone =>
      if s.wire != [] {
        assert Enabled(c, s, Deliver);
      } else {
        ReceiverMoves(c, s);
      }
  }

  /** Every run goes on to completion. */
  lemma {:induction false} RunCompletes(c: Config, run: seq<State>) returns (full: seq<State>)
    requires c.ChunksArriveWhole() && |c.src| % CHUNK != 0 && IsRun(c, run)
    ensures IsRun(c, full) && run <= full && Complete(c, LastState(full))
    decreases Distance(LastState(run))
  {
    RunExact(c, run, |run| - 1);
    var s := LastState(run);
    if step :| Enabled(c, s, step) {
      EveryNextAdvances(c);
      assert Next(c, s, After(c, s, step));
      RunSnoc(c, run, step);
      full := RunCompletes(c, run + [After(c, s, step)]);
    } else {
      MovesOrComplete(c, s);
      full := run;
    }
  }

  /** A file whose length is not a multiple of 4095, sent in chunks that arrive whole, is received
      exactly under every interleaving: the receiver never stops before its file equals the
      source, no run is longer than a fixed bound, and where nothing can move both sides are done. */
  lemma TransferIsExact(c: Config, run: seq<State>)
    requires c.ChunksArriveWhole() && |c.src| % CHUNK != 0 && IsRun(c, run)
    ensures LastState(run).receiver.RDone? ==> LastState(run).file == c.src
    ensures |run| <= 8 * |c.src| + 2
    ensures (forall step :: !Enabled(c, LastState(run), step)) ==> Complete(c, LastState(run))
  {
    RunExact(c, run, |run| - 1);
    RunsAreBounded(c, run);
    if LastState(run).receiver.RDone? {
      DoneHasAll(c, LastState(run));
    }
    if forall step :: !Enabled(c, LastState(run), step) {
      MovesOrComplete(c, LastState(run));
    }
  }

  // ----- The conditions are necessary -----

  lemma OneByteArrives(c: Config, r: seq<State>) returns (run: seq<State>)
    requires IsRun(c, r) && LastState(r).receiver.RPolling? && |LastState(r).queue| == 1 && LastState(r).file == []
    ensures IsRun(c, run) && LastState(run).receiver.RDone? && LastState(run).file == LastState(r).queue
  {
    RunSnoc(c, r, Poll);
    var r1 := r + [After(c, LastState(r), Poll)];
    RunSnoc(c, r1, ReadSocket(1));
    var r2 := r1 + [After(c, LastState(r1), ReadSocket(1))];
    RunSnoc(c, r2, SocketEmpty);
    var r3 := r2 + [After(c, LastState(r2), SocketEmpty)];
    RunSnoc(c, r3, WriteFile(1));
    var r4 := r3 + [After(c, LastState(r3), WriteFile(1))];
    RunSnoc(c, r4, SocketEmpty);
    run := r4 + [After(c, LastState(r4), SocketEmpty)];
  }

  /** If the first chunk can arrive in pieces, a run exists in which the receiver stops early. */
  lemma SplitChunkStopsEarly(c: Config) returns (run: seq<State>)
    requires c.Valid() && !c.ChunksArriveWhole()
    ensures IsRun(c, run) && LastState(run).receiver.RDone? && LastState(run).file == c.src[..1] != c.src
  {
    var r0 := [Init(c)];
    assert IsRun(c, r0);
    RunSnoc(c, r0, ReadFile);
    var r1 := r0 + [After(c, LastState(r0), ReadFile)];
    RunSnoc(c, r1, WriteSocket(1));
    var r2 := r1 + [After(c, LastState(r1), WriteSocket(1))];
    RunSnoc(c, r2, Deliver);
    var r3 := r2 + [After(c, LastState(r2), Deliver)];
    assert LastState(r3).queue == c.src[..1];
    run := OneByteArrives(c, r3);
  }

  /** Whatever the receiver accepts as the end is the end. */
  ghost predicate NeverStopsEarly(c: Config) {
    forall run :: IsRun(c, run) && LastState(run).receiver.RDone? ==> LastState(run).file == c.src
  }

  ghost predicate CanStop(c: Config) {
    exists run :: IsRun(c, run) && LastState(run).receiver.RDone?
  }

  /** The end marker "a chunk shorter than 4095" is sound if and only if no chunk is split. */
  lemma NeverStopsEarlyIff(c: Config)
    requires c.Valid()
    ensures NeverStopsEarly(c) <==> c.ChunksArriveWhole()
  {
    if c.ChunksArriveWhole() {
      forall run | IsRun(c, run) && LastState(run).receiver.RDone? ensures LastState(run).file == c.src {
        RunExact(c, run, |run| - 1);
        DoneHasAll(c, LastState(run));
      }
    } else {
      var run := SplitChunkStopsEarly(c);
    }
  }

  /** The transfer works -- it can end, and only with the whole file -- if and only if no chunk is
      split and the length is not a multiple of 4095.  At a multiple the receiver polls for ever. */
  lemma TransferWorksIff(c: Config)
    requires c.Valid()
    ensures NeverStopsEarly(c) && CanStop(c) <==> c.ChunksArriveWhole() && |c.src| % CHUNK != 0
  {
    NeverStopsEarlyIff(c);
    if c.ChunksArriveWhole() {
      if |c.src| % CHUNK != 0 {
        assert IsRun(c, [Init(c)]);
        var run := RunCompletes(c, [Init(c)]);
      } else {
        forall run | IsRun(c, run) ensures !LastState(run).receiver.RDone? {
          RunExact(c, run, |run| - 1);
        }
      }
    }
  }

  // ----- What the receiver's file holds in the end -----

  /** The receiver does not stop before it has written something. */
  ghost predicate Began(s: State) {
    (s.receiver.RDone? || (s.receiver.RReading? && s.receiver.last.Wrote?)) ==> s.file != []
  }

  lemma EveryNextBegan(c: Config)
    ensures forall s, s' :: Began(s) && Next(c, s, s') ==> Began(s')
  {
  }

  lemma {:induction false} RunBegan(c: Config, run: seq<State>, k: nat)
    requires IsRun(c, run) && k < |run|
    ensures Began(run[k])
  {
    if k > 0 {
      RunBegan(c, run, k - 1);
      EveryNextBegan(c);
      assert Next(c, run[k - 1], run[k]);
    }
  }

  /** The transfer can end, and only with the source as the contents of a file that held `was` when
      it was opened: the bytes written go over its beginning. */
  ghost predicate StoresSource(c: Config, was: seq<Byte>) {
    CanStop(c) && forall run :: IsRun(c, run) && LastState(run).receiver.RDone? ==>
                    Overlaid(was, LastState(run).file) == c.src
  }

  lemma WholeStoresIff(c: Config, was: seq<Byte>)
    requires c.Valid() && c.ChunksArriveWhole()
    ensures StoresSource(c, was) <==> |c.src| % CHUNK != 0 && |was| <= |c.src|
  {
    TransferWorksIff(c);
    NeverStopsEarlyIff(c);
    OverlaidIff(was, c.src);
    if CanStop(c) {
      var run :| IsRun(c, run) && LastState(run).receiver.RDone?;
      assert LastState(run).file == c.src;
    }
  }

  lemma SplitStoresIff(c: Config, was: seq<Byte>)
    requires c.Valid() && !c.ChunksArriveWhole()
    ensures StoresSource(c, was) <==> |was| == |c.src| && was[1..] == c.src[1..]
  {
    var early := SplitChunkStopsEarly(c);
    FirstByteCompletesIff(was, c.src);
    if |was| == |c.src| && was[1..] == c.src[1..] {
      forall run | IsRun(c, run) && LastState(run).receiver.RDone? ensures Overlaid(was, LastState(run).file) == c.src {
        RunConserved(c, run, |run| - 1);
        RunBegan(c, run, |run| - 1);
        PrefixCompletes(was, c.src, LastState(run).file);
      }
    }
  }

  /** In chunks that arrive whole, the file ends up as the source if and only if the length is not a
      multiple of 4095 and the file was no longer before.  When a chunk can be split, it does so
      only over a file that differed from the source in the first byte or not at all. */
  lemma StoresSourceIff(c: Config, was: seq<Byte>)
    requires c.Valid()
    ensures StoresSource(c, was) <==>
              if c.ChunksArriveWhole() then |c.src| % CHUNK != 0 && |was| <= |c.src|
              else |was| == |c.src| && was[1..] == c.src[1..]
  {
    if c.ChunksArriveWhole() {
      WholeStoresIff(c, was);
    } else {
      SplitStoresIff(c, was);
    }
  }
}
