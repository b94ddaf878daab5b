/** A file transfer: `sendfile_tosocket` and `readbytes_fromsocket` running concurrently over one
    connection.  Each step is one system call of either side; reads and writes may be short. */
module Transfer {
  import opened Bytes

  function Min(a: nat, b: nat): nat { if a < b then a else b }

  /** NETREADMAX - 1: what the sender reads at a time, and the chunk length the receiver takes to
      mean that more follows. */
  const CHUNK: nat := 4095

  /** The file sent, and the largest write that the connection delivers in one piece.  A longer
      write may be split anywhere. */
  datatype Config = Config(src: seq<Byte>, whole: nat) {
    predicate Valid() { whole > 0 }

    /** Every chunk of this file arrives in one piece. */
    predicate ChunksArriveWhole() { Min(|src|, CHUNK) <= whole }
  }

  /** `SWriting`: `left` of the `nread` bytes read are still to be written.  `SUndecided`: the
      first read of a call returned 0, so `total_sent` was never assigned. */
  datatype Sender = SReading | SWriting(left: seq<Byte>, nread: nat) | SUndecided | SDone

  /** `RReading`: inside `mysckread` with `got` in the buffer; `last` is `total_written`, None while
      unassigned.  `RWriting`: `left` of the `nread` bytes received are still to be written. */
  datatype Receiver =
    | RPolling
    | RReading(got: seq<Byte>, last: Last)
    | RWriting(left: seq<Byte>, nread: nat)
    | RUndecided
    | RDone

  datatype Last = Unassigned | Wrote(n: nat)

  /** `rounds` counts the sender's non-empty reads; `wire` holds the pieces in flight, and `queue`
      what has arrived at the receiver's socket. */
  datatype State = State(
    sender: Sender, rounds: nat, unread: seq<Byte>,
    wire: seq<seq<Byte>>, queue: seq<Byte>,
    receiver: Receiver, file: seq<Byte>)

  datatype Step =
    | ReadFile
    | WriteSocket(count: nat)
    | SendAgain
    | SendStops
    | Deliver
    | Poll
    | ReadSocket(count: nat)
    | SocketEmpty
    | WriteFile(count: nat)

  function Init(c: Config): State {
    State(SReading, 0, c.src, [], [], RPolling, [])
  }

  predicate Enabled(c: Config, s: State, step: Step) {
    match step
    case ReadFile => s.sender.SReading?
    case WriteSocket(count) =>
      s.sender.SWriting? && 0 < count <= |s.sender.left| &&
      (|s.sender.left| <= c.whole ==> count == |s.sender.left|)
    case SendAgain => s.sender.SUndecided?
    case SendStops => s.sender.SUndecided?
    case Deliver => s.wire != []
    case Poll => s.receiver.RPolling? && s.queue != []
    case ReadSocket(count) =>
      s.receiver.RReading? && 0 < count <= |s.queue| && |s.receiver.got| + count <= CHUNK
    case SocketEmpty => s.receiver.RReading? && s.queue == []
    case WriteFile(count) => s.receiver.RWriting? && 0 < count <= |s.receiver.left|
  }

  function After(c: Config, s: State, step: Step): State
    requires Enabled(c, s, step)
  {
    match step
    case ReadFile =>
      var nread := Min(CHUNK, |s.unread|);
      if nread == 0 then s.(sender := SUndecided)
      else s.(sender := SWriting(s.unread[..nread], nread), unread := s.unread[nread..], rounds := s.rounds + 1)
    case WriteSocket(count) =>
      var left := s.sender.left[count..];
      s.(wire := s.wire + [s.sender.left[..count]],
         sender := if left != [] then SWriting(left, s.sender.nread)
                   else if s.sender.nread == CHUNK then SReading else SDone)
    case SendAgain => s.(sender := SReading)
    case SendStops => s.(sender := SDone)
    case Deliver => s.(wire := s.wire[1..], queue := s.queue + s.wire[0])
    case Poll => s.(receiver := RReading([], Unassigned))
    case ReadSocket(count) =>
      var got := s.receiver.got + s.queue[..count];
      s.(queue := s.queue[count..],
         receiver := if |got| == CHUNK then RWriting(got, CHUNK) else RReading(got, s.receiver.last))
    case SocketEmpty =>
      var got := s.receiver.got;
      s.(receiver := if got != [] then RWriting(got, |got|)
                     else match s.receiver.last
                       case Unassigned => RUndecided
                       case Wrote(n) => if n == CHUNK then RPolling else RDone)
    case WriteFile(count) =>
      var left := s.receiver.left[count..];
      s.(file := s.file + s.receiver.left[..count],
         receiver := if left != [] then RWriting(left, s.receiver.nread)
                     else RReading([], Wrote(s.receiver.nread)))
  }

  ghost predicate Next(c: Config, s: State, s': State) {
    exists step :: Enabled(c, s, step) && s' == After(c, s, step)
  }

  ghost predicate IsRun(c: Config, run: seq<State>) {
    && |run| > 0 && run[0] == Init(c)
    && forall j, k :: 0 <= j < k < |run| && k == j + 1 ==> Next(c, run[j], run[k])
  }

  // ----- Conservation: any schedule, any short counts -----

  function Flat(w: seq<seq<Byte>>): seq<Byte> {
    if w == [] then [] else w[0] + Flat(w[1..])
  }

  function SendBuf(s: State): seq<Byte> {
    if s.sender.SWriting? then s.sender.left else []
  }

  function RecvBuf(s: State): seq<Byte> {
    match s.receiver
    case RReading(got, _) => got
    case RWriting(left, _) => left
    case _ => []
  }

  /** Where each byte of the file is. */
  function AllBytes(s: State): seq<Byte> {
    s.file + (RecvBuf(s) + (s.queue + (Flat(s.wire) + (SendBuf(s) + s.unread))))
  }

  ghost predicate Conserved(c: Config, s: State) {
    && AllBytes(s) == c.src
    && (forall k :: 0 <= k < |s.wire| ==> s.wire[k] != [])
    && (s.sender.SWriting? ==> s.sender.left != [])
    && (s.receiver.RWriting? ==> s.receiver.left != [])
    && (s.receiver.RReading? ==>
          |s.receiver.got| < CHUNK && (s.receiver.last.Unassigned? ==> s.queue != [] || s.receiver.got != []))
    && !s.receiver.RUndecided?
  }

  lemma {:induction false} FlatAppend(w: seq<seq<Byte>>, p: seq<Byte>)
    ensures Flat(w + [p]) == Flat(w) + p
  {
    if w == [] {
      assert (w + [p])[1..] == [];
      assert Flat(w + [p]) == p + [];
    } else {
      assert (w + [p])[1..] == w[1..] + [p];
      FlatAppend(w[1..], p);
    }
  }

  lemma SplitConcat(a: seq<Byte>, k: nat, rest: seq<Byte>)
    requires k <= |a|
    ensures a[..k] + (a[k..] + rest) == a + rest
  {
  }

  lemma SenderStepBytes(c: Config, s: State, step: Step)
    requires Enabled(c, s, step) && (step.ReadFile? || step.WriteSocket? || step.SendAgain? || step.SendStops?)
    ensures var s' := After(c, s, step);
            Flat(s'.wire) + (SendBuf(s') + s'.unread) == Flat(s.wire) + (SendBuf(s) + s.unread)
  {
    var s' := After(c, s, step);
    if step.ReadFile? {
      SplitConcat(s.unread, Min(CHUNK, |s.unread|), []);
    } else if step.WriteSocket? {
      FlatAppend(s.wire, s.sender.left[..step.count]);
      SplitConcat(s.sender.left, step.count, s.unread);
      assert Flat(s'.wire) + (SendBuf(s') + s'.unread)
          == Flat(s.wire) + (s.sender.left[..step.count] + (SendBuf(s') + s'.unread));
    }
  }

  lemma ReceiverStepBytes(c: Config, s: State, step: Step)
    requires Enabled(c, s, step) && (step.Poll? || step.ReadSocket? || step.SocketEmpty? || step.WriteFile?)
    ensures var s' := After(c, s, step);
            s'.file + (RecvBuf(s') + s'.queue) == s.file + (RecvBuf(s) + s.queue)
  {
    var s' := After(c, s, step);
    if step.ReadSocket? {
      SplitConcat(s.queue, step.count, []);
      assert RecvBuf(s') + s'.queue == RecvBuf(s) + (s.queue[..step.count] + s.queue[step.count..]);
    } else if step.WriteFile? {
      SplitConcat(s.receiver.left, step.count, s.queue);
      assert s'.file + (RecvBuf(s') + s'.queue)
          == s.file + (s.receiver.left[..step.count] + (s.receiver.left[step.count..] + s.queue));
    }
  }

  lemma Regroup(a: seq<Byte>, b: seq<Byte>, d: seq<Byte>, rest: seq<Byte>)
    ensures a + (b + (d + rest)) == (a + (b + d)) + rest
  {
  }

  lemma DeliverBytes(c: Config, s: State)
    requires Enabled(c, s, Deliver)
    ensures AllBytes(After(c, s, Deliver)) == AllBytes(s)
  {
    var y := SendBuf(s) + s.unread;
    assert Flat(s.wire) + y == s.wire[0] + (Flat(s.wire[1..]) + y);
    Regroup([], s.queue, s.wire[0], Flat(s.wire[1..]) + y);
    assert (s.queue + s.wire[0]) + (Flat(s.wire[1..]) + y) == s.queue + (Flat(s.wire) + y);
  }

  lemma StepBytes(c: Config, s: State, step: Step)
    requires Enabled(c, s, step)
    ensures AllBytes(After(c, s, step)) == AllBytes(s)
  {
    if step.Deliver? {
      DeliverBytes(c, s);
    } else if step.ReadFile? || step.WriteSocket? || step.SendAgain? || step.SendStops? {
      SenderStepBytes(c, s, step);
    } else {
      var s' := After(c, s, step);
      var rest := Flat(s.wire) + (SendBuf(s) + s.unread);
      ReceiverStepBytes(c, s, step);
      Regroup(s'.file, RecvBuf(s'), s'.queue, rest);
      Regroup(s.file, RecvBuf(s), s.queue, rest);
    }
  }

  lemma StepConserved(c: Config, s: State, step: Step)
    requires Conserved(c, s) && Enabled(c, s, step)
    ensures Conserved(c, After(c, s, step))
  {
    StepBytes(c, s, step);
  }

  /** In every run, at every moment, receiver file, receiver buffer, queue, flight, sender buffer
      and unread file make up the source, so what has been written is a prefix of it; and the
      receiver never uses an unassigned `total_written`. */
  lemma {:induction false} RunConserved(c: Config, run: seq<State>, k: nat)
    requires IsRun(c, run) && k < |run|
    ensures Conserved(c, run[k]) && run[k].file <= c.src
  {
    if k > 0 {
      RunConserved(c, run, k - 1);
      assert Next(c, run[k - 1], run[k]);
      var step :| Enabled(c, run[k - 1], step) && run[k] == After(c, run[k - 1], step);
      StepConserved(c, run[k - 1], step);
    }
  }

  // ----- Exactness when chunks arrive whole -----

  /** A position at which a mysckread can begin or end. */
  predicate Aligned(c: Config, pos: nat) { pos % CHUNK == 0 || pos == |c.src| }

  /** The pieces in flight are chunks that start at position `pos` of the file. */
  predicate Pieces(c: Config, pos: nat, w: seq<seq<Byte>>)
    decreases |w|
  {
    && Aligned(c, pos)
    && (w != [] ==>
          && pos % CHUNK == 0
          && (|w[0]| == CHUNK || pos + |w[0]| == |c.src|)
          && Pieces(c, pos + |w[0]|, w[1..]))
  }

  predicate SenderOk(c: Config, s: State) {
    |s.unread| <= |c.src| &&
    var off := |c.src| - |s.unread|;
    match s.sender
    case SReading => off == s.rounds * CHUNK
    case SWriting(left, nread) =>
      && 0 < nread == |left| <= CHUNK && (nread == CHUNK || s.unread == [])
      && s.rounds > 0 && off == (s.rounds - 1) * CHUNK + nread
    case SUndecided => s.unread == [] && off == s.rounds * CHUNK
    case SDone => s.unread == [] && (|c.src| % CHUNK != 0 ==> s.rounds == |c.src| / CHUNK + 1)
  }

  predicate ReceiverOk(c: Config, s: State) {
    match s.receiver
    case RPolling => |s.file| % CHUNK == 0
    case RReading(got, last) =>
      && Aligned(c, |s.file|)
      && (last.Wrote? ==> last.n > 0 && if last.n == CHUNK then |s.file| % CHUNK == 0
                          else last.n == |c.src| % CHUNK && |s.file| == |c.src|)
    case RWriting(left, nread) =>
      if nread == CHUNK then (|s.file| + |left|) % CHUNK == 0
      else 0 < nread == |c.src| % CHUNK && |s.file| + |left| == |c.src|
    case RUndecided => false
    case RDone => |s.file| == |c.src| && |c.src| % CHUNK != 0
  }

  ghost predicate Exact(c: Config, s: State) {
    && Conserved(c, s)
    && SenderOk(c, s)
    && ReceiverOk(c, s)
    && Pieces(c, |s.file| + |RecvBuf(s)| + |s.queue|, s.wire)
  }

  lemma {:induction false} PiecesAppend(c: Config, pos: nat, w: seq<seq<Byte>>, p: seq<Byte>)
    requires Pieces(c, pos, w) && (pos + |Flat(w)|) % CHUNK == 0 && pos + |Flat(w)| + |p| <= |c.src|
    requires p != [] && (|p| == CHUNK || pos + |Flat(w)| + |p| == |c.src|)
    ensures Pieces(c, pos, w + [p])
    decreases |w|
  {
    if w == [] {
      assert (w + [p])[1..] == [];
    } else {
      assert (w + [p])[1..] == w[1..] + [p];
      assert |Flat(w)| == |w[0]| + |Flat(w[1..])|;
      PiecesAppend(c, pos + |w[0]|, w[1..], p);
    }
  }

  lemma Lengths(c: Config, s: State)
    requires Conserved(c, s)
    ensures |s.file| + |RecvBuf(s)| + |s.queue| + |Flat(s.wire)| + |SendBuf(s)| + |s.unread| == |c.src|
  {
  }

  lemma ExactWriteSocket(c: Config, s: State, count: nat)
    requires c.ChunksArriveWhole() && Exact(c, s) && Enabled(c, s, WriteSocket(count))
    ensures Exact(c, After(c, s, WriteSocket(count)))
  {
    StepConserved(c, s, WriteSocket(count));
    Lengths(c, s);
    var left := s.sender.left;
    assert count == |left| && left[..count] == left;
    PiecesAppend(c, |s.file| + |RecvBuf(s)| + |s.queue|, s.wire, left);
  }

  /** What the receiver is promised does not depend on the sender. */
  lemma SenderOnly(c: Config, s: State, s': State)
    requires Exact(c, s) && Conserved(c, s') && SenderOk(c, s')
    requires s'.wire == s.wire && s'.queue == s.queue && s'.receiver == s.receiver && s'.file == s.file
    ensures Exact(c, s')
  {
  }

  lemma ReadFileOk(c: Config, s: State)
    requires Conserved(c, s) && SenderOk(c, s) && Enabled(c, s, ReadFile)
    ensures SenderOk(c, After(c, s, ReadFile))
  {
  }

  lemma UndecidedOk(c: Config, s: State, step: Step)
    requires SenderOk(c, s) && Enabled(c, s, step) && (step.SendAgain? || step.SendStops?)
    ensures SenderOk(c, After(c, s, step))
  {
  }

  /** A step of the sender that puts nothing on the wire. */
  lemma ExactSenderStep(c: Config, s: State, step: Step)
    requires Exact(c, s) && Enabled(c, s, step)
    requires step.ReadFile? || step.SendAgain? || step.SendStops?
    ensures Exact(c, After(c, s, step))
  {
    StepConserved(c, s, step);
    if step.ReadFile? {
      ReadFileOk(c, s);
    } else {
      UndecidedOk(c, s, step);
    }
    SenderOnly(c, s, After(c, s, step));
  }

  /** Without its first piece the flight is one from where that piece ends. */
  lemma PiecesDelivered(c: Config, pos: nat, w: seq<seq<Byte>>)
    requires Pieces(c, pos, w) && w != []
    ensures Pieces(c, pos + |w[0]|, w[1..])
  {
  }

  /** A delivery concerns neither side. */
  lemma DeliverOnly(c: Config, s: State)
    requires SenderOk(c, s) && ReceiverOk(c, s) && Enabled(c, s, Deliver)
    ensures SenderOk(c, After(c, s, Deliver)) && ReceiverOk(c, After(c, s, Deliver))
  {
  }

  lemma ExactDeliver(c: Config, s: State)
    requires Exact(c, s) && Enabled(c, s, Deliver)
    ensures Exact(c, After(c, s, Deliver))
  {
    StepConserved(c, s, Deliver);
    DeliverOnly(c, s);
    PiecesDelivered(c, |s.file| + |RecvBuf(s)| + |s.queue|, s.wire);
  }

  lemma ReadSocketOk(c: Config, s: State, count: nat)
    requires Exact(c, s) && Enabled(c, s, ReadSocket(count))
    ensures ReceiverOk(c, After(c, s, ReadSocket(count)))
  {
    Lengths(c, s);
    assert |s.file| < |c.src|;
  }

  lemma ExactReadSocket(c: Config, s: State, count: nat)
    requires Exact(c, s) && Enabled(c, s, ReadSocket(count))
    ensures Exact(c, After(c, s, ReadSocket(count)))
  {
    StepConserved(c, s, ReadSocket(count));
    ReadSocketOk(c, s, count);
    var s' := After(c, s, ReadSocket(count));
    assert s'.wire == s.wire && s'.file == s.file && |RecvBuf(s')| + |s'.queue| == |RecvBuf(s)| + |s.queue|;
    assert SenderOk(c, s');
  }

  /** A chunk that is short but ends at a possible boundary ends the file. */
  lemma ShortChunkEnds(pos: nat, got: nat, total: nat)
    requires pos % CHUNK == 0 && 0 < got < CHUNK && ((pos + got) % CHUNK == 0 || pos + got == total)
    ensures pos + got == total && total % CHUNK == got
  {
  }

  lemma EmptySocketOk(c: Config, s: State)
    requires Exact(c, s) && Enabled(c, s, SocketEmpty)
    ensures ReceiverOk(c, After(c, s, SocketEmpty))
  {
    var got := s.receiver.got;
    if got != [] {
      Lengths(c, s);
      assert |s.file| % CHUNK == 0;
      assert Aligned(c, |s.file| + |got|);
      ShortChunkEnds(|s.file|, |got|, |c.src|);
    }
  }

  lemma ExactSocketEmpty(c: Config, s: State)
    requires Exact(c, s) && Enabled(c, s, SocketEmpty)
    ensures Exact(c, After(c, s, SocketEmpty))
  {
    StepConserved(c, s, SocketEmpty);
    EmptySocketOk(c, s);
    var s' := After(c, s, SocketEmpty);
    assert s'.wire == s.wire && s'.queue == s.queue && s'.file == s.file && |RecvBuf(s')| == |RecvBuf(s)|;
    assert SenderOk(c, s');
  }

  lemma ExactWriteFile(c: Config, s: State, count: nat)
    requires Exact(c, s) && Enabled(c, s, WriteFile(count))
    ensures Exact(c, After(c, s, WriteFile(count)))
  {
    StepConserved(c, s, WriteFile(count));
    var s' := After(c, s, WriteFile(count));
    assert ReceiverOk(c, s');
    assert s'.wire == s.wire && s'.queue == s.queue && |s'.file| + |RecvBuf(s')| == |s.file| + |RecvBuf(s)|;
    assert SenderOk(c, s');
  }

  lemma StepExact(c: Config, s: State, step: Step)
    requires c.ChunksArriveWhole() && Exact(c, s) && Enabled(c, s, step)
    ensures Exact(c, After(c, s, step))
  {
    match step
    case WriteSocket(count) => ExactWriteSocket(c, s, count);
    case Deliver => ExactDeliver(c, s);
    case ReadSocket(count) => ExactReadSocket(c, s, count);
    case SocketEmpty => ExactSocketEmpty(c, s);
    case WriteFile(count) => ExactWriteFile(c, s, count);
    case Poll => StepConserved(c, s, step);
    case _ => ExactSenderStep(c, s, step);
  }

  lemma EveryNextExact(c: Config)
    requires c.ChunksArriveWhole()
    ensures forall s, s' :: Exact(c, s) && Next(c, s, s') ==> Exact(c, s')
  {
    forall s, s' | Exact(c, s) && Next(c, s, s') ensures Exact(c, s') {
      var step :| Enabled(c, s, step) && s' == After(c, s, step);
      StepExact(c, s, step);
    }
  }

  lemma {:induction false} RunExact(c: Config, run: seq<State>, k: nat)
    requires c.ChunksArriveWhole() && IsRun(c, run) && k < |run|
    ensures Exact(c, run[k])
  {
    if k == 0 {
      assert AllBytes(Init(c)) == c.src;
    } else {
      RunExact(c, run, k - 1);
      EveryNextExact(c);
      assert Next(c, run[k - 1], run[k]);
    }
  }
}

