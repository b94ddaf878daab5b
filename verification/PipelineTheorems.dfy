/** What every run of `run_pipeline` satisfies. */
module PipelineTheorems {
  import opened Descriptors
  import opened PipelineWiring
  import opened PipelineMachine

  /** Every child is past `dup2_and_close` and the caller past `close_pipes`. */
  ghost predicate Settled(s: State) {
    && (s.phase.Waiting? || s.phase.Returned? || s.phase.Exited?)
    && forall i :: 0 <= i < |s.kids| ==> !s.kids[i].Setup?
  }

  // ----- Wiring -----

  lemma HolderIsNeighbour(c: Config, l: Limits, s: State, i: nat, j: nat)
    requires Inv(c, l, s) && Settled(s) && i < c.n && j < c.n
    ensures KidHolds(s, i, WriteEnd(j)) ==> i == j && j < c.n - 1 && s.kids[i].Running?
    ensures KidHolds(s, i, ReadEnd(j)) ==> i == j + 1 && s.kids[i].Running?
    ensures KidHolds(s, i, Socket) ==> i == c.n - 1 && s.kids[i].Running?
    ensures !Holds(s.fds, WriteEnd(j)) && !Holds(s.fds, ReadEnd(j))
  {
    assert KidOk(c, l, i, s.kids[i]);
    WiredIsChain(c, i, j);
    forall e | KidHolds(s, i, e) ensures s.kids[i].Running? && Holds(Wired(c, i), e) {
      var fd :| fd in KidFds(s.kids[i]) && KidFds(s.kids[i])[fd] == e;
      assert fd in Wired(c, i) && Wired(c, i)[fd] == e;
    }
  }

  /** Whatever the interleaving, once set-up is over pipe j has at most child j as writer and
      child j+1 as reader, the last pipe has neither, and only the last child has the socket. */
  lemma WiringInvariant(c: Config, l: Limits, s: State)
    requires c.Valid() && l.Valid() && Reachable(c, l, s) && Settled(s)
    ensures forall i, j :: 0 <= i < c.n && 0 <= j < c.n && KidHolds(s, i, WriteEnd(j)) ==> i == j < c.n - 1
    ensures forall i, j :: 0 <= i < c.n && 0 <= j < c.n && KidHolds(s, i, ReadEnd(j)) ==> i == j + 1
    ensures forall i :: 0 <= i < c.n && KidHolds(s, i, Socket) ==> i == c.n - 1
    ensures !Open(s, WriteEnd(c.n - 1)) && !Open(s, ReadEnd(c.n - 1))
  {
    ReachableInv(c, l, s);
    forall i: nat, j: nat | i < c.n && j < c.n
      ensures KidHolds(s, i, WriteEnd(j)) ==> i == j < c.n - 1
      ensures KidHolds(s, i, ReadEnd(j)) ==> i == j + 1
      ensures KidHolds(s, i, Socket) ==> i == c.n - 1
    {
      HolderIsNeighbour(c, l, s, i, j);
    }
    HolderIsNeighbour(c, l, s, 0, c.n - 1);
  }

  lemma OpenWriterIsPredecessor(c: Config, l: Limits, s: State, j: nat)
    requires Inv(c, l, s) && Settled(s) && j < c.n
    ensures Open(s, WriteEnd(j)) ==> j < c.n - 1 && s.kids[j].Running?
    ensures Open(s, ReadEnd(j)) ==> j < c.n - 1 && s.kids[j + 1].Running?
  {
    HolderIsNeighbour(c, l, s, 0, j);
    if Open(s, WriteEnd(j)) {
      var i: nat :| KidHolds(s, i, WriteEnd(j));
      HolderIsNeighbour(c, l, s, i, j);
    }
    if Open(s, ReadEnd(j)) {
      var i: nat :| KidHolds(s, i, ReadEnd(j));
      HolderIsNeighbour(c, l, s, i, j);
    }
  }

  /** End of file propagates: when command i-1 is gone and its pipe is drained, a read by
      command i cannot block and returns end of file. */
  lemma EofOncePredecessorGone(c: Config, l: Limits, s: State, i: nat, next: Op)
    requires c.Valid() && l.Valid() && Reachable(c, l, s) && Settled(s)
    requires 0 < i < c.n && OnPipe(s, i, STDIN) && MayFollow(l, s.kids[i].left, next)
    requires Shaped(c, s) && !Alive(s.kids[i - 1]) && s.bufs[i - 1] == []
    ensures Enabled(c, l, s, ReadEof(i, next))
    ensures forall count, op :: !Enabled(c, l, s, ReadPipe(i, count, op))
  {
    ReachableInv(c, l, s);
    OnlyNeighbours(c, l, s, i);
    OpenWriterIsPredecessor(c, l, s, i - 1);
  }

  /** A child holds a pipe end at most on its own standard descriptor. */
  lemma OnlyAtStandard(c: Config, l: Limits, s: State, i: nat, stdfd: int, e: End)
    requires Inv(c, l, s) && i < c.n && s.kids[i].Running? && KidHolds(s, i, e)
    requires (e.WriteEnd? && stdfd == STDOUT) || (e.ReadEnd? && stdfd == STDIN)
    ensures stdfd in s.kids[i].fds
  {
    assert KidOk(c, l, i, s.kids[i]);
    var fd :| fd in s.kids[i].fds && s.kids[i].fds[fd] == e;
    assert Wired(c, i)[fd] == e;
  }

  lemma WriteEndOpenIff(c: Config, l: Limits, s: State, j: nat)
    requires Inv(c, l, s) && Settled(s) && j < c.n - 1
    ensures Open(s, WriteEnd(j)) <==> s.kids[j].Running? && STDOUT in s.kids[j].fds
  {
    OpenWriterIsPredecessor(c, l, s, j);
    assert KidOk(c, l, j, s.kids[j]);
    if s.kids[j].Running? && STDOUT in s.kids[j].fds {
      assert KidFds(s.kids[j])[STDOUT] == WriteEnd(j);
      assert KidHolds(s, j, WriteEnd(j));
    }
    if Open(s, WriteEnd(j)) {
      var i: nat :| KidHolds(s, i, WriteEnd(j)) || Holds(s.fds, WriteEnd(j));
      HolderIsNeighbour(c, l, s, if i < c.n then i else 0, j);
      OnlyAtStandard(c, l, s, j, STDOUT, WriteEnd(j));
    }
  }

  lemma ReadEndOpenIff(c: Config, l: Limits, s: State, j: nat)
    requires Inv(c, l, s) && Settled(s) && j < c.n - 1
    ensures Open(s, ReadEnd(j)) <==> s.kids[j + 1].Running? && STDIN in s.kids[j + 1].fds
  {
    OpenWriterIsPredecessor(c, l, s, j);
    assert KidOk(c, l, j + 1, s.kids[j + 1]);
    if s.kids[j + 1].Running? && STDIN in s.kids[j + 1].fds {
      assert KidFds(s.kids[j + 1])[STDIN] == ReadEnd(j);
      assert KidHolds(s, j + 1, ReadEnd(j));
    }
    if Open(s, ReadEnd(j)) {
      var i: nat :| KidHolds(s, i, ReadEnd(j)) || Holds(s.fds, ReadEnd(j));
      HolderIsNeighbour(c, l, s, if i < c.n then i else 0, j);
      OnlyAtStandard(c, l, s, j + 1, STDIN, ReadEnd(j));
    }
  }

  /** A read on an empty pipe gets end of file exactly when the command before it is gone or has
      closed its output. */
  lemma EofIff(c: Config, l: Limits, s: State, i: nat, next: Op)
    requires c.Valid() && l.Valid() && Reachable(c, l, s) && Settled(s)
    requires 0 < i < c.n && OnPipe(s, i, STDIN) && MayFollow(l, s.kids[i].left, next)
    requires Shaped(c, s) && s.bufs[i - 1] == []
    ensures Enabled(c, l, s, ReadEof(i, next)) <==> !(s.kids[i - 1].Running? && STDOUT in s.kids[i - 1].fds)
  {
    ReachableInv(c, l, s);
    OnlyNeighbours(c, l, s, i);
    WriteEndOpenIff(c, l, s, i - 1);
  }

  /** A write to a pipe breaks exactly when the command behind it is gone or has closed its input. */
  lemma BrokenPipeIff(c: Config, l: Limits, s: State, i: nat)
    requires c.Valid() && l.Valid() && Reachable(c, l, s) && Settled(s)
    requires Shaped(c, s) && i < c.n - 1 && OnPipe(s, i, STDOUT)
    ensures Enabled(c, l, s, WriteBroken(i)) <==> !(s.kids[i + 1].Running? && STDIN in s.kids[i + 1].fds)
  {
    ReachableInv(c, l, s);
    OnlyNeighbours(c, l, s, i);
    ReadEndOpenIff(c, l, s, i);
  }

  // ----- No deadlock -----

  /** Some child at or beyond place i can take a step. */
  ghost predicate MovesFrom(c: Config, l: Limits, s: State, i: nat) {
    exists step :: Enabled(c, l, s, step) && Mover(step) >= i
  }

  lemma MovesBy(c: Config, l: Limits, s: State, step: Step)
    requires Enabled(c, l, s, step) && Mover(step) >= 0
    ensures MovesFrom(c, l, s, Mover(step))
  {
  }

  lemma ReaderMoves(c: Config, l: Limits, s: State, i: nat)
    requires Inv(c, l, s) && Settled(s) && i < c.n && s.kids[i].Running? && s.kids[i].op.Read?
    requires i > 0 ==> s.bufs[i - 1] != [] || !Open(s, WriteEnd(i - 1))
    ensures MovesFrom(c, l, s, i)
  {
    OnlyNeighbours(c, l, s, i);
    assert KidOk(c, l, i, s.kids[i]);
    if !OnPipe(s, i, STDIN) {
      MovesBy(c, l, s, ReadOther(i, Exit));
    } else if s.bufs[i - 1] != [] {
      MovesBy(c, l, s, ReadPipe(i, 1, Exit));
    } else {
      MovesBy(c, l, s, ReadEof(i, Exit));
    }
  }

  /** The chain argument: a running command whose input is ready either can move or is blocked on
      a full pipe, and then the next command has input ready. */
  lemma {:induction false} ChainMoves(c: Config, l: Limits, s: State, i: nat)
    requires Inv(c, l, s) && Settled(s) && i < c.n && s.kids[i].Running?
    requires i > 0 ==> s.bufs[i - 1] != [] || !Open(s, WriteEnd(i - 1))
    ensures MovesFrom(c, l, s, i)
    decreases c.n - i, 2
  {
    match s.kids[i].op
    case Exit => MovesBy(c, l, s, ExitCall(i));
    case Shut(_) => MovesBy(c, l, s, ShutFd(i, Exit));
    case Read(_) => ReaderMoves(c, l, s, i);
    case Write(_, _) => WriterMoves(c, l, s, i);
  }

  lemma WriterMoves(c: Config, l: Limits, s: State, i: nat)
    requires Inv(c, l, s) && Settled(s) && i < c.n && s.kids[i].Running? && s.kids[i].op.Write?
    ensures MovesFrom(c, l, s, i)
    decreases c.n - i, 1
  {
    if OnSocket(s, i) {
      MovesBy(c, l, s, WriteSocket(i, Exit));
    } else if !OnPipe(s, i, STDOUT) {
      MovesBy(c, l, s, WriteOther(i, Exit));
    } else {
      PipeWriterMoves(c, l, s, i);
    }
  }

  lemma PipeWriterMoves(c: Config, l: Limits, s: State, i: nat)
    requires Inv(c, l, s) && Settled(s) && i < c.n && OnPipe(s, i, STDOUT)
    ensures MovesFrom(c, l, s, i)
    decreases c.n - i, 0
  {
    assert KidOk(c, l, i, s.kids[i]);
    OnlyNeighbours(c, l, s, i);
    OpenWriterIsPredecessor(c, l, s, i);
    var need := if s.kids[i].op.atomic then |s.kids[i].op.data| else 1;
    if !Open(s, ReadEnd(i)) {
      MovesBy(c, l, s, WriteBroken(i));
    } else if |s.bufs[i]| + need <= l.capacity {
      MovesBy(c, l, s, WritePipe(i, need, Exit));
    } else {
      ChainMoves(c, l, s, i + 1);
    }
  }

  lemma {:induction false} FirstRunning(s: State, i: nat) returns (m: nat)
    requires i < |s.kids| && s.kids[i].Running?
    ensures m < |s.kids| && s.kids[m].Running? && (m > 0 ==> !s.kids[m - 1].Running?)
  {
    if i == 0 || !s.kids[i - 1].Running? {
      m := i;
    } else {
      m := FirstRunning(s, i - 1);
    }
  }

  lemma SomeKidMoves(c: Config, l: Limits, s: State, i: nat)
    requires Inv(c, l, s) && Settled(s) && i < c.n && s.kids[i].Running?
    ensures MovesFrom(c, l, s, 0)
  {
    var m := FirstRunning(s, i);
    if m > 0 {
      OpenWriterIsPredecessor(c, l, s, m - 1);
    }
    ChainMoves(c, l, s, m);
  }

  /** As long as a command is running, some running command can move: it is never only the caller
      or the signal handler that can. */
  lemma CommandsNeverDeadlock(c: Config, l: Limits, s: State)
    requires c.Valid() && l.Valid() && Reachable(c, l, s) && Settled(s)
    requires exists i :: 0 <= i < |s.kids| && s.kids[i].Running?
    ensures exists step :: Enabled(c, l, s, step) && 0 <= Mover(step) < |s.kids| && s.kids[Mover(step)].Running?
  {
    ReachableInv(c, l, s);
    var i: nat :| i < |s.kids| && s.kids[i].Running?;
    SomeKidMoves(c, l, s, i);
    var step :| Enabled(c, l, s, step) && Mover(step) >= 0;
    MoverOnly(c, l, s, step);
  }

  lemma SetupMoves(c: Config, l: Limits, s: State, i: nat)
    requires Inv(c, l, s) && i < c.n && s.kids[i].Setup?
    ensures exists step :: Enabled(c, l, s, step)
  {
    assert KidOk(c, l, i, s.kids[i]);
    if s.kids[i].todo == [] {
      assert Enabled(c, l, s, ExecFails(i));
    } else {
      assert Enabled(c, l, s, SetupCall(i));
    }
  }

  lemma ParentMoves(c: Config, l: Limits, s: State)
    requires Inv(c, l, s)
    requires s.phase.Piping? || s.phase.Forking? || s.phase.Closing?
    ensures exists step :: Enabled(c, l, s, step)
  {
    if s.phase.Piping? {
      assert Enabled(c, l, s, MakePipe);
    } else if s.phase.Forking? {
      assert Enabled(c, l, s, Fork);
    } else {
      assert Enabled(c, l, s, ParentClose);
    }
  }

  lemma WaitMoves(c: Config, l: Limits, s: State)
    requires Inv(c, l, s) && s.phase.Waiting?
    requires forall i :: 0 <= i < c.n ==> !Alive(s.kids[i])
    ensures exists step :: Enabled(c, l, s, step)
  {
    if i: nat :| i < c.n && s.kids[i].Zombie? {
      assert Enabled(c, l, s, WaitReaps(i));
    } else {
      assert Enabled(c, l, s, WaitFails);
    }
  }

  lemma SomeStep(c: Config, l: Limits, s: State)
    requires Inv(c, l, s) && !Final(s)
    ensures exists step :: Enabled(c, l, s, step)
  {
    if s.phase.Piping? || s.phase.Forking? || s.phase.Closing? {
      ParentMoves(c, l, s);
    } else if i: nat :| i < c.n && s.kids[i].Setup? {
      SetupMoves(c, l, s, i);
    } else if i: nat :| i < c.n && s.kids[i].Running? {
      SomeKidMoves(c, l, s, i);
    } else {
      WaitMoves(c, l, s);
    }
  }

  /** No pipeline of any length deadlocks: in every reachable state that is not final some
      process can take a step, whatever the commands read, write, close or leave unread. */
  lemma NoDeadlock(c: Config, l: Limits, s: State)
    requires c.Valid() && l.Valid() && Reachable(c, l, s) && !Final(s)
    ensures exists step :: Enabled(c, l, s, step)
  {
    ReachableInv(c, l, s);
    SomeStep(c, l, s);
  }

  // ----- Data -----

  lemma EofReadsAll(c: Config, l: Limits, s: State, i: nat)
    requires Inv(c, l, s) && 0 < i < c.n && s.eof[i]
    ensures s.inp[i] == s.out[i - 1]
  {
    assert s.inp[i] + [] == s.inp[i];
  }

  /** Bytes flow through the chain unchanged: what a command has read, followed by what its pipe
      holds, is what the command before it has written; the client receives exactly the output
      of the last command. */
  lemma PipesCarryOutput(c: Config, l: Limits, s: State)
    requires c.Valid() && l.Valid() && Reachable(c, l, s)
    ensures Shaped(c, s)
    ensures forall i :: 0 < i < c.n ==> s.inp[i] + s.bufs[i - 1] == s.out[i - 1]
    ensures forall i :: 0 < i < c.n && s.eof[i] ==> s.inp[i] == s.out[i - 1]
    ensures s.sock == s.out[c.n - 1]
  {
    ReachableInv(c, l, s);
    forall i | 0 < i < c.n && s.eof[i] ensures s.inp[i] == s.out[i - 1] {
      EofReadsAll(c, l, s, i);
    }
  }

  /** Once command i has seen end of file, neither its flag nor what it and the command before
      it have transferred changes. */
  ghost predicate EofKept(s: State, s': State, i: nat) {
    && 0 < i < |s.eof| && i < |s'.eof| && i <= |s.out| && i <= |s'.out| && i < |s.inp| && i < |s'.inp|
    && (s.eof[i] ==> s'.eof[i] && s'.out[i - 1] == s.out[i - 1] && s'.inp[i] == s.inp[i] == s.out[i - 1])
  }

  /** Nobody writes to a pipe whose reader has seen end of file. */
  lemma NoWriteAfterEof(c: Config, l: Limits, s: State, step: Step, i: nat)
    requires Inv(c, l, s) && Enabled(c, l, s, step) && 0 < i < c.n && s.eof[i]
    ensures step.WritePipe? ==> step.i != i - 1
  {
    if step.WritePipe? {
      WriterHolds(c, l, s, step);
    }
  }

  lemma EofStep(c: Config, l: Limits, s: State, step: Step, i: nat)
    requires Inv(c, l, s) && Enabled(c, l, s, step) && 0 < i < c.n
    ensures EofKept(s, After(c, l, s, step), i)
  {
    StepShape(c, l, s, step);
    if s.eof[i] {
      EofReadsAll(c, l, s, i);
      NoWriteAfterEof(c, l, s, step, i);
      if step.WritePipe? || step.WriteSocket? || step.ReadPipe? {
        OnlyNeighbours(c, l, s, step.i);
      }
    }
  }

  lemma EveryNextEof(c: Config, l: Limits, i: nat)
    requires 0 < i < c.n
    ensures forall s, s' :: Inv(c, l, s) && Next(c, l, s, s') ==> EofKept(s, s', i)
  {
    forall s, s' | Inv(c, l, s) && Next(c, l, s, s') ensures EofKept(s, s', i) {
      var step :| Enabled(c, l, s, step) && s' == After(c, l, s, step);
      EofStep(c, l, s, step, i);
    }
  }

  lemma RunKeepsEof(c: Config, l: Limits, run: seq<State>, k: nat, i: nat)
    requires c.Valid() && l.Valid() && IsRun(c, l, run) && 0 < k < |run| && 0 < i < c.n
    ensures EofKept(run[k - 1], run[k], i)
  {
    RunInv(c, l, run, k - 1);
    EveryNextEof(c, l, i);
    assert Next(c, l, run[k - 1], run[k]);
  }

  /** End of file is never early: a command that has seen it has read all that the command before
      it writes in the whole run. */
  lemma {:induction false} EofIsFinal(c: Config, l: Limits, run: seq<State>, a: nat, b: nat, i: nat)
    requires c.Valid() && l.Valid() && IsRun(c, l, run) && a < b < |run| && 0 < i < c.n
    ensures EofKept(run[a], run[b], i)
    decreases b - a
  {
    RunKeepsEof(c, l, run, b, i);
    if a < b - 1 {
      EofIsFinal(c, l, run, a, b - 1, i);
    }
  }

  /** Nobody can read pipe i any more. */
  ghost predicate Unread(s: State, i: nat) {
    !s.phase.Piping? && !Open(s, ReadEnd(i))
  }

  ghost predicate OutputKept(s: State, s': State, i: nat) {
    i < |s.out| && i < |s'.out| && (Unread(s, i) ==> Unread(s', i) && s'.out[i] == s.out[i])
  }

  lemma UnreadStep(c: Config, l: Limits, s: State, step: Step, i: nat)
    requires Inv(c, l, s) && Enabled(c, l, s, step) && i < c.n - 1
    ensures OutputKept(s, After(c, l, s, step), i)
  {
    StepShape(c, l, s, step);
    if Unread(s, i) {
      if Open(After(c, l, s, step), ReadEnd(i)) {
        OpenShrinks(c, l, s, step, ReadEnd(i));
      }
      if step.WritePipe? || step.WriteSocket? {
        OnlyNeighbours(c, l, s, step.i);
      }
    }
  }

  lemma EveryNextUnread(c: Config, l: Limits, i: nat)
    requires i < c.n - 1
    ensures forall s, s' :: Inv(c, l, s) && Next(c, l, s, s') ==> OutputKept(s, s', i)
  {
    forall s, s' | Inv(c, l, s) && Next(c, l, s, s') ensures OutputKept(s, s', i) {
      var step :| Enabled(c, l, s, step) && s' == After(c, l, s, step);
      UnreadStep(c, l, s, step, i);
    }
  }

  lemma RunKeepsUnread(c: Config, l: Limits, run: seq<State>, k: nat, i: nat)
    requires c.Valid() && l.Valid() && IsRun(c, l, run) && 0 < k < |run| && i < c.n - 1
    ensures OutputKept(run[k - 1], run[k], i)
  {
    RunInv(c, l, run, k - 1);
    EveryNextUnread(c, l, i);
    assert Next(c, l, run[k - 1], run[k]);
  }

  /** Once nobody can read a command's pipe any more, the command puts nothing more into it. */
  lemma {:induction false} OutputStopsUnread(c: Config, l: Limits, run: seq<State>, a: nat, b: nat, i: nat)
    requires c.Valid() && l.Valid() && IsRun(c, l, run) && a < b < |run| && i < c.n - 1
    ensures OutputKept(run[a], run[b], i)
    decreases b - a
  {
    RunKeepsUnread(c, l, run, b, i);
    if a < b - 1 {
      OutputStopsUnread(c, l, run, a, b - 1, i);
    }
  }

  // ----- Reaping -----

  lemma StepKeepsReaped(c: Config, l: Limits, s: State, step: Step, i: nat)
    requires Inv(c, l, s) && Enabled(c, l, s, step) && i < c.n && s.kids[i].Reaped?
    ensures After(c, l, s, step).kids[i] == s.kids[i]
  {
    if step.Fork? {
      assert s.kids[s.phase.k].Unborn?;
    }
  }

  ghost predicate ReapedKept(s: State, s': State, i: nat) {
    i < |s.kids| && i < |s'.kids| && (s.kids[i].Reaped? ==> s'.kids[i] == s.kids[i])
  }

  lemma EveryNextKeepsReaped(c: Config, l: Limits, i: nat)
    requires i < c.n
    ensures forall s, s' :: Inv(c, l, s) && Next(c, l, s, s') ==> ReapedKept(s, s', i)
  {
    forall s, s' | Inv(c, l, s) && Next(c, l, s, s') ensures ReapedKept(s, s', i) {
      var step :| Enabled(c, l, s, step) && s' == After(c, l, s, step);
      StepShape(c, l, s, step);
      if s.kids[i].Reaped? {
        StepKeepsReaped(c, l, s, step, i);
      }
    }
  }

  lemma RunKeepsReaped(c: Config, l: Limits, run: seq<State>, k: nat, i: nat)
    requires c.Valid() && l.Valid() && IsRun(c, l, run) && 0 < k < |run| && i < c.n
    ensures ReapedKept(run[k - 1], run[k], i)
  {
    RunInv(c, l, run, k - 1);
    EveryNextKeepsReaped(c, l, i);
    assert Next(c, l, run[k - 1], run[k]);
  }

  /** A collected child stays on the record of whoever collected it. */
  lemma {:induction false} ReapedOnce(c: Config, l: Limits, run: seq<State>, a: nat, b: nat, i: nat)
    requires c.Valid() && l.Valid() && IsRun(c, l, run) && a < b < |run| && i < c.n
    ensures ReapedKept(run[a], run[b], i)
    decreases b - a
  {
    RunKeepsReaped(c, l, run, b, i);
    if a < b - 1 {
      ReapedOnce(c, l, run, a, b - 1, i);
    }
  }

  /** When `run_pipeline` returns, its n waits have collected all n children, none is left for a
      later command, the signal handler collected none, and the caller's descriptors are exactly
      those it started with. */
  lemma ReturnCollectsAll(c: Config, l: Limits, s: State)
    requires c.Valid() && l.Valid() && Reachable(c, l, s) && s.phase.Returned?
    ensures Shaped(c, s) && forall i :: 0 <= i < c.n ==> s.kids[i] == Reaped(true)
    ensures s.fds == c.base
  {
    ReachableInv(c, l, s);
    WaitedBound(s.kids);
  }

  /** The step to state k of the run collects child i. */
  ghost predicate CollectedAt(run: seq<State>, k: int, i: nat) {
    && 0 < k < |run| && i < |run[k - 1].kids| && i < |run[k].kids|
    && !run[k - 1].kids[i].Reaped? && run[k].kids[i].Reaped?
  }

  lemma {:induction false} CollectedSome(c: Config, l: Limits, run: seq<State>, b: nat, i: nat) returns (k: nat)
    requires c.Valid() && l.Valid() && IsRun(c, l, run) && b < |run| && i < c.n
    requires i < |run[b].kids| && run[b].kids[i].Reaped?
    ensures k <= b && CollectedAt(run, k, i)
  {
    assert b > 0;
    RunKeepsReaped(c, l, run, b, i);
    if run[b - 1].kids[i].Reaped? {
      k := CollectedSome(c, l, run, b - 1, i);
    } else {
      k := b;
    }
  }

  ghost predicate StaysCollected(run: seq<State>, i: nat) {
    forall a, b :: 0 <= a < b < |run| ==> ReapedKept(run[a], run[b], i)
  }

  lemma RunStaysCollected(c: Config, l: Limits, run: seq<State>, i: nat)
    requires c.Valid() && l.Valid() && IsRun(c, l, run) && i < c.n
    ensures StaysCollected(run, i)
  {
    forall a, b | 0 <= a < b < |run| ensures ReapedKept(run[a], run[b], i) {
      ReapedOnce(c, l, run, a, b, i);
    }
  }

  lemma CollectedNotTwice(run: seq<State>, j: int, k: int, i: nat)
    requires StaysCollected(run, i) && CollectedAt(run, j, i) && CollectedAt(run, k, i)
    ensures j == k
  {
  }

  /** When `run_pipeline` returns, each of its children was collected at exactly one step of the run,
      and that step was one of its own waits: nobody's record is counted twice. */
  lemma EachCollectedOnce(c: Config, l: Limits, run: seq<State>, i: nat) returns (k: nat)
    requires c.Valid() && l.Valid() && IsRun(c, l, run) && run[|run| - 1].phase.Returned? && i < c.n
    ensures CollectedAt(run, k, i) && run[k].kids[i] == Reaped(true)
    ensures forall j :: CollectedAt(run, j, i) ==> j == k
  {
    var last := |run| - 1;
    ReturnCollectsAll(c, l, run[last]);
    k := CollectedSome(c, l, run, last, i);
    RunStaysCollected(c, l, run, i);
    assert k < last ==> ReapedKept(run[k], run[last], i);
    forall j | CollectedAt(run, j, i) ensures j == k {
      CollectedNotTwice(run, j, k, i);
    }
  }

  /** `run_pipeline` returns if and only if the SIGCHLD handler collected none of its children;
      otherwise `mywait` finds no child and ends the session process. */
  lemma ReturnsIffHandlerIdle(c: Config, l: Limits, s: State)
    requires c.Valid() && l.Valid() && Reachable(c, l, s) && Final(s)
    ensures s.phase.Returned? <==> forall i :: 0 <= i < |s.kids| ==> s.kids[i] != Reaped(false)
  {
    ReachableInv(c, l, s);
    if s.phase.Returned? {
      ReturnCollectsAll(c, l, s);
    }
  }

  /** The outcome is a race: with one child left to collect, a return and, with the handler in
      place, the loss of the session process are both possible next. */
  lemma LastWaitRaces(c: Config, l: Limits, s: State, i: nat)
    requires c.Valid() && l.Valid() && Reachable(c, l, s)
    requires s.phase == Waiting(c.n - 1) && i < |s.kids| && s.kids[i].Zombie?
    requires forall j :: 0 <= j < |s.kids| && j != i ==> s.kids[j].Reaped?
    ensures exists s' :: Next(c, l, s, s') && s'.phase.Returned?
    ensures l.handled ==> exists s1, s2 :: Next(c, l, s, s1) && Next(c, l, s1, s2) && s2.phase.Exited?
  {
    ReachableInv(c, l, s);
    assert Enabled(c, l, s, WaitReaps(i));
    assert Next(c, l, s, After(c, l, s, WaitReaps(i)));
    if !l.handled { return; }
    assert Enabled(c, l, s, HandlerReaps(i));
    var s1 := After(c, l, s, HandlerReaps(i));
    StepShape(c, l, s, HandlerReaps(i));
    assert Next(c, l, s, s1);
    assert Enabled(c, l, s1, WaitFails);
    assert Next(c, l, s1, After(c, l, s1, WaitFails));
  }
}

