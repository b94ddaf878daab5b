/** `run_pipeline` as a system of n + 1 processes whose steps interleave arbitrarily.

    Every step is one system call.  A running command always has one call in progress, and a call
    that POSIX would block is not enabled, so a command cannot leave a blocked read or write. */
module PipelineMachine {
  import opened Bytes
  import opened Descriptors
  import opened PipelineWiring

  /** The surroundings of a run.  A pipe holds at most `capacity` bytes; a write of at most `pipeBuf`
      bytes is atomic; a command makes at most `calls` calls after its first and writes at most
      `burst` bytes in one; `handled` says that the SIGCHLD handler is installed and not blocked. */
  datatype Limits = Limits(capacity: nat, pipeBuf: nat, calls: nat, burst: nat, handled: bool) {
    predicate Valid() { 0 < pipeBuf <= capacity }
  }

  /** The call a command has in progress: reads standard input, writes standard output, closes
      any descriptor, or exits. */
  datatype Op = Read(max: nat) | Write(data: seq<Byte>, atomic: bool) | Shut(fd: int) | Exit

  predicate OpValid(l: Limits, op: Op) {
    && (op.Read? ==> op.max > 0)
    && (op.Write? ==> op.data != [] && |op.data| <= l.burst && (op.atomic ==> |op.data| <= l.pipeBuf))
  }

  function Fewer(left: nat): nat {
    if left > 0 then left - 1 else 0
  }

  /** A command that may start `left` more calls goes on with `next`; it can always exit. */
  predicate MayFollow(l: Limits, left: nat, next: Op) {
    OpValid(l, next) && (left > 0 || next.Exit?)
  }

  datatype Kid =
    | Unborn
    | Setup(fds: Table, todo: seq<Syscall>)
    | Running(fds: Table, op: Op, left: nat)
    | Zombie
    | Reaped(byWait: bool)

  datatype Phase =
    | Piping(k: nat)
    | Forking(k: nat)
    | Closing(todo: seq<Syscall>)
    | Waiting(k: nat)
    | Returned
    | Exited

  /** `inp` and `out` are histories: the bytes each command has read from a pipe, and written to a
      pipe or the socket.  `eof` records the commands that have seen end of file on a pipe. */
  datatype State = State(
    phase: Phase,
    fds: Table,
    kids: seq<Kid>,
    bufs: seq<seq<Byte>>,
    inp: seq<seq<Byte>>,
    out: seq<seq<Byte>>,
    eof: seq<bool>,
    sock: seq<Byte>)

  datatype Step =
    | MakePipe
    | Fork
    | ParentClose
    | WaitReaps(i: nat)
    | WaitFails
    | HandlerReaps(i: nat)
    | SetupCall(i: nat)
    | Exec(i: nat, op: Op)
    | ExecFails(i: nat)
    | ReadPipe(i: nat, count: nat, next: Op)
    | ReadEof(i: nat, next: Op)
    | ReadOther(i: nat, next: Op)
    | WritePipe(i: nat, count: nat, next: Op)
    | WriteBroken(i: nat)
    | WriteSocket(i: nat, next: Op)
    | WriteOther(i: nat, next: Op)
    | ShutFd(i: nat, next: Op)
    | ExitCall(i: nat)

  /** The child whose call the step is, or -1 for a step of the caller or of its handler. */
  function Mover(step: Step): int {
    match step
    case SetupCall(i) => i
    case Exec(i, _) => i
    case ExecFails(i) => i
    case ReadPipe(i, _, _) => i
    case ReadEof(i, _) => i
    case ReadOther(i, _) => i
    case WritePipe(i, _, _) => i
    case WriteBroken(i) => i
    case WriteSocket(i, _) => i
    case WriteOther(i, _) => i
    case ShutFd(i, _) => i
    case ExitCall(i) => i
    case _ => -1
  }

  function Init(c: Config): State {
    State(Piping(0), c.base,
          seq(c.n, _ => Unborn), seq(c.n, _ => []), seq(c.n, _ => []), seq(c.n, _ => []),
          seq(c.n, _ => false), [])
  }

  // ----- Which processes hold an end -----

  function KidFds(k: Kid): Table {
    if k.Setup? || k.Running? then k.fds else map[]
  }

  predicate Alive(k: Kid) { k.Setup? || k.Running? }

  ghost predicate KidHolds(s: State, i: nat, e: End) {
    i < |s.kids| && Holds(KidFds(s.kids[i]), e)
  }

  /** Some process still has the end open. */
  ghost predicate Open(s: State, e: End) {
    Holds(s.fds, e) || exists i: nat :: KidHolds(s, i, e)
  }

  // ----- Steps -----

  /** Child i is running and has call `op` in progress. */
  predicate Busy(s: State, i: nat, stdfd: int) {
    i < |s.kids| && s.kids[i].Running? &&
    match s.kids[i].op
    case Read(_) => stdfd == STDIN
    case Write(_, _) => stdfd == STDOUT
    case _ => false
  }

  predicate OnPipe(s: State, i: nat, stdfd: int) {
    && Busy(s, i, stdfd)
    && stdfd in s.kids[i].fds
    && (if stdfd == STDIN then s.kids[i].fds[stdfd].ReadEnd? else s.kids[i].fds[stdfd].WriteEnd?)
    && s.kids[i].fds[stdfd].pipe < |s.bufs|
  }

  function PipeOf(s: State, i: nat, stdfd: int): nat
    requires OnPipe(s, i, stdfd)
  {
    s.kids[i].fds[stdfd].pipe
  }

  predicate OnSocket(s: State, i: nat) {
    Busy(s, i, STDOUT) && STDOUT in s.kids[i].fds && s.kids[i].fds[STDOUT] == Socket
  }

  ghost predicate Enabled(c: Config, l: Limits, s: State, step: Step) {
    match step
    case MakePipe => s.phase.Piping? && s.phase.k < c.n
    case Fork => s.phase.Forking? && s.phase.k < c.n
    case ParentClose => s.phase.Closing? && s.phase.todo != [] && Apply(s.fds, s.phase.todo[0]).Some?
    case WaitReaps(i) => s.phase.Waiting? && s.phase.k < c.n && i < |s.kids| && s.kids[i].Zombie?
    case WaitFails =>
      s.phase.Waiting? && s.phase.k < c.n && forall i :: 0 <= i < |s.kids| ==> s.kids[i].Reaped?
    case HandlerReaps(i) => l.handled && !s.phase.Exited? && i < |s.kids| && s.kids[i].Zombie?
    case SetupCall(i) =>
      i < |s.kids| && s.kids[i].Setup? && s.kids[i].todo != [] && Apply(s.kids[i].fds, s.kids[i].todo[0]).Some?
    case Exec(i, op) => i < |s.kids| && s.kids[i].Setup? && s.kids[i].todo == [] && OpValid(l, op)
    case ExecFails(i) => i < |s.kids| && s.kids[i].Setup? && s.kids[i].todo == []
    case ReadPipe(i, count, next) =>
      OnPipe(s, i, STDIN) && MayFollow(l, s.kids[i].left, next) &&
      0 < count <= s.kids[i].op.max && count <= |s.bufs[PipeOf(s, i, STDIN)]|
    case ReadEof(i, next) =>
      OnPipe(s, i, STDIN) && MayFollow(l, s.kids[i].left, next) &&
      s.bufs[PipeOf(s, i, STDIN)] == [] && !Open(s, WriteEnd(PipeOf(s, i, STDIN)))
    case ReadOther(i, next) => Busy(s, i, STDIN) && MayFollow(l, s.kids[i].left, next) && !OnPipe(s, i, STDIN)
    case WritePipe(i, count, next) =>
      OnPipe(s, i, STDOUT) && MayFollow(l, s.kids[i].left, next) && Open(s, ReadEnd(PipeOf(s, i, STDOUT))) &&
      0 < count <= |s.kids[i].op.data| && (s.kids[i].op.atomic ==> count == |s.kids[i].op.data|) &&
      |s.bufs[PipeOf(s, i, STDOUT)]| + count <= l.capacity
    case WriteBroken(i) => OnPipe(s, i, STDOUT) && !Open(s, ReadEnd(PipeOf(s, i, STDOUT)))
    case WriteSocket(i, next) => OnSocket(s, i) && MayFollow(l, s.kids[i].left, next)
    case WriteOther(i, next) =>
      Busy(s, i, STDOUT) && MayFollow(l, s.kids[i].left, next) && !OnPipe(s, i, STDOUT) && !OnSocket(s, i)
    case ShutFd(i, next) =>
      i < |s.kids| && s.kids[i].Running? && s.kids[i].op.Shut? && MayFollow(l, s.kids[i].left, next)
    case ExitCall(i) => i < |s.kids| && s.kids[i].Running? && s.kids[i].op.Exit?
  }

  function SetKid(s: State, i: nat, k: Kid): State
    requires i < |s.kids|
  {
    s.(kids := s.kids[i := k])
  }

  function NextOp(s: State, i: nat, op: Op): State
    requires i < |s.kids| && s.kids[i].Running?
  {
    SetKid(s, i, Running(s.kids[i].fds, op, Fewer(s.kids[i].left)))
  }

  ghost predicate Shaped(c: Config, s: State) {
    |c.fd| == 2 * c.n && |s.kids| == |s.bufs| == |s.inp| == |s.out| == |s.eof| == c.n
  }

  /** The state after an enabled step. */
  ghost function After(c: Config, l: Limits, s: State, step: Step): State
    requires Shaped(c, s) && Enabled(c, l, s, step)
  {
    match step
    case MakePipe =>
      var j := s.phase.k;
      s.(fds := s.fds[c.fd[2 * j] := ReadEnd(j)][c.fd[2 * j + 1] := WriteEnd(j)],
         phase := if j + 1 == c.n then Forking(0) else Piping(j + 1))
    case Fork =>
      var i := s.phase.k;
      SetKid(s, i, Setup(s.fds, ChildCalls(c, i)))
        .(phase := if i + 1 == c.n then Closing(Closes(c, 0)) else Forking(i + 1))
    case ParentClose =>
      var rest := s.phase.todo[1..];
      s.(fds := Apply(s.fds, s.phase.todo[0]).value,
         phase := if rest == [] then Waiting(0) else Closing(rest))
    case WaitReaps(i) =>
      SetKid(s, i, Reaped(true))
        .(phase := if s.phase.k + 1 == c.n then Returned else Waiting(s.phase.k + 1))
    case WaitFails => s.(phase := Exited, fds := map[])
    case HandlerReaps(i) => SetKid(s, i, Reaped(false))
    case SetupCall(i) =>
      SetKid(s, i, Setup(Apply(s.kids[i].fds, s.kids[i].todo[0]).value, s.kids[i].todo[1..]))
    case Exec(i, op) => SetKid(s, i, Running(s.kids[i].fds, op, l.calls))
    case ExecFails(i) => SetKid(s, i, Zombie)
    case ReadPipe(i, count, next) =>
      var j := PipeOf(s, i, STDIN);
      NextOp(s, i, next)
        .(bufs := s.bufs[j := s.bufs[j][count..]], inp := s.inp[i := s.inp[i] + s.bufs[j][..count]])
    case ReadEof(i, next) => NextOp(s, i, next).(eof := s.eof[i := true])
    case ReadOther(i, next) => NextOp(s, i, next)
    case WritePipe(i, count, next) =>
      var j := PipeOf(s, i, STDOUT);
      var data := s.kids[i].op.data;
      (if count == |data| then NextOp(s, i, next)
       else SetKid(s, i, Running(s.kids[i].fds, Write(data[count..], false), s.kids[i].left)))
        .(bufs := s.bufs[j := s.bufs[j] + data[..count]], out := s.out[i := s.out[i] + data[..count]])
    case WriteBroken(i) => SetKid(s, i, Zombie)
    case WriteSocket(i, next) =>
      NextOp(s, i, next).(sock := s.sock + s.kids[i].op.data, out := s.out[i := s.out[i] + s.kids[i].op.data])
    case WriteOther(i, next) => NextOp(s, i, next)
    case ShutFd(i, next) =>
      SetKid(s, i, Running(s.kids[i].fds - {s.kids[i].op.fd}, next, Fewer(s.kids[i].left)))
    case ExitCall(i) => SetKid(s, i, Zombie)
  }

  ghost predicate Next(c: Config, l: Limits, s: State, s': State) {
    Shaped(c, s) && exists step :: Enabled(c, l, s, step) && s' == After(c, l, s, step)
  }

  /** A run of the system from the moment `run_pipeline` is entered. */
  ghost predicate IsRun(c: Config, l: Limits, run: seq<State>) {
    && |run| > 0 && run[0] == Init(c)
    && forall j, k :: 0 <= j < k < |run| && k == j + 1 ==> Next(c, l, run[j], run[k])
  }

  ghost predicate Reachable(c: Config, l: Limits, s: State) {
    exists run :: IsRun(c, l, run) && run[|run| - 1] == s
  }

  /** Nothing is left to happen: the caller is past its waits and no command is alive. */
  predicate Final(s: State) {
    (s.phase.Returned? || s.phase.Exited?) && forall i :: 0 <= i < |s.kids| ==> !Alive(s.kids[i])
  }

  // ----- The invariant -----

  function Waited(kids: seq<Kid>): nat {
    if kids == [] then 0
    else (if kids[0] == Reaped(true) then 1 else 0) + Waited(kids[1..])
  }

  ghost predicate AllUnbornFrom(s: State, k: nat) {
    k <= |s.kids| && forall i :: 0 <= i < |s.kids| ==> (s.kids[i].Unborn? <==> k <= i)
  }

  ghost predicate ParentOk(c: Config, s: State)
    requires Shaped(c, s)
  {
    match s.phase
    case Piping(k) =>
      k < c.n && s.fds == Opened(c, 2 * k) && AllUnbornFrom(s, 0) && forall i :: 0 <= i < c.n ==> !s.eof[i]
    case Forking(k) => k < c.n && s.fds == Opened(c, |c.fd|) && AllUnbornFrom(s, k)
    case Closing(todo) => todo != [] && ApplyAll(s.fds, todo) == Some(c.base) && AllUnbornFrom(s, c.n)
    case Waiting(k) => k < c.n && s.fds == c.base && AllUnbornFrom(s, c.n)
    case Returned => s.fds == c.base && AllUnbornFrom(s, c.n)
    case Exited => s.fds == map[] && AllUnbornFrom(s, c.n) && exists i :: 0 <= i < c.n && s.kids[i] == Reaped(false)
  }

  function Waits(c: Config, p: Phase): nat {
    match p
    case Waiting(k) => k
    case Returned => c.n
    case _ => 0
  }

  ghost predicate CountOk(c: Config, s: State) {
    !s.phase.Exited? ==> Waited(s.kids) == Waits(c, s.phase)
  }

  ghost predicate KidOk(c: Config, l: Limits, i: nat, k: Kid)
    requires i < c.n && |c.fd| == 2 * c.n && STDIN in c.base
  {
    match k
    case Setup(fds, todo) => ApplyAll(fds, todo) == Some(Wired(c, i))
    case Reaped(byWait) => byWait || l.handled
    case Running(fds, op, left) =>
      OpValid(l, op) && left <= l.calls && forall fd :: fd in fds ==> fd in Wired(c, i) && fds[fd] == Wired(c, i)[fd]
    case _ => true
  }

  ghost predicate KidsOk(c: Config, l: Limits, s: State)
    requires Shaped(c, s) && STDIN in c.base
  {
    forall i :: 0 <= i < c.n ==> KidOk(c, l, i, s.kids[i])
  }

  ghost predicate FlowOk(c: Config, l: Limits, s: State)
    requires Shaped(c, s) && c.n > 0
  {
    && (forall j :: 0 <= j < c.n ==> |s.bufs[j]| <= l.capacity)
    && (forall j :: 0 < j < c.n ==> s.out[j - 1] == s.inp[j] + s.bufs[j - 1])
    && s.out[c.n - 1] == s.sock
  }

  ghost predicate EofOk(c: Config, s: State)
    requires Shaped(c, s) && c.n > 0
  {
    !s.eof[0] &&
    forall j :: 0 < j < c.n && s.eof[j] ==> s.bufs[j - 1] == [] && !Open(s, WriteEnd(j - 1))
  }

  ghost predicate Inv(c: Config, l: Limits, s: State) {
    && c.Valid() && l.Valid() && Shaped(c, s)
    && ParentOk(c, s)
    && CountOk(c, s)
    && KidsOk(c, l, s)
    && FlowOk(c, l, s)
    && EofOk(c, s)
  }

  // ----- Every step keeps the invariant -----

  lemma {:induction false} WaitedNone(kids: seq<Kid>)
    requires forall i :: 0 <= i < |kids| ==> kids[i] != Reaped(true)
    ensures Waited(kids) == 0
  {
    if kids != [] {
      WaitedNone(kids[1..]);
    }
  }

  lemma InitInv(c: Config, l: Limits)
    requires c.Valid() && l.Valid()
    ensures Inv(c, l, Init(c))
  {
    WaitedNone(Init(c).kids);
  }

  lemma {:induction false} WaitedUpdate(kids: seq<Kid>, i: nat, k: Kid)
    requires i < |kids| && kids[i] != Reaped(true)
    ensures Waited(kids[i := k]) == Waited(kids) + if k == Reaped(true) then 1 else 0
  {
    if i == 0 {
      assert kids[i := k][1..] == kids[1..];
    } else {
      assert kids[i := k][1..] == kids[1..][i - 1 := k];
      WaitedUpdate(kids[1..], i - 1, k);
    }
  }

  lemma {:induction false} WaitedBound(kids: seq<Kid>)
    ensures Waited(kids) <= |kids|
    ensures Waited(kids) == |kids| ==> forall i :: 0 <= i < |kids| ==> kids[i] == Reaped(true)
  {
    if kids != [] {
      WaitedBound(kids[1..]);
      if Waited(kids) == |kids| {
        forall i | 0 <= i < |kids| ensures kids[i] == Reaped(true) {
          if i > 0 {
            assert kids[i] == kids[1..][i - 1];
          }
        }
      }
    }
  }

  lemma {:induction false} WaitedAll(kids: seq<Kid>)
    requires forall i :: 0 <= i < |kids| ==> kids[i] == Reaped(true)
    ensures Waited(kids) == |kids|
  {
    if kids != [] {
      WaitedAll(kids[1..]);
    }
  }

  lemma StepShape(c: Config, l: Limits, s: State, step: Step)
    requires Shaped(c, s) && Enabled(c, l, s, step)
    ensures Shaped(c, After(c, l, s, step))
  {
  }

  lemma StepParentPiping(c: Config, l: Limits, s: State)
    requires c.Valid() && Shaped(c, s) && ParentOk(c, s) && Enabled(c, l, s, MakePipe)
    ensures ParentOk(c, After(c, l, s, MakePipe))
  {
    var m := 2 * s.phase.k;
    assert Opened(c, m + 2) == Opened(c, m + 1)[c.fd[m + 1] := EndAt(m + 1)];
    assert Opened(c, m + 1) == Opened(c, m)[c.fd[m] := EndAt(m)];
  }

  lemma StepParentForking(c: Config, l: Limits, s: State)
    requires c.Valid() && Shaped(c, s) && ParentOk(c, s) && Enabled(c, l, s, Fork)
    ensures ParentOk(c, After(c, l, s, Fork))
  {
    ParentClosesToBase(c);
    assert Closes(c, 0) != [];
  }

  lemma StepParentClosing(c: Config, l: Limits, s: State)
    requires c.Valid() && Shaped(c, s) && ParentOk(c, s) && Enabled(c, l, s, ParentClose)
    ensures ParentOk(c, After(c, l, s, ParentClose))
  {
    assert ApplyAll(After(c, l, s, ParentClose).fds, s.phase.todo[1..]) == Some(c.base);
  }

  lemma ParentUnaffected(c: Config, s: State, s': State)
    requires Shaped(c, s) && Shaped(c, s') && ParentOk(c, s)
    requires s'.phase == s.phase && s'.fds == s.fds
    requires forall i :: 0 <= i < c.n ==> (s'.kids[i].Unborn? <==> s.kids[i].Unborn?)
    requires forall i :: 0 <= i < c.n && s.kids[i].Reaped? ==> s'.kids[i] == s.kids[i]
    requires s'.eof == s.eof || !s.phase.Piping?
    ensures ParentOk(c, s')
  {
  }

  lemma StepParentWaitFails(c: Config, l: Limits, s: State)
    requires c.Valid() && Shaped(c, s) && ParentOk(c, s) && CountOk(c, s) && Enabled(c, l, s, WaitFails)
    ensures ParentOk(c, After(c, l, s, WaitFails))
  {
    if forall i :: 0 <= i < c.n ==> s.kids[i] == Reaped(true) {
      WaitedAll(s.kids);
    }
  }

  /** A child's call changes nothing of the caller, and no other child. */
  lemma MoverOnly(c: Config, l: Limits, s: State, step: Step)
    requires Shaped(c, s) && Enabled(c, l, s, step) && Mover(step) >= 0
    ensures var i, s' := Mover(step), After(c, l, s, step);
            && i < c.n && s'.phase == s.phase && s'.fds == s.fds
            && |s'.kids| == c.n && s'.kids == s.kids[i := s'.kids[i]]
            && Alive(s.kids[i]) && (Alive(s'.kids[i]) || s'.kids[i].Zombie?)
  {
  }

  lemma StepParentKid(c: Config, l: Limits, s: State, step: Step)
    requires c.Valid() && Shaped(c, s) && ParentOk(c, s) && Enabled(c, l, s, step) && Mover(step) >= 0
    ensures ParentOk(c, After(c, l, s, step))
  {
    MoverOnly(c, l, s, step);
    ParentUnaffected(c, s, After(c, l, s, step));
  }

  lemma StepParentCollect(c: Config, l: Limits, s: State, step: Step)
    requires c.Valid() && Shaped(c, s) && ParentOk(c, s) && Enabled(c, l, s, step)
    requires step.WaitReaps? || step.HandlerReaps?
    ensures ParentOk(c, After(c, l, s, step))
  {
    if step.HandlerReaps? {
      ParentUnaffected(c, s, After(c, l, s, step));
    }
  }

  lemma StepParentSetup(c: Config, l: Limits, s: State, step: Step)
    requires c.Valid() && Shaped(c, s) && ParentOk(c, s) && Enabled(c, l, s, step)
    requires step.MakePipe? || step.Fork? || step.ParentClose?
    ensures ParentOk(c, After(c, l, s, step))
  {
    match step
    case MakePipe => StepParentPiping(c, l, s);
    case Fork => StepParentForking(c, l, s);
    case ParentClose => StepParentClosing(c, l, s);
  }

  lemma StepParent(c: Config, l: Limits, s: State, step: Step)
    requires c.Valid() && Shaped(c, s) && ParentOk(c, s) && CountOk(c, s) && Enabled(c, l, s, step)
    ensures ParentOk(c, After(c, l, s, step))
  {
    if Mover(step) >= 0 {
      StepParentKid(c, l, s, step);
    } else if step.WaitReaps? || step.HandlerReaps? {
      StepParentCollect(c, l, s, step);
    } else if step.WaitFails? {
      StepParentWaitFails(c, l, s);
    } else {
      StepParentSetup(c, l, s, step);
    }
  }

  lemma CollectCounts(c: Config, l: Limits, s: State, step: Step)
    requires Shaped(c, s) && ParentOk(c, s) && CountOk(c, s) && Enabled(c, l, s, step)
    requires step.WaitReaps? || step.HandlerReaps?
    ensures CountOk(c, After(c, l, s, step))
  {
    WaitedUpdate(s.kids, step.i, After(c, l, s, step).kids[step.i]);
  }

  lemma StepCount(c: Config, l: Limits, s: State, step: Step)
    requires Shaped(c, s) && ParentOk(c, s) && CountOk(c, s) && Enabled(c, l, s, step)
    ensures CountOk(c, After(c, l, s, step))
  {
    var s' := After(c, l, s, step);
    if Mover(step) >= 0 {
      MoverOnly(c, l, s, step);
      WaitedUpdate(s.kids, Mover(step), s'.kids[Mover(step)]);
    } else if step.WaitReaps? || step.HandlerReaps? {
      CollectCounts(c, l, s, step);
    } else if step.Fork? {
      WaitedUpdate(s.kids, s.phase.k, s'.kids[s.phase.k]);
    }
  }

  /** The caller and the handler leave every child as the invariant wants it. */
  lemma CallerKeepsKid(c: Config, l: Limits, s: State, step: Step, i: nat)
    requires c.Valid() && Shaped(c, s) && ParentOk(c, s) && Enabled(c, l, s, step) && Mover(step) < 0
    requires i < c.n && KidOk(c, l, i, s.kids[i])
    ensures KidOk(c, l, i, After(c, l, s, step).kids[i])
  {
    if step.Fork? {
      ChildCallsWire(c, i);
    }
  }

  lemma MoverKeepsKid(c: Config, l: Limits, s: State, step: Step)
    requires c.Valid() && Shaped(c, s) && Enabled(c, l, s, step) && Mover(step) >= 0
    requires KidOk(c, l, Mover(step), s.kids[Mover(step)])
    ensures KidOk(c, l, Mover(step), After(c, l, s, step).kids[Mover(step)])
  {
  }

  lemma StepKids(c: Config, l: Limits, s: State, step: Step, i: nat)
    requires c.Valid() && Shaped(c, s) && ParentOk(c, s) && Enabled(c, l, s, step)
    requires i < c.n && KidOk(c, l, i, s.kids[i])
    ensures KidOk(c, l, i, After(c, l, s, step).kids[i])
  {
    if Mover(step) < 0 {
      CallerKeepsKid(c, l, s, step, i);
    } else if Mover(step) == i {
      MoverKeepsKid(c, l, s, step);
    } else {
      MoverOnly(c, l, s, step);
    }
  }

  /** What the caller holds after a step, it held before. */
  lemma CallerGainsNothing(c: Config, l: Limits, s: State, step: Step, e: End)
    requires Shaped(c, s) && Enabled(c, l, s, step) && !step.MakePipe?
    requires Holds(After(c, l, s, step).fds, e)
    ensures Holds(s.fds, e)
  {
    if step.ParentClose? {
      ApplyAddsNoEnd(s.fds, s.phase.todo[0], e);
    }
  }

  /** A child in set-up gains nothing by a call. */
  lemma SetupGainsNothing(c: Config, l: Limits, s: State, i: nat, e: End)
    requires Shaped(c, s) && Enabled(c, l, s, SetupCall(i))
    requires KidHolds(After(c, l, s, SetupCall(i)), i, e)
    ensures KidHolds(s, i, e)
  {
    ApplyAddsNoEnd(s.kids[i].fds, s.kids[i].todo[0], e);
  }

  /** After any step but these two kinds a child's table is part of the one it had. */
  lemma TableShrinks(c: Config, l: Limits, s: State, step: Step, i: nat, fd: int)
    requires Shaped(c, s) && Enabled(c, l, s, step) && i < c.n
    requires !step.SetupCall? && (step.Fork? ==> i != s.phase.k)
    requires fd in KidFds(After(c, l, s, step).kids[i])
    ensures fd in KidFds(s.kids[i]) && KidFds(s.kids[i])[fd] == KidFds(After(c, l, s, step).kids[i])[fd]
  {
    var k, k' := s.kids[i], After(c, l, s, step).kids[i];
    assert k' == k || (k.Setup? && k'.Running? && k'.fds == k.fds)
        || (k.Running? && k'.Running? && (k'.fds == k.fds || k'.fds == k.fds - {k.op.fd})) || KidFds(k') == map[];
  }

  lemma ChildGainsNothing(c: Config, l: Limits, s: State, step: Step, i: nat, e: End)
    requires Shaped(c, s) && Enabled(c, l, s, step)
    requires step.Fork? ==> i != s.phase.k
    requires KidHolds(After(c, l, s, step), i, e)
    ensures KidHolds(s, i, e)
  {
    if step.SetupCall? {
      if step.i == i {
        SetupGainsNothing(c, l, s, i, e);
      }
    } else {
      var fds := KidFds(After(c, l, s, step).kids[i]);
      var fd :| fd in fds && fds[fd] == e;
      TableShrinks(c, l, s, step, i, fd);
    }
  }

  /** Once the pipes exist no step makes an end open that was closed everywhere. */
  lemma OpenShrinks(c: Config, l: Limits, s: State, step: Step, e: End)
    requires Shaped(c, s) && Enabled(c, l, s, step) && !step.MakePipe?
    requires Open(After(c, l, s, step), e)
    ensures Open(s, e)
  {
    var s' := After(c, l, s, step);
    if Holds(s'.fds, e) {
      CallerGainsNothing(c, l, s, step, e);
    } else {
      var i: nat :| KidHolds(s', i, e);
      if !(step.Fork? && i == s.phase.k) {
        ChildGainsNothing(c, l, s, step, i, e);
      }
    }
  }

  /** A command that runs reads and writes only the pipes next to it. */
  lemma OnlyNeighbours(c: Config, l: Limits, s: State, i: nat)
    requires c.Valid() && Shaped(c, s) && KidsOk(c, l, s) && i < c.n && s.kids[i].Running?
    ensures OnPipe(s, i, STDIN) ==> 0 < i && PipeOf(s, i, STDIN) == i - 1
    ensures OnPipe(s, i, STDOUT) ==> i < c.n - 1 && PipeOf(s, i, STDOUT) == i
    ensures OnSocket(s, i) ==> i == c.n - 1
  {
    assert KidOk(c, l, i, s.kids[i]);
  }

  lemma ReadKeepsFlow(c: Config, l: Limits, s: State, i: nat, count: nat, next: Op)
    requires c.Valid() && Shaped(c, s) && KidsOk(c, l, s) && FlowOk(c, l, s)
    requires Enabled(c, l, s, ReadPipe(i, count, next))
    ensures FlowOk(c, l, After(c, l, s, ReadPipe(i, count, next)))
  {
    OnlyNeighbours(c, l, s, i);
    var b := s.bufs[i - 1];
    assert b == b[..count] + b[count..];
  }

  lemma WriteKeepsFlow(c: Config, l: Limits, s: State, i: nat, count: nat, next: Op)
    requires c.Valid() && Shaped(c, s) && KidsOk(c, l, s) && FlowOk(c, l, s)
    requires Enabled(c, l, s, WritePipe(i, count, next))
    ensures FlowOk(c, l, After(c, l, s, WritePipe(i, count, next)))
  {
    OnlyNeighbours(c, l, s, i);
  }

  lemma SocketKeepsFlow(c: Config, l: Limits, s: State, i: nat, next: Op)
    requires c.Valid() && Shaped(c, s) && KidsOk(c, l, s) && FlowOk(c, l, s) && Enabled(c, l, s, WriteSocket(i, next))
    ensures FlowOk(c, l, After(c, l, s, WriteSocket(i, next)))
  {
    OnlyNeighbours(c, l, s, i);
  }

  lemma OthersKeepFlow(c: Config, l: Limits, s: State, step: Step)
    requires Shaped(c, s) && Enabled(c, l, s, step) && !step.ReadPipe? && !step.WritePipe? && !step.WriteSocket?
    ensures var s' := After(c, l, s, step);
            s'.bufs == s.bufs && s'.inp == s.inp && s'.out == s.out && s'.sock == s.sock
  {
  }

  lemma StepFlow(c: Config, l: Limits, s: State, step: Step)
    requires c.Valid() && Shaped(c, s) && KidsOk(c, l, s) && FlowOk(c, l, s) && Enabled(c, l, s, step)
    ensures FlowOk(c, l, After(c, l, s, step))
  {
    if step.ReadPipe? {
      ReadKeepsFlow(c, l, s, step.i, step.count, step.next);
    } else if step.WritePipe? {
      WriteKeepsFlow(c, l, s, step.i, step.count, step.next);
    } else if step.WriteSocket? {
      SocketKeepsFlow(c, l, s, step.i, step.next);
    } else {
      OthersKeepFlow(c, l, s, step);
    }
  }

  /** Who writes to a pipe holds its write end. */
  lemma WriterHolds(c: Config, l: Limits, s: State, step: Step)
    requires c.Valid() && Shaped(c, s) && KidsOk(c, l, s) && Enabled(c, l, s, step) && step.WritePipe?
    ensures Open(s, WriteEnd(step.i))
  {
    OnlyNeighbours(c, l, s, step.i);
    assert KidHolds(s, step.i, WriteEnd(step.i)) by {
      assert s.kids[step.i].fds[STDOUT] == WriteEnd(step.i);
    }
  }

  lemma StepEof(c: Config, l: Limits, s: State, step: Step)
    requires c.Valid() && Shaped(c, s) && ParentOk(c, s) && KidsOk(c, l, s) && EofOk(c, s) && Enabled(c, l, s, step)
    ensures EofOk(c, After(c, l, s, step))
  {
    var s' := After(c, l, s, step);
    if step.ReadPipe? || step.WritePipe? || step.ReadEof? {
      OnlyNeighbours(c, l, s, step.i);
    }
    if step.WritePipe? {
      WriterHolds(c, l, s, step);
    }
    forall j | 0 < j < c.n && s'.eof[j]
      ensures s'.bufs[j - 1] == [] && !Open(s', WriteEnd(j - 1))
    {
      assert s.bufs[j - 1] == [] && !Open(s, WriteEnd(j - 1));
      if Open(s', WriteEnd(j - 1)) {
        OpenShrinks(c, l, s, step, WriteEnd(j - 1));
      }
    }
  }

  lemma StepInv(c: Config, l: Limits, s: State, step: Step)
    requires Inv(c, l, s) && Enabled(c, l, s, step)
    ensures Inv(c, l, After(c, l, s, step))
  {
    StepShape(c, l, s, step);
    StepParent(c, l, s, step);
    StepCount(c, l, s, step);
    forall i | 0 <= i < c.n ensures KidOk(c, l, i, After(c, l, s, step).kids[i]) {
      StepKids(c, l, s, step, i);
    }
    StepFlow(c, l, s, step);
    StepEof(c, l, s, step);
  }

  lemma NextInv(c: Config, l: Limits, s: State, s': State)
    requires Inv(c, l, s) && Next(c, l, s, s')
    ensures Inv(c, l, s')
  {
    var step :| Enabled(c, l, s, step) && s' == After(c, l, s, step);
    StepInv(c, l, s, step);
  }

  lemma EveryNextInv(c: Config, l: Limits)
    ensures forall s, s' :: Inv(c, l, s) && Next(c, l, s, s') ==> Inv(c, l, s')
  {
    forall s, s' | Inv(c, l, s) && Next(c, l, s, s') ensures Inv(c, l, s') {
      NextInv(c, l, s, s');
    }
  }

  lemma {:induction false} RunInv(c: Config, l: Limits, run: seq<State>, k: nat)
    requires c.Valid() && l.Valid() && IsRun(c, l, run) && k < |run|
    ensures Inv(c, l, run[k])
  {
    if k == 0 {
      InitInv(c, l);
    } else {
      RunInv(c, l, run, k - 1);
      EveryNextInv(c, l);
      assert Next(c, l, run[k - 1], run[k]);
    }
  }

  lemma ReachableInv(c: Config, l: Limits, s: State)
    requires c.Valid() && l.Valid() && Reachable(c, l, s)
    ensures Inv(c, l, s)
  {
    var run :| IsRun(c, l, run) && run[|run| - 1] == s;
    RunInv(c, l, run, |run| - 1);
  }
}

