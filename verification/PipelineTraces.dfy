/** What the commands of a pipeline ask for, call by call, and what they get. */
module PipelineTraces {
  import opened Bytes
  import opened Descriptors
  import opened PipelineWiring
  import opened PipelineMachine
  import opened PipelineTheorems

  // ----- Runs with their steps -----

  ghost predicate StepsTo(c: Config, l: Limits, s: State, step: Step, s': State) {
    Shaped(c, s) && Enabled(c, l, s, step) && s' == After(c, l, s, step)
  }

  ghost predicate IsTrace(c: Config, l: Limits, run: seq<State>, steps: seq<Step>) {
    && |run| == |steps| + 1 && run[0] == Init(c)
    && forall j, k :: 0 <= j < k < |run| && k == j + 1 ==> StepsTo(c, l, run[j], steps[j], run[k])
  }

  lemma TraceIsRun(c: Config, l: Limits, run: seq<State>, steps: seq<Step>)
    requires IsTrace(c, l, run, steps)
    ensures IsRun(c, l, run)
  {
    forall j, k | 0 <= j < k < |run| && k == j + 1 ensures Next(c, l, run[j], run[k]) {
      assert StepsTo(c, l, run[j], steps[j], run[k]);
    }
  }

  lemma NextHasStep(c: Config, l: Limits, s: State, s': State) returns (step: Step)
    requires Next(c, l, s, s')
    ensures StepsTo(c, l, s, step, s')
  {
    step :| Enabled(c, l, s, step) && s' == After(c, l, s, step);
  }

  /** Every run is one of some steps. */
  lemma {:induction false} RunHasSteps(c: Config, l: Limits, run: seq<State>) returns (steps: seq<Step>)
    requires IsRun(c, l, run)
    ensures IsTrace(c, l, run, steps)
    decreases |run|
  {
    if |run| == 1 {
      steps := [];
    } else {
      var last := |run| - 1;
      var before := RunHasSteps(c, l, run[..last]);
      assert Next(c, l, run[last - 1], run[last]);
      var step := NextHasStep(c, l, run[last - 1], run[last]);
      steps := before + [step];
      forall j, k | 0 <= j < k < |run| && k == j + 1 ensures StepsTo(c, l, run[j], steps[j], run[k]) {
        if k < last {
          assert StepsTo(c, l, run[..last][j], before[j], run[..last][k]);
        }
      }
    }
  }

  // ----- What a command has asked for -----

  /** The account of one command, kept from its steps alone: the call in progress; the data of every
      write it has begun, and how much of that has been dealt with; how many bytes its reads took
      from a pipe; whether one saw end of file; what it has closed; whether a broken pipe ended it. */
  datatype Account = Account(
    call: Op, issued: seq<Byte>, settled: nat, got: nat, sawEof: bool, shut: set<int>, broke: bool)

  const NoCalls := Account(Exit, [], 0, 0, false, {}, false)

  function DataOf(op: Op): seq<Byte> {
    if op.Write? then op.data else []
  }

  function Begin(a: Account, op: Op): Account {
    a.(call := op, issued := a.issued + DataOf(op))
  }

  function Note(a: Account, step: Step): Account {
    match step
    case Exec(_, op) => Begin(a, op)
    case ReadPipe(_, count, next) => Begin(a.(got := a.got + count), next)
    case ReadEof(_, next) => Begin(a.(sawEof := true), next)
    case ReadOther(_, next) => Begin(a, next)
    case WritePipe(_, count, next) =>
      var b := a.(settled := a.settled + count);
      if b.settled == |b.issued| then Begin(b, next) else b
    case WriteBroken(_) => a.(broke := true)
    case WriteSocket(_, next) => Begin(a.(settled := |a.issued|), next)
    case WriteOther(_, next) => Begin(a.(settled := |a.issued|), next)
    case ShutFd(_, next) => Begin(if a.call.Shut? then a.(shut := a.shut + {a.call.fd}) else a, next)
    case _ => a
  }

  /** The account of command i after these steps. */
  function AccountOf(steps: seq<Step>, i: nat): Account {
    if steps == [] then NoCalls
    else
      var before := AccountOf(steps[..|steps| - 1], i);
      var step := steps[|steps| - 1];
      if Mover(step) == i then Note(before, step) else before
  }

  // ----- The account is right -----

  ghost predicate CallBooked(c: Config, k: Kid, i: nat, a: Account)
    requires c.Valid() && i < c.n
  {
    match k
    case Unborn => a == NoCalls
    case Setup(_, _) => a == NoCalls
    case Running(fds, op, _) =>
      && fds == Wired(c, i) - a.shut && op.Write? == a.call.Write? && a.settled <= |a.issued|
      && (if op.Write? then op.data == a.issued[a.settled..] else op == a.call && a.settled == |a.issued|)
      && (op.Write? ==> |op.data| <= |a.call.data| && (a.call.atomic ==> op == a.call))
    case _ => a.broke || a.settled == |a.issued|
  }

  /** Command i stands as its account says. */
  ghost predicate Booked(c: Config, s: State, i: nat, a: Account)
    requires c.Valid() && Shaped(c, s) && i < c.n
  {
    && a.settled <= |a.issued| && s.out[i] <= a.issued
    && (STDOUT !in a.shut ==> s.out[i] == a.issued[..a.settled])
    && |s.inp[i]| == a.got && s.eof[i] == a.sawEof
    && (i == c.n - 1 ==> !a.broke)
    && CallBooked(c, s.kids[i], i, a)
  }

  lemma SettleMore(issued: seq<Byte>, settled: nat, count: nat)
    requires settled + count <= |issued|
    ensures issued[..settled] + issued[settled..][..count] == issued[..settled + count]
    ensures issued[settled..][count..] == issued[settled + count..]
  {
  }

  lemma BeginBooked(issued: seq<Byte>, data: seq<Byte>)
    ensures (issued + data)[..|issued|] == issued && (issued + data)[|issued|..] == data && issued <= issued + data
  {
  }

  /** A running command whose standard output is open writes to its pipe or to the socket. */
  lemma StdoutIsWired(c: Config, s: State, i: nat, a: Account)
    requires c.Valid() && Shaped(c, s) && i < c.n && Booked(c, s, i, a)
    requires s.kids[i].Running? && s.kids[i].op.Write?
    ensures OnPipe(s, i, STDOUT) || OnSocket(s, i) <==> STDOUT !in a.shut
  {
    assert Wired(c, i)[STDOUT] == if i < c.n - 1 then WriteEnd(i) else Socket;
  }

  lemma PipeWriteBooked(c: Config, l: Limits, s: State, i: nat, count: nat, next: Op, a: Account)
    requires c.Valid() && Shaped(c, s) && i < c.n && Booked(c, s, i, a)
    requires Enabled(c, l, s, WritePipe(i, count, next))
    ensures Booked(c, After(c, l, s, WritePipe(i, count, next)), i, Note(a, WritePipe(i, count, next)))
  {
    StdoutIsWired(c, s, i, a);
    SettleMore(a.issued, a.settled, count);
    BeginBooked(a.issued, DataOf(next));
  }

  lemma SocketWriteBooked(c: Config, l: Limits, s: State, i: nat, next: Op, a: Account)
    requires c.Valid() && Shaped(c, s) && i < c.n && Booked(c, s, i, a)
    requires Enabled(c, l, s, WriteSocket(i, next))
    ensures Booked(c, After(c, l, s, WriteSocket(i, next)), i, Note(a, WriteSocket(i, next)))
  {
    StdoutIsWired(c, s, i, a);
    assert a.issued[..a.settled] + a.issued[a.settled..] == a.issued;
    BeginBooked(a.issued, DataOf(next));
  }

  lemma OtherWriteBooked(c: Config, l: Limits, s: State, i: nat, next: Op, a: Account)
    requires c.Valid() && Shaped(c, s) && i < c.n && Booked(c, s, i, a)
    requires Enabled(c, l, s, WriteOther(i, next))
    ensures Booked(c, After(c, l, s, WriteOther(i, next)), i, Note(a, WriteOther(i, next)))
  {
    StdoutIsWired(c, s, i, a);
    BeginBooked(a.issued, DataOf(next));
  }

  lemma WriteBooked(c: Config, l: Limits, s: State, step: Step, i: nat, a: Account)
    requires c.Valid() && Shaped(c, s) && i < c.n && Booked(c, s, i, a) && Enabled(c, l, s, step)
    requires (step.WritePipe? || step.WriteSocket? || step.WriteOther?) && step.i == i
    ensures Booked(c, After(c, l, s, step), i, Note(a, step))
  {
    if step.WritePipe? {
      PipeWriteBooked(c, l, s, i, step.count, step.next, a);
    } else if step.WriteSocket? {
      SocketWriteBooked(c, l, s, i, step.next, a);
    } else {
      OtherWriteBooked(c, l, s, i, step.next, a);
    }
  }

  lemma CallsBooked(c: Config, l: Limits, s: State, step: Step, i: nat, a: Account)
    requires c.Valid() && Shaped(c, s) && i < c.n && Booked(c, s, i, a) && Enabled(c, l, s, step)
    requires (step.ReadPipe? || step.ReadEof? || step.ReadOther? || step.ShutFd?) && step.i == i
    ensures Booked(c, After(c, l, s, step), i, Note(a, step))
  {
    BeginBooked(a.issued, DataOf(step.next));
  }

  lemma LifeBooked(c: Config, l: Limits, s: State, step: Step, i: nat, a: Account)
    requires c.Valid() && Shaped(c, s) && KidsOk(c, l, s) && i < c.n && Booked(c, s, i, a) && Enabled(c, l, s, step)
    requires step.SetupCall? || step.Exec? || step.ExecFails? || step.WriteBroken? || step.ExitCall?
    requires step.i == i
    ensures Booked(c, After(c, l, s, step), i, Note(a, step))
  {
    assert KidOk(c, l, i, s.kids[i]);
    if step.WriteBroken? {
      OnlyNeighbours(c, l, s, i);
    }
  }

  /** A step of somebody else leaves the command as it is, or forks or collects it. */
  ghost predicate LeftAlone(s: State, s': State, i: nat)
    requires i < |s.kids| == |s'.kids| == |s.out| == |s'.out| == |s.inp| == |s'.inp| == |s.eof| == |s'.eof|
  {
    && s'.out[i] == s.out[i] && s'.inp[i] == s.inp[i] && s'.eof[i] == s.eof[i]
    && match s.kids[i]
       case Unborn => s'.kids[i].Unborn? || s'.kids[i].Setup?
       case Zombie => s'.kids[i].Zombie? || s'.kids[i].Reaped?
       case _ => s'.kids[i] == s.kids[i]
  }

  lemma CallerLeavesAlone(c: Config, l: Limits, s: State, step: Step, i: nat)
    requires Shaped(c, s) && ParentOk(c, s) && i < c.n && Enabled(c, l, s, step) && Mover(step) < 0
    ensures Shaped(c, After(c, l, s, step)) && LeftAlone(s, After(c, l, s, step), i)
  {
  }

  lemma HistoriesLeft(c: Config, l: Limits, s: State, step: Step, i: nat)
    requires Shaped(c, s) && i < c.n && Enabled(c, l, s, step) && 0 <= Mover(step) != i
    ensures var s' := After(c, l, s, step);
            && |s'.out| == |s'.inp| == |s'.eof| == c.n
            && s'.out[i] == s.out[i] && s'.inp[i] == s.inp[i] && s'.eof[i] == s.eof[i]
  {
  }

  lemma ChildLeavesAlone(c: Config, l: Limits, s: State, step: Step, i: nat)
    requires Shaped(c, s) && i < c.n && Enabled(c, l, s, step) && 0 <= Mover(step) != i
    ensures Shaped(c, After(c, l, s, step)) && LeftAlone(s, After(c, l, s, step), i)
  {
    StepShape(c, l, s, step);
    MoverOnly(c, l, s, step);
    HistoriesLeft(c, l, s, step, i);
  }

  lemma AloneBooked(c: Config, s: State, s': State, i: nat, a: Account)
    requires c.Valid() && Shaped(c, s) && Shaped(c, s') && i < c.n && Booked(c, s, i, a) && LeftAlone(s, s', i)
    ensures Booked(c, s', i, a)
  {
  }

  lemma OthersBooked(c: Config, l: Limits, s: State, step: Step, i: nat, a: Account)
    requires c.Valid() && Shaped(c, s) && ParentOk(c, s) && i < c.n && Booked(c, s, i, a) && Enabled(c, l, s, step)
    requires Mover(step) != i
    ensures Shaped(c, After(c, l, s, step)) && Booked(c, After(c, l, s, step), i, a)
  {
    if Mover(step) < 0 {
      CallerLeavesAlone(c, l, s, step, i);
    } else {
      ChildLeavesAlone(c, l, s, step, i);
    }
    AloneBooked(c, s, After(c, l, s, step), i, a);
  }

  lemma StepBooked(c: Config, l: Limits, s: State, step: Step, i: nat, a: Account)
    requires Inv(c, l, s) && Enabled(c, l, s, step) && i < c.n && Booked(c, s, i, a)
    ensures Shaped(c, After(c, l, s, step))
    ensures Booked(c, After(c, l, s, step), i, if Mover(step) == i then Note(a, step) else a)
  {
    StepShape(c, l, s, step);
    if Mover(step) != i {
      OthersBooked(c, l, s, step, i, a);
    } else if step.WritePipe? || step.WriteSocket? || step.WriteOther? {
      WriteBooked(c, l, s, step, i, a);
    } else if step.ReadPipe? || step.ReadEof? || step.ReadOther? || step.ShutFd? {
      CallsBooked(c, l, s, step, i, a);
    } else {
      LifeBooked(c, l, s, step, i, a);
    }
  }

  ghost predicate TraceBooked(c: Config, l: Limits, run: seq<State>, steps: seq<Step>, k: nat, i: nat) {
    && k < |run| && k <= |steps| && i < c.n && Inv(c, l, run[k])
    && Booked(c, run[k], i, AccountOf(steps[..k], i))
  }

  lemma BookedNext(c: Config, l: Limits, run: seq<State>, steps: seq<Step>, k: nat, i: nat)
    requires TraceBooked(c, l, run, steps, k, i) && k < |steps| && k + 1 < |run|
    requires StepsTo(c, l, run[k], steps[k], run[k + 1]) && Inv(c, l, run[k + 1])
    ensures TraceBooked(c, l, run, steps, k + 1, i)
  {
    StepBooked(c, l, run[k], steps[k], i, AccountOf(steps[..k], i));
    assert steps[..k + 1][..k] == steps[..k] && steps[..k + 1][k] == steps[k];
  }

  /** At every moment of every run, every command stands as the account kept of its steps says. */
  lemma {:induction false} AccountsAreRight(c: Config, l: Limits, run: seq<State>, steps: seq<Step>, k: nat, i: nat)
    requires c.Valid() && l.Valid() && IsTrace(c, l, run, steps) && k < |run| && i < c.n
    ensures TraceBooked(c, l, run, steps, k, i)
  {
    TraceIsRun(c, l, run, steps);
    RunInv(c, l, run, k);
    if k > 0 {
      AccountsAreRight(c, l, run, steps, k - 1, i);
      assert StepsTo(c, l, run[k - 1], steps[k - 1], run[k]);
      BookedNext(c, l, run, steps, k - 1, i);
    }
  }

  // ----- What follows for output, input and descriptors -----

  /** The part of a write in progress that is still to go. */
  function Unwritten(k: Kid): seq<Byte> {
    if k.Running? then DataOf(k.op) else []
  }

  lemma BookedOutput(c: Config, s: State, i: nat, a: Account)
    requires c.Valid() && Shaped(c, s) && i < c.n && Booked(c, s, i, a)
    ensures STDOUT !in a.shut && !a.broke ==> s.out[i] + Unwritten(s.kids[i]) == a.issued
  {
    assert a.issued[..a.settled] + a.issued[a.settled..] == a.issued;
    assert a.issued + [] == a.issued;
  }

  /** While a command has not closed its standard output, what has gone out followed by the rest of
      its write in progress is the data of all the writes it has begun, in order, unless a broken pipe
      ended it; and nothing else ever goes out. */
  lemma OutputIsAsked(c: Config, l: Limits, run: seq<State>, steps: seq<Step>, k: nat, i: nat)
    requires c.Valid() && l.Valid() && IsTrace(c, l, run, steps) && k < |run| && i < c.n
    ensures var s, a := run[k], AccountOf(steps[..k], i);
            && Shaped(c, s) && s.out[i] <= a.issued
            && (STDOUT !in a.shut && !a.broke ==> s.out[i] + Unwritten(s.kids[i]) == a.issued)
  {
    AccountsAreRight(c, l, run, steps, k, i);
    BookedOutput(c, run[k], i, AccountOf(steps[..k], i));
  }

  /** The client receives exactly what the last command writes: at any moment all but the rest of the
      write in progress, and once that command has ended, all of it. */
  lemma ClientReceives(c: Config, l: Limits, run: seq<State>, steps: seq<Step>, k: nat)
    requires c.Valid() && l.Valid() && IsTrace(c, l, run, steps) && k < |run|
    ensures var s, a := run[k], AccountOf(steps[..k], c.n - 1);
            && Shaped(c, s) && s.sock <= a.issued
            && (STDOUT !in a.shut ==> s.sock + Unwritten(s.kids[c.n - 1]) == a.issued)
            && (STDOUT !in a.shut && !s.kids[c.n - 1].Running? ==> s.sock == a.issued)
  {
    OutputIsAsked(c, l, run, steps, k, c.n - 1);
    AccountsAreRight(c, l, run, steps, k, c.n - 1);
    assert run[k].sock + [] == run[k].sock;
  }

  lemma TakenFrom(inp: seq<Byte>, buf: seq<Byte>, out: seq<Byte>, issued: seq<Byte>)
    requires inp + buf == out && out <= issued
    ensures inp == issued[..|inp|]
  {
  }

  /** A command's reads deliver, byte for byte, the beginning of what the command before it writes, as
      many bytes as they returned in all; and it has seen end of file exactly when a read said so. */
  lemma InputIsAsked(c: Config, l: Limits, run: seq<State>, steps: seq<Step>, k: nat, i: nat)
    requires c.Valid() && l.Valid() && IsTrace(c, l, run, steps) && k < |run| && 0 < i < c.n
    ensures var s, a, b := run[k], AccountOf(steps[..k], i), AccountOf(steps[..k], i - 1);
            && Shaped(c, s) && a.got <= |b.issued| && s.inp[i] == b.issued[..a.got]
            && s.eof[i] == a.sawEof
  {
    AccountsAreRight(c, l, run, steps, k, i);
    AccountsAreRight(c, l, run, steps, k, i - 1);
    TakenFrom(run[k].inp[i], run[k].bufs[i - 1], run[k].out[i - 1], AccountOf(steps[..k], i - 1).issued);
  }

  lemma RunnerHolds(c: Config, s: State, i: nat, a: Account)
    requires c.Valid() && Shaped(c, s) && i < c.n - 1 && Booked(c, s, i, a)
    ensures STDOUT !in a.shut && s.kids[i].Running? ==> Open(s, WriteEnd(i))
  {
    if STDOUT !in a.shut && s.kids[i].Running? {
      assert Wired(c, i)[STDOUT] == WriteEnd(i);
      assert KidFds(s.kids[i])[STDOUT] == WriteEnd(i);
      assert KidHolds(s, i, WriteEnd(i));
    }
  }

  /** Nobody is running, with its output open, in front of a reader that has seen end of file. */
  lemma WriterGone(c: Config, l: Limits, s: State, i: nat, a: Account)
    requires Inv(c, l, s) && i < c.n - 1 && s.eof[i + 1] && Booked(c, s, i, a)
    ensures STDOUT !in a.shut && !a.broke ==> s.out[i] == a.issued
  {
    RunnerHolds(c, s, i, a);
  }

  /** A command that has seen end of file has read all that the command before it has written, and,
      unless that one had closed its output or died on a broken pipe, all that it asked to write. */
  lemma EofHasAll(c: Config, l: Limits, run: seq<State>, steps: seq<Step>, k: nat, i: nat)
    requires c.Valid() && l.Valid() && IsTrace(c, l, run, steps) && k < |run| && 0 < i < c.n
    requires AccountOf(steps[..k], i).sawEof
    ensures var s, b := run[k], AccountOf(steps[..k], i - 1);
            && Shaped(c, s) && s.inp[i] == s.out[i - 1]
            && (STDOUT !in b.shut && !b.broke ==> s.inp[i] == b.issued)
  {
    AccountsAreRight(c, l, run, steps, k, i);
    AccountsAreRight(c, l, run, steps, k, i - 1);
    EofReadsAll(c, l, run[k], i);
    WriterGone(c, l, run[k], i - 1, AccountOf(steps[..k], i - 1));
  }

  lemma AtomicBooked(c: Config, s: State, i: nat, a: Account)
    requires c.Valid() && Shaped(c, s) && i < c.n && Booked(c, s, i, a) && a.call.Write? && a.call.atomic
    ensures STDOUT !in a.shut && s.kids[i].Running? ==> s.out[i] + a.call.data == a.issued
  {
    assert a.issued[..a.settled] + a.issued[a.settled..] == a.issued;
    if s.kids[i].Running? {
      assert s.kids[i].op == a.call;
    }
  }

  /** A write that must be atomic goes out whole: before it has, nothing of it has. */
  lemma AtomicGoesWhole(c: Config, l: Limits, run: seq<State>, steps: seq<Step>, k: nat, i: nat)
    requires c.Valid() && l.Valid() && IsTrace(c, l, run, steps) && k < |run| && i < c.n
    requires AccountOf(steps[..k], i).call.Write? && AccountOf(steps[..k], i).call.atomic
    ensures var s, a := run[k], AccountOf(steps[..k], i);
            && Shaped(c, s)
            && (STDOUT !in a.shut && s.kids[i].Running? ==> s.out[i] + a.call.data == a.issued)
  {
    AccountsAreRight(c, l, run, steps, k, i);
    AtomicBooked(c, run[k], i, AccountOf(steps[..k], i));
  }

  /** A step suits the call it completes: it is of the same kind, and transfers no more than the call
      asked for. */
  predicate Suits(step: Step, call: Op) {
    match step
    case ReadPipe(_, count, _) => call.Read? && count <= call.max
    case ReadEof(_, _) => call.Read?
    case ReadOther(_, _) => call.Read?
    case WritePipe(_, count, _) => call.Write? && count <= |call.data| && (call.atomic ==> count == |call.data|)
    case WriteBroken(_) => call.Write?
    case WriteSocket(_, _) => call.Write?
    case WriteOther(_, _) => call.Write?
    case ShutFd(_, _) => call.Shut?
    case ExitCall(_) => call.Exit?
    case _ => true
  }

  lemma BookedSuits(c: Config, l: Limits, s: State, step: Step, i: nat, a: Account)
    requires c.Valid() && Shaped(c, s) && i < c.n && Booked(c, s, i, a) && Enabled(c, l, s, step) && Mover(step) == i
    ensures Suits(step, a.call)
  {
  }

  /** Whatever a command's step does, the call it has in progress asked for it. */
  lemma StepsSuitCalls(c: Config, l: Limits, run: seq<State>, steps: seq<Step>, k: nat, i: nat)
    requires c.Valid() && l.Valid() && IsTrace(c, l, run, steps) && k < |steps| && i < c.n && Mover(steps[k]) == i
    ensures Suits(steps[k], AccountOf(steps[..k], i).call)
  {
    AccountsAreRight(c, l, run, steps, k, i);
    assert StepsTo(c, l, run[k], steps[k], run[k + 1]);
    BookedSuits(c, l, run[k], steps[k], i, AccountOf(steps[..k], i));
  }

  /** A running command holds what it was wired with, less what it has closed. */
  lemma HoldsWhatItKept(c: Config, l: Limits, run: seq<State>, steps: seq<Step>, k: nat, i: nat)
    requires c.Valid() && l.Valid() && IsTrace(c, l, run, steps) && k < |run| && i < c.n
    ensures Shaped(c, run[k])
    ensures run[k].kids[i].Running? ==> run[k].kids[i].fds == Wired(c, i) - AccountOf(steps[..k], i).shut
  {
    AccountsAreRight(c, l, run, steps, k, i);
  }

  // ----- The last call -----

  predicate Ends(step: Step, i: nat) {
    (step.ExitCall? || step.WriteBroken? || step.ExecFails?) && step.i == i
  }

  ghost predicate Gone(s: State, i: nat) {
    i < |s.kids| && (s.kids[i].Zombie? || s.kids[i].Reaped?)
  }

  lemma StaysGone(c: Config, l: Limits, s: State, step: Step, i: nat)
    requires Inv(c, l, s) && Enabled(c, l, s, step) && i < c.n && Gone(s, i)
    ensures Mover(step) != i && Gone(After(c, l, s, step), i)
  {
    if Mover(step) >= 0 {
      MoverOnly(c, l, s, step);
    }
  }

  ghost predicate GoneKept(run: seq<State>, steps: seq<Step>, i: nat) {
    forall j, k :: 0 <= j < k < |run| && k == j + 1 && j < |steps| ==>
      && (Gone(run[j], i) ==> Mover(steps[j]) != i && Gone(run[k], i))
      && (Ends(steps[j], i) ==> Gone(run[k], i))
  }

  lemma GoneOnTrace(c: Config, l: Limits, run: seq<State>, steps: seq<Step>, k: nat, i: nat)
    requires c.Valid() && l.Valid() && IsTrace(c, l, run, steps) && k < |steps| && i < c.n
    ensures Gone(run[k], i) ==> Mover(steps[k]) != i && Gone(run[k + 1], i)
    ensures Ends(steps[k], i) ==> Gone(run[k + 1], i)
  {
    TraceIsRun(c, l, run, steps);
    RunInv(c, l, run, k);
    assert StepsTo(c, l, run[k], steps[k], run[k + 1]);
    if Gone(run[k], i) {
      StaysGone(c, l, run[k], steps[k], i);
    }
  }

  lemma TraceKeepsGone(c: Config, l: Limits, run: seq<State>, steps: seq<Step>, i: nat)
    requires c.Valid() && l.Valid() && IsTrace(c, l, run, steps) && i < c.n
    ensures GoneKept(run, steps, i)
  {
    forall j, k | 0 <= j < k < |run| && k == j + 1 && j < |steps|
      ensures Gone(run[j], i) ==> Mover(steps[j]) != i && Gone(run[k], i)
      ensures Ends(steps[j], i) ==> Gone(run[k], i)
    {
      GoneOnTrace(c, l, run, steps, j, i);
    }
  }

  lemma {:induction false} GoneFrom(run: seq<State>, steps: seq<Step>, j: nat, k: nat, i: nat)
    requires GoneKept(run, steps, i) && j < k < |run| == |steps| + 1 && Ends(steps[j], i)
    ensures Gone(run[k], i)
  {
    if j < k - 1 {
      GoneFrom(run, steps, j, k - 1, i);
    }
    assert Gone(run[k - 1], i) || j == k - 1;
  }

  /** After a command has exited, failed to start or died on a broken pipe, it makes no call. */
  lemma LastCall(c: Config, l: Limits, run: seq<State>, steps: seq<Step>, j: nat, k: nat, i: nat)
    requires c.Valid() && l.Valid() && IsTrace(c, l, run, steps) && j < k < |steps| && i < c.n
    requires Ends(steps[j], i)
    ensures Mover(steps[k]) != i
  {
    TraceKeepsGone(c, l, run, steps, i);
    GoneFrom(run, steps, j, k, i);
    GoneOnTrace(c, l, run, steps, k, i);
  }
}
