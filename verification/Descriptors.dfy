/** Descriptor tables and the POSIX calls that the pipeline code issues on them. */
module Descriptors {

  datatype Option<+T> = None | Some(value: T)

  /** What a descriptor refers to.  `Pipe` ends carry the index of their pipe in the pipeline array. */
  datatype End = Inherited(id: nat) | OpenFile | Socket | ReadEnd(pipe: nat) | WriteEnd(pipe: nat)

  /** Descriptors are C ints: -1 stands for one that was never assigned. */
  type Table = map<int, End>

  const STDIN: int := 0
  const STDOUT: int := 1

  /** `Close` is `myclose`, which ends the process on EBADF; `CloseQuiet` is a bare `close`. */
  datatype Syscall = Dup2(oldfd: int, newfd: int) | Close(fd: int) | CloseQuiet(fd: int)

  /** The table after one call, or None when the wrapper ends the process. */
  function Apply(t: Table, c: Syscall): Option<Table> {
    match c
    case Dup2(o, n) => if o in t then Some(t[n := t[o]]) else None
    case Close(fd) => if fd in t then Some(t - {fd}) else None
    case CloseQuiet(fd) => Some(t - {fd})
  }

  function ApplyAll(t: Table, cs: seq<Syscall>): Option<Table>
    decreases |cs|
  {
    if cs == [] then Some(t)
    else match Apply(t, cs[0])
      case None => None
      case Some(u) => ApplyAll(u, cs[1..])
  }

  ghost predicate Holds(t: Table, e: End) {
    exists fd :: fd in t && t[fd] == e
  }

  /** No call makes a table refer to something it did not refer to before. */
  lemma ApplyAddsNoEnd(t: Table, c: Syscall, e: End)
    requires Apply(t, c).Some? && Holds(Apply(t, c).value, e)
    ensures Holds(t, e)
  {
    var u := Apply(t, c).value;
    var fd :| fd in u && u[fd] == e;
    if c.Dup2? && fd == c.newfd {
      assert c.oldfd in t && t[c.oldfd] == e;
    } else {
      assert fd in t && t[fd] == e;
    }
  }

  lemma ApplyOne(t: Table, c: Syscall)
    ensures ApplyAll(t, [c]) == Apply(t, c)
  {
    assert [c][1..] == [];
  }

  lemma {:induction false} ApplyAllConcat(t: Table, cs: seq<Syscall>, ds: seq<Syscall>)
    ensures ApplyAll(t, cs + ds) ==
            match ApplyAll(t, cs) case None => None case Some(u) => ApplyAll(u, ds)
    decreases |cs|
  {
    if cs == [] {
      assert cs + ds == ds;
    } else {
      assert (cs + ds)[1..] == cs[1..] + ds;
      if Apply(t, cs[0]).Some? {
        ApplyAllConcat(Apply(t, cs[0]).value, cs[1..], ds);
      }
    }
  }
}
