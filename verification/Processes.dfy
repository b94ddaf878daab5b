/** One process and its descriptor table, updated in place by the wrappers of src/syscalls.c and
    the loops of src/pipeline.c and src/command_handler.c. */
module Processes {
  import opened Descriptors
  import opened PipelineWiring

  const READ_END := 0
  const WRITE_END := 1
  const FDLEN := 2

  ghost predicate IsLowestFree(t: Table, fd: int) {
    0 <= fd && fd !in t && forall k :: 0 <= k < fd ==> k in t
  }

  class Process {
    var fds: Table
    /** False once a failed wrapper has ended the process. */
    var alive: bool
    /** Children not yet collected. */
    var children: nat

    constructor Forked(t: Table)
      ensures fds == t && alive && children == 0
    {
      fds, alive, children := t, true, 0;
    }

    method MyDup2(oldfd: int, newfd: int)
      requires alive
      modifies this`fds, this`alive
      ensures alive == (oldfd in old(fds))
      ensures fds == if oldfd in old(fds) then old(fds)[newfd := old(fds)[oldfd]] else old(fds)
      ensures alive ==> Apply(old(fds), Dup2(oldfd, newfd)) == Some(fds)
    {
      if oldfd in fds {
        fds := fds[newfd := fds[oldfd]];
      } else {
        alive := false;
      }
    }

    method MyClose(fd: int)
      requires alive
      modifies this`fds, this`alive
      ensures alive == (fd in old(fds)) && fds == old(fds) - {fd}
      ensures alive ==> Apply(old(fds), Close(fd)) == Some(fds)
    {
      if fd in fds {
        fds := fds - {fd};
      } else {
        alive := false;
      }
    }

    /** The descriptor POSIX allocates next: the lowest one that is not open. */
    method LowestFree() returns (fd: int)
      ensures IsLowestFree(fds, fd)
    {
      fd := 0;
      ghost var above := fds.Keys;
      while fd in fds
        invariant 0 <= fd
        invariant forall k :: 0 <= k < fd ==> k in fds
        invariant forall k :: k in fds && k >= fd ==> k in above
        decreases above
      {
        above := above - {fd};
        fd := fd + 1;
      }
    }

    method MyPipe(j: nat) returns (r: int, w: int)
      requires alive
      modifies this`fds
      ensures IsLowestFree(old(fds), r) && IsLowestFree(old(fds)[r := ReadEnd(j)], w)
      ensures fds == old(fds)[r := ReadEnd(j)][w := WriteEnd(j)]
    {
      r := LowestFree();
      fds := fds[r := ReadEnd(j)];
      w := LowestFree();
      fds := fds[w := WriteEnd(j)];
    }
  }

  /** The `fd` members of a pipeline array, pipe by pipe, read end first. */
  function Flat(fd: array2<int>): (s: seq<int>)
    reads fd
    requires fd.Length1 == FDLEN
    ensures |s| == 2 * fd.Length0
    ensures forall m :: 0 <= m < |s| ==> s[m] == fd[m / 2, m % 2]
  {
    seq(2 * fd.Length0, m requires 0 <= m < 2 * fd.Length0 reads fd => fd[m / 2, m % 2])
  }

  ghost predicate Usable(t: Table, sockfd: int) {
    && STDIN in t && STDOUT in t && sockfd in t && sockfd > 2
    && (forall k :: k in t ==> !t[k].ReadEnd? && !t[k].WriteEnd?)
    && (forall k :: k in t ==> (t[k].Socket? <==> k == sockfd))
  }

  lemma {:induction false} OpenedPrefix(c: Config, d: Config, m: nat)
    requires m <= |c.fd| && c.fd <= d.fd && c.base == d.base
    ensures Opened(c, m) == Opened(d, m)
  {
    if m > 0 {
      OpenedPrefix(c, d, m - 1);
    }
  }

  lemma {:induction false} OpenedKeys(c: Config, m: nat)
    requires m <= |c.fd|
    ensures forall k :: k in c.base ==> k in Opened(c, m)
    ensures forall a :: 0 <= a < m ==> c.fd[a] in Opened(c, m)
  {
    if m > 0 {
      OpenedKeys(c, m - 1);
    }
  }

  /** pipe() never hands out the standard descriptors. */
  lemma PipeAboveStandard(c: Config, r: int, w: int)
    requires |c.fd| == 2 * c.n && Usable(c.base, c.sockfd)
    requires IsLowestFree(Opened(c, 2 * c.n), r)
    requires IsLowestFree(Opened(c, 2 * c.n)[r := ReadEnd(c.n)], w)
    ensures r > 1 && w > 1
  {
    OpenedKeys(c, 2 * c.n);
  }

  lemma StillDistinct(fd: seq<int>, r: int, w: int)
    requires forall a, b :: 0 <= a < b < |fd| ==> fd[a] != fd[b]
    requires r !in fd && w !in fd && r != w
    ensures forall a, b :: 0 <= a < b < |fd + [r, w]| ==> (fd + [r, w])[a] != (fd + [r, w])[b]
  {
  }

  lemma PipeFits(c: Config, d: Config, r: int, w: int)
    requires |c.fd| == 2 * c.n && d == Config(c.n + 1, c.base, c.sockfd, c.fd + [r, w])
    requires Usable(c.base, c.sockfd) && (c.n > 0 ==> c.Valid())
    requires IsLowestFree(Opened(c, 2 * c.n), r)
    requires IsLowestFree(Opened(c, 2 * c.n)[r := ReadEnd(c.n)], w)
    ensures d.Valid()
  {
    OpenedKeys(c, 2 * c.n);
    assert r !in c.base && w !in c.base;
    StillDistinct(c.fd, r, w);
  }

  lemma PipeOpens(c: Config, d: Config, r: int, w: int)
    requires |c.fd| == 2 * c.n && d == Config(c.n + 1, c.base, c.sockfd, c.fd + [r, w])
    ensures Opened(d, 2 * c.n + 2) == Opened(c, 2 * c.n)[r := ReadEnd(c.n)][w := WriteEnd(c.n)]
  {
    var m := 2 * c.n;
    OpenedPrefix(c, d, m);
    assert EndAt(m) == ReadEnd(c.n) && EndAt(m + 1) == WriteEnd(c.n);
    assert Opened(d, m + 1) == Opened(d, m)[r := EndAt(m)];
  }

  lemma PipeAdded(c: Config, d: Config, r: int, w: int)
    requires |c.fd| == 2 * c.n && d == Config(c.n + 1, c.base, c.sockfd, c.fd + [r, w])
    requires Usable(c.base, c.sockfd) && (c.n > 0 ==> c.Valid())
    requires IsLowestFree(Opened(c, 2 * c.n), r)
    requires IsLowestFree(Opened(c, 2 * c.n)[r := ReadEnd(c.n)], w)
    ensures d.Valid() && r > 1 && w > 1
    ensures Opened(d, 2 * c.n + 2) == Opened(c, 2 * c.n)[r := ReadEnd(c.n)][w := WriteEnd(c.n)]
  {
    PipeAboveStandard(c, r, w);
    PipeFits(c, d, r, w);
    PipeOpens(c, d, r, w);
  }

  /** The first i rows of the array hold the descriptors `got` of i pipes, and the table has them. */
  ghost predicate PipesMade(p: Process, fd: array2<int>, i: nat, base: Table, sockfd: int, got: seq<int>)
    reads p, fd
  {
    && i <= fd.Length0 && fd.Length1 == FDLEN && |got| == 2 * i
    && (forall m :: 0 <= m < 2 * i ==> got[m] == fd[m / 2, m % 2] && got[m] > 1)
    && (i > 0 ==> Config(i, base, sockfd, got).Valid())
    && p.fds == Opened(Config(i, base, sockfd, got), 2 * i)
  }

  /** Both ends of pipe i go to row i. */
  method StoreEnds(fd: array2<int>, i: nat, r: int, w: int, ghost got: seq<int>)
    requires i < fd.Length0 && fd.Length1 == FDLEN && |got| == 2 * i
    requires forall m :: 0 <= m < 2 * i ==> got[m] == fd[m / 2, m % 2]
    modifies fd
    ensures forall m :: 0 <= m < 2 * i + 2 ==> (got + [r, w])[m] == fd[m / 2, m % 2]
  {
    fd[i, READ_END] := r;
    fd[i, WRITE_END] := w;
  }

  /** One turn of the loop of `init_pipesfd`. */
  method StorePipe(p: Process, fd: array2<int>, i: nat, ghost base: Table, sockfd: int, ghost got: seq<int>)
    returns (ghost got': seq<int>)
    requires p.alive && PipesMade(p, fd, i, base, sockfd, got) && i < fd.Length0 && Usable(base, sockfd)
    modifies p`fds, fd
    ensures PipesMade(p, fd, i + 1, base, sockfd, got')
  {
    ghost var c := Config(i, base, sockfd, got);
    OpenedKeys(c, 2 * i);
    var r, w := p.MyPipe(i);
    StoreEnds(fd, i, r, w, got);
    got' := got + [r, w];
    PipeAdded(c, Config(i + 1, base, sockfd, got'), r, w);
  }

  /** `init_pipesfd`: whatever descriptors pipe() hands out, the array ends up holding 2n fresh,
      distinct ones, and the table gains exactly them. */
  method InitPipesFd(p: Process, fd: array2<int>, sockfd: int)
    requires p.alive && fd.Length0 > 0 && fd.Length1 == FDLEN && Usable(p.fds, sockfd)
    modifies p`fds, fd
    ensures Config(fd.Length0, old(p.fds), sockfd, Flat(fd)).Valid()
    ensures p.fds == Opened(Config(fd.Length0, old(p.fds), sockfd, Flat(fd)), 2 * fd.Length0)
    ensures forall m :: 0 <= m < 2 * fd.Length0 ==> Flat(fd)[m] > 1
  {
    var n := fd.Length0;
    ghost var base := p.fds;
    ghost var got: seq<int> := [];
    for i := 0 to n
      invariant PipesMade(p, fd, i, base, sockfd, got)
    {
      got := StorePipe(p, fd, i, base, sockfd, got);
    }
    assert Flat(fd) == got;
  }

  /** `close_pipes`: closes every descriptor of the array in order, or ends the process at the first
      one that is not open. */
  method ClosePipes(p: Process, fd: array2<int>, ghost c: Config)
    requires p.alive && fd.Length1 == FDLEN && c.fd == Flat(fd)
    modifies p`fds, p`alive
    ensures p.alive == ApplyAll(old(p.fds), Closes(c, 0)).Some?
    ensures p.alive ==> ApplyAll(old(p.fds), Closes(c, 0)) == Some(p.fds)
  {
    for j := 0 to fd.Length0
      invariant p.alive
      invariant ApplyAll(p.fds, Closes(c, 2 * j)) == ApplyAll(old(p.fds), Closes(c, 0))
    {
      assert Closes(c, 2 * j)[1..] == Closes(c, 2 * j + 1);
      assert c.fd[2 * j] == fd[j, READ_END];
      p.MyClose(fd[j, READ_END]);
      if !p.alive { return; }
      assert Closes(c, 2 * j + 1)[1..] == Closes(c, 2 * j + 2);
      assert c.fd[2 * j + 1] == fd[j, WRITE_END];
      p.MyClose(fd[j, WRITE_END]);
      if !p.alive { return; }
    }
  }

  /** `do_dup2_command`. */
  method DoDup2Command(p: Process, fd: array2<int>, sockfd: int, i: nat, ghost c: Config)
    requires p.alive && fd.Length1 == FDLEN && i < fd.Length0
    requires c.n == fd.Length0 && c.fd == Flat(fd) && c.sockfd == sockfd
    modifies p`fds, p`alive
    ensures p.alive == ApplyAll(old(p.fds), DupCalls(c, i)).Some?
    ensures p.alive ==> ApplyAll(old(p.fds), DupCalls(c, i)) == Some(p.fds)
  {
    ghost var calls := DupCalls(c, i);
    ghost var last := calls[|calls| - 1];
    if i != 0 {
      assert c.fd[2 * (i - 1)] == fd[i - 1, READ_END];
      assert calls[1..] == [last];
      p.MyDup2(fd[i - 1, READ_END], STDIN);
      if !p.alive { return; }
    } else {
      assert calls == [last];
    }
    assert ApplyAll(p.fds, [last]) == ApplyAll(old(p.fds), calls);
    ApplyOne(p.fds, last);
    if i < fd.Length0 - 1 {
      assert c.fd[2 * i + 1] == fd[i, WRITE_END];
      p.MyDup2(fd[i, WRITE_END], STDOUT);
    } else {
      p.MyDup2(sockfd, STDOUT);
    }
  }

  /** `dup2_and_close` in the forked child: it never fails, and leaves the child wired. */
  method Dup2AndClose(p: Process, fd: array2<int>, sockfd: int, i: nat, ghost c: Config)
    requires p.alive && fd.Length1 == FDLEN && i < fd.Length0
    requires c.Valid() && c.n == fd.Length0 && c.fd == Flat(fd) && c.sockfd == sockfd
    requires p.fds == Opened(c, |c.fd|)
    modifies p`fds, p`alive
    ensures p.alive && p.fds == Wired(c, i)
  {
    ghost var full := p.fds;
    ChildCallsWire(c, i);
    ApplyAllConcat(full, DupCalls(c, i), Closes(c, 0) + [CloseQuiet(sockfd)]);
    DoDup2Command(p, fd, sockfd, i, c);
    ApplyAllConcat(p.fds, Closes(c, 0), [CloseQuiet(sockfd)]);
    ClosePipes(p, fd, c);
    ApplyOne(p.fds, CloseQuiet(sockfd));
    p.fds := p.fds - {sockfd};
  }

  /** How many children the SIGCHLD handler is about to collect before the i-th wait. */
  function Grabs(reaps: seq<nat>, i: nat): nat {
    if i < |reaps| then reaps[i] else 0
  }

  /** The handler collects nothing before any of n waits. */
  predicate Idle(reaps: seq<nat>, n: nat) {
    forall i :: 0 <= i < n ==> Grabs(reaps, i) == 0
  }

  /** The n waits for n children.  When the SIGCHLD handler has collected some of them, one of the
      waits finds none and ends the process. */
  method WaitForAll(p: Process, n: nat, reaps: seq<nat>)
    requires p.alive && p.children == n
    modifies p`children, p`alive
    ensures p.alive <==> Idle(reaps, n)
    ensures p.children == 0
  {
    for i := 0 to n
      invariant p.alive && p.children <= n - i
      invariant p.children == n - i <==> Idle(reaps, i)
    {
      var byHandler := if Grabs(reaps, i) < p.children then Grabs(reaps, i) else p.children;
      p.children := p.children - byHandler;
      if p.children == 0 {
        p.alive := false;
        return;
      }
      p.children := p.children - 1;
    }
  }

  /** `run_pipeline` in the caller, each child taken to the point of execve.  The process survives if
      and only if the handler collects none of the children. */
  method RunPipeline(p: Process, fd: array2<int>, sockfd: int, reaps: seq<nat>) returns (kids: seq<Process>)
    requires p.alive && p.children == 0
    requires fd.Length0 > 0 && fd.Length1 == FDLEN && Usable(p.fds, sockfd)
    modifies p, fd
    ensures var c := Config(fd.Length0, old(p.fds), sockfd, Flat(fd));
            c.Valid() && |kids| == c.n &&
            forall i :: 0 <= i < c.n ==> kids[i].alive && kids[i].fds == Wired(c, i)
    ensures p.fds == old(p.fds) && p.children == 0
    ensures p.alive <==> Idle(reaps, fd.Length0)
  {
    var n := fd.Length0;
    InitPipesFd(p, fd, sockfd);
    ghost var c := Config(n, old(p.fds), sockfd, Flat(fd));
    kids := [];
    for i := 0 to n
      invariant p.alive && p.fds == Opened(c, |c.fd|) && c.fd == Flat(fd)
      invariant |kids| == i == p.children
      invariant forall k :: 0 <= k < i ==> fresh(kids[k]) && kids[k] != p
      invariant forall k :: 0 <= k < i ==> kids[k].alive && kids[k].fds == Wired(c, k)
    {
      var child := new Process.Forked(p.fds);
      p.children := p.children + 1;
      Dup2AndClose(child, fd, sockfd, i, c);
      kids := kids + [child];
    }
    ParentClosesToBase(c);
    ClosePipes(p, fd, c);
    WaitForAll(p, n, reaps);
  }
}

