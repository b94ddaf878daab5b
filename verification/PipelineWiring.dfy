/** The descriptor calls of src/pipeline.c and src/command_handler.c, and the tables they lead to. */
module PipelineWiring {
  import opened Descriptors

  /** One call of `run_pipeline`: `n` commands, the caller's table `base` with the client's socket
      at `sockfd`, and `fd`, the descriptors that the n calls of pipe() return (pipe j is
      fd[2j] for reading and fd[2j+1] for writing). */
  datatype Config = Config(n: nat, base: Table, sockfd: int, fd: seq<int>) {
    ghost predicate Valid() {
      && n > 0
      && |fd| == 2 * n
      && STDIN in base && STDOUT in base
      && sockfd in base && sockfd > 2
      && (forall k :: k in base ==> !base[k].ReadEnd? && !base[k].WriteEnd?)
      && (forall k :: k in base ==> (base[k].Socket? <==> k == sockfd))
      && (forall a :: 0 <= a < |fd| ==> fd[a] !in base)
      && (forall a, b :: 0 <= a < b < |fd| ==> fd[a] != fd[b])
    }
  }

  function EndAt(m: nat): End {
    if m % 2 == 0 then ReadEnd(m / 2) else WriteEnd(m / 2)
  }

  /** The caller's table once the first `m` pipe descriptors exist. */
  function Opened(c: Config, m: nat): (t: Table)
    requires m <= |c.fd|
    ensures m > 0 ==> c.fd[m - 1] in t
  {
    if m == 0 then c.base else Opened(c, m - 1)[c.fd[m - 1] := EndAt(m - 1)]
  }

  /** `close_pipes`, from the m-th descriptor on. */
  function Closes(c: Config, m: nat): seq<Syscall>
    requires m <= |c.fd|
    decreases |c.fd| - m
  {
    if m == |c.fd| then [] else [Close(c.fd[m])] + Closes(c, m + 1)
  }

  function FdsFrom(c: Config, m: nat): set<int>
    requires m <= |c.fd|
  {
    set a | m <= a < |c.fd| :: c.fd[a]
  }

  /** `do_dup2_command` for child i. */
  function DupCalls(c: Config, i: nat): seq<Syscall>
    requires i < c.n && |c.fd| == 2 * c.n
  {
    (if i != 0 then [Dup2(c.fd[2 * (i - 1)], STDIN)] else []) +
    [if i < c.n - 1 then Dup2(c.fd[2 * i + 1], STDOUT) else Dup2(c.sockfd, STDOUT)]
  }

  /** `dup2_and_close` for child i. */
  function ChildCalls(c: Config, i: nat): seq<Syscall>
    requires i < c.n && |c.fd| == 2 * c.n
  {
    DupCalls(c, i) + (Closes(c, 0) + [CloseQuiet(c.sockfd)])
  }

  /** What child i should hold when it reaches execve: the caller's descriptors without the
      socket, with only its two neighbouring pipe ends, or the socket on the last command's output. */
  function Wired(c: Config, i: nat): Table
    requires STDIN in c.base && i < c.n
  {
    (c.base - {c.sockfd})
      [STDIN := if i == 0 then c.base[STDIN] else ReadEnd(i - 1)]
      [STDOUT := if i < c.n - 1 then WriteEnd(i) else Socket]
  }

  lemma {:induction false} OpenedAt(c: Config, m: nat)
    requires c.Valid() && m <= |c.fd|
    ensures forall k :: k in c.base ==> k in Opened(c, m) && Opened(c, m)[k] == c.base[k]
    ensures forall a :: 0 <= a < m ==> c.fd[a] in Opened(c, m) && Opened(c, m)[c.fd[a]] == EndAt(a)
    ensures forall k :: k in Opened(c, m) ==> k in c.base || exists a :: 0 <= a < m && k == c.fd[a]
  {
    if m > 0 {
      OpenedAt(c, m - 1);
      forall k | k in Opened(c, m)
        ensures k in c.base || exists a :: 0 <= a < m && k == c.fd[a]
      {
        if k == c.fd[m - 1] {
        } else {
          assert k in Opened(c, m - 1);
        }
      }
    }
  }

  /** Closing every pipe descriptor succeeds on any table that holds them all, and removes just them. */
  lemma {:induction false} ClosesRemove(c: Config, t: Table, m: nat)
    requires c.Valid() && m <= |c.fd|
    requires forall a :: m <= a < |c.fd| ==> c.fd[a] in t
    ensures ApplyAll(t, Closes(c, m)) == Some(t - FdsFrom(c, m))
    decreases |c.fd| - m
  {
    if m == |c.fd| {
      assert t - FdsFrom(c, m) == t;
    } else {
      var u := t - {c.fd[m]};
      ClosesRemove(c, u, m + 1);
      assert FdsFrom(c, m) == {c.fd[m]} + FdsFrom(c, m + 1);
      assert u - FdsFrom(c, m + 1) == t - FdsFrom(c, m);
      assert Closes(c, m)[1..] == Closes(c, m + 1);
    }
  }

  /** `close_pipes` in the parent gives back exactly the table it had before `init_pipesfd`. */
  lemma ParentClosesToBase(c: Config)
    requires c.Valid()
    ensures ApplyAll(Opened(c, |c.fd|), Closes(c, 0)) == Some(c.base)
  {
    OpenedAt(c, |c.fd|);
    ClosesRemove(c, Opened(c, |c.fd|), 0);
    var t := Opened(c, |c.fd|) - FdsFrom(c, 0);
    assert forall k :: k in c.base ==> k !in FdsFrom(c, 0);
    assert forall k :: k in t <==> k in c.base;
    assert forall k :: k in t ==> t[k] == c.base[k];
    assert t == c.base;
  }

  lemma DupCallsWire(c: Config, i: nat)
    requires c.Valid() && i < c.n
    ensures ApplyAll(Opened(c, |c.fd|), DupCalls(c, i)) ==
            Some(Opened(c, |c.fd|)
              [STDIN := if i == 0 then c.base[STDIN] else ReadEnd(i - 1)]
              [STDOUT := if i < c.n - 1 then WriteEnd(i) else Socket])
  {
    var full := Opened(c, |c.fd|);
    OpenedAt(c, |c.fd|);
    var out := if i < c.n - 1 then Dup2(c.fd[2 * i + 1], STDOUT) else Dup2(c.sockfd, STDOUT);
    var t1 := if i == 0 then full else full[STDIN := ReadEnd(i - 1)];
    assert full[STDIN := c.base[STDIN]] == full;
    if i != 0 {
      assert EndAt(2 * (i - 1)) == ReadEnd(i - 1);
      assert DupCalls(c, i)[1..] == [out];
      assert Apply(full, DupCalls(c, i)[0]) == Some(t1);
    } else {
      assert DupCalls(c, i) == [out];
    }
    assert EndAt(2 * i + 1) == WriteEnd(i);
    ApplyOne(t1, out);
  }

  lemma TableAfterCloses(c: Config, i: nat, t: Table)
    requires c.Valid() && i < c.n
    requires t == Opened(c, |c.fd|)
              [STDIN := if i == 0 then c.base[STDIN] else ReadEnd(i - 1)]
              [STDOUT := if i < c.n - 1 then WriteEnd(i) else Socket] - FdsFrom(c, 0) - {c.sockfd}
    ensures t == Wired(c, i)
  {
    OpenedAt(c, |c.fd|);
    var w := Wired(c, i);
    assert forall k :: k in c.base ==> k !in FdsFrom(c, 0);
    assert forall k :: k in t <==> k in w;
    assert forall k :: k in t ==> t[k] == w[k];
  }

  /** `dup2_and_close` never fails and leaves child i wired to its two neighbours only. */
  lemma ChildCallsWire(c: Config, i: nat)
    requires c.Valid() && i < c.n
    ensures ApplyAll(Opened(c, |c.fd|), ChildCalls(c, i)) == Some(Wired(c, i))
  {
    var full := Opened(c, |c.fd|);
    OpenedAt(c, |c.fd|);
    DupCallsWire(c, i);
    var dup := ApplyAll(full, DupCalls(c, i)).value;
    ApplyAllConcat(full, DupCalls(c, i), Closes(c, 0) + [CloseQuiet(c.sockfd)]);
    ApplyAllConcat(dup, Closes(c, 0), [CloseQuiet(c.sockfd)]);
    ClosesRemove(c, dup, 0);
    var u := dup - FdsFrom(c, 0);
    ApplyOne(u, CloseQuiet(c.sockfd));
    TableAfterCloses(c, i, u - {c.sockfd});
  }

  /** The wiring is a chain: pipe j has child j as its only writer and child j+1 as its only
      reader, the last pipe has neither, and only the last child holds the socket. */
  lemma WiredIsChain(c: Config, i: nat, j: nat)
    requires c.Valid() && i < c.n && j < c.n
    ensures Holds(Wired(c, i), WriteEnd(j)) <==> i == j && j < c.n - 1
    ensures Holds(Wired(c, i), ReadEnd(j)) <==> i == j + 1
    ensures Holds(Wired(c, i), Socket) <==> i == c.n - 1
    ensures !Holds(c.base, WriteEnd(j)) && !Holds(c.base, ReadEnd(j))
  {
    var w := Wired(c, i);
    assert STDIN in w && STDOUT in w;
    assert w[STDOUT] == if i < c.n - 1 then WriteEnd(i) else Socket;
    assert w[STDIN] == if i == 0 then c.base[STDIN] else ReadEnd(i - 1);
  }
}

