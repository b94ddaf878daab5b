/** `mygetchar` and `myreadline`: one static buffer shared by all descriptors, with an artificial
    end of file after every read() block. */
module LineReader {
  import opened Bytes

  const IO_GETCHAR_BUFSIZE := 1024
  const EOF: int := -1

  /** The byte that, kept in a signed char, compares equal to EOF. */
  const EOF_BYTE: Byte := 255

  type Block = seq<Byte>

  /** What the successive read() calls on each descriptor will return. */
  type World = map<int, seq<Block>>

  predicate IsBlock(b: Block) { |b| <= IO_GETCHAR_BUFSIZE }

  ghost predicate WellFormed(w: World) {
    forall fd, k :: fd in w && 0 <= k < |w[fd]| ==> IsBlock(w[fd][k])
  }

  /** The index of the first byte that reads as EOF, or the length. */
  function FirstEof(b: Block): (k: nat)
    ensures k <= |b|
    ensures k < |b| ==> b[k] == EOF_BYTE
    ensures forall i :: 0 <= i < k ==> b[i] != EOF_BYTE
  {
    if b == [] || b[0] == EOF_BYTE then 0 else 1 + FirstEof(b[1..])
  }

  lemma FirstEofIs(b: Block, k: nat)
    requires k <= |b| && (forall i :: 0 <= i < k ==> b[i] != EOF_BYTE) && (k < |b| ==> b[k] == EOF_BYTE)
    ensures FirstEof(b) == k
  {
  }

  class Reader {
    var buf: array<Byte>
    var bufp: nat
    var n: nat
    /** What read() has still to deliver; false `alive` after the _exit(1) at end of input. */
    var world: World
    var alive: bool

    /** The bytes of the current block that have not been returned; its EOF comes after them. */
    ghost var pending: Block

    ghost predicate Valid()
      reads this, buf
    {
      && buf.Length == IO_GETCHAR_BUFSIZE && WellFormed(world)
      && (n > 0 ==> bufp + n - 1 <= buf.Length)
      && pending == if n == 0 then [] else buf[bufp..bufp + n - 1]
    }

    constructor (w: World)
      requires WellFormed(w)
      ensures Valid() && n == 0 && world == w && alive && fresh(buf)
    {
      buf := new Byte[IO_GETCHAR_BUFSIZE];
      bufp, n, pending := 0, 0, [];
      world, alive := w, true;
    }

    predicate Readable(fd: int)
      reads this
    {
      fd in world && |world[fd]| > 0
    }

    /** The first block still to come on fd. */
    function Head(fd: int): Block
      requires Readable(fd)
      reads this
    {
      world[fd][0]
    }

    method MyGetChar(fd: int) returns (c: int)
      requires Valid() && alive && (n == 0 ==> Readable(fd))
      modifies this, buf
      ensures Valid() && buf == old(buf)
      ensures alive == (old(n) > 0 || |old(Head(fd))| > 0)
      ensures world == if old(n) > 0 then old(world) else old(world)[fd := old(world)[fd][1..]]
      ensures alive ==>
                var p := if old(n) > 0 then old(pending) else old(Head(fd));
                if p == [] then c == EOF && n == 0
                else c == p[0] && n > 0 && pending == p[1..]
    {
      if n == 0 {
        var block := world[fd][0];
        world := world[fd := world[fd][1..]];
        forall k | 0 <= k < |block| {
          buf[k] := block[k];
        }
        n := |block|;
        if n == 0 {
          alive := false;
          return EOF;
        }
        bufp := 0;
        assert buf[0..n] == block;
        n := n + 1;
      }
      n := n - 1;
      if n > 0 {
        c := buf[bufp];
        bufp := bufp + 1;
      } else {
        c := EOF;
      }
      pending := if n > 0 then buf[bufp..bufp + n - 1] else [];
    }

    /** `c` as the plain, signed, char that `myreadline` keeps it in and compares with EOF. */
    static function AsChar(c: int): int {
      if c >= 128 then c - 256 else c
    }

    /** The byte that storing that char writes. */
    static function StoredByte(c: int): Byte
      requires -128 <= c < 128
    {
      if c < 0 then c + 256 else c
    }

    /** `c` is what `mygetchar` returned at position k of a block, as a char: its byte, or the EOF
        that follows the block. */
    ghost predicate Returned(block: Block, k: nat, c: int)
      reads this, buf
    {
      && Valid() && alive && k <= |block|
      && if k < |block| then c == AsChar(block[k]) && n > 0 && pending == block[k + 1..]
         else c == EOF && n == 0
    }

    method NextChar(fd: int, ghost block: Block, ghost k: nat, ghost c: int) returns (c': int)
      requires Returned(block, k, c) && k < |block|
      modifies this, buf
      ensures Returned(block, k + 1, c') && buf == old(buf) && world == old(world)
    {
      var r := MyGetChar(fd);
      c' := AsChar(r);
    }

    /** The bytes the next call works on: those left in the buffer, whatever descriptor they came
        from, or else the next block of fd. */
    ghost function Current(fd: int): Block
      requires Valid() && (n == 0 ==> Readable(fd))
      reads this, buf
    {
      if n == 0 then Head(fd) else pending
    }

    /** The body of the loop of `myreadline`. */
    method StoreChar(fd: int, line: array<Byte>, k: nat, ghost block: Block, c: int) returns (c': int)
      requires Returned(block, k, c) && c != EOF && k < line.Length && line != buf
      modifies this, buf, line
      ensures Returned(block, k + 1, c') && buf == old(buf) && world == old(world)
      ensures line[k] == block[k] && block[k] != EOF_BYTE
      ensures forall i :: 0 <= i < line.Length && i != k ==> line[i] == old(line[i])
    {
      line[k] := StoredByte(c);
      c' := NextChar(fd, block, k, c);
    }

    method FirstChar(fd: int) returns (c: int)
      requires Valid() && alive && (n == 0 ==> Readable(fd))
      modifies this, buf
      ensures Valid() && alive == (old(n) > 0 || old(Head(fd)) != [])
      ensures alive ==> Returned(old(Current(fd)), 0, c)
      ensures buf == old(buf)
      ensures world == if old(n) > 0 then old(world) else old(world)[fd := old(world)[fd][1..]]
    {
      var r := MyGetChar(fd);
      c := AsChar(r);
    }

    /** The loop of `myreadline`: it stores the current bytes up to the first 0xFF byte. */
    method ReadChars(fd: int, line: array<Byte>, readMax: nat) returns (nTotal: nat)
      requires Valid() && alive && (n == 0 ==> Readable(fd)) && line.Length >= readMax && line != buf
      requires |Current(fd)| < readMax - 1
      modifies this, buf, line
      ensures Valid() && buf == old(buf) && alive == (old(n) > 0 || old(Head(fd)) != [])
      ensures world == if old(n) > 0 then old(world) else old(world)[fd := old(world)[fd][1..]]
      ensures alive ==> Returned(old(Current(fd)), nTotal, EOF) && nTotal == FirstEof(old(Current(fd)))
      ensures alive ==> forall i :: 0 <= i < nTotal ==> line[i] == old(Current(fd))[i]
    {
      ghost var block := Current(fd);
      var c := FirstChar(fd);
      if !alive { return 0; }
      ghost var w := world;
      nTotal := 0;
      while nTotal < readMax - 1 && c != EOF
        invariant Returned(block, nTotal, c) && buf == old(buf)
        invariant world == w
        invariant forall i :: 0 <= i < nTotal ==> line[i] == block[i] && block[i] != EOF_BYTE
        decreases |block| - nTotal
      {
        c := StoreChar(fd, line, nTotal, block, c);
        nTotal := nTotal + 1;
      }
      FirstEofIs(block, nTotal);
    }

    /** `myreadline`: the line is the current bytes up to the first 0xFF byte, with the last of them
        overwritten by the NUL; what comes after the 0xFF byte stays behind.  When there are none
        before it, the NUL goes to the cell before the line buffer: `outside`. */
    method MyReadLine(fd: int, line: array<Byte>, readMax: nat) returns (nTotal: nat, outside: bool)
      requires Valid() && alive && (n == 0 ==> Readable(fd)) && line.Length >= readMax && line != buf
      requires |Current(fd)| < readMax - 1
      modifies this, buf, line
      ensures Valid() && buf == old(buf) && alive == (old(n) > 0 || old(Head(fd)) != [])
      ensures world == if old(n) > 0 then old(world) else old(world)[fd := old(world)[fd][1..]]
      ensures outside <==> alive && (old(Current(fd)) == [] || old(Current(fd))[0] == EOF_BYTE)
      ensures alive ==> nTotal == FirstEof(old(Current(fd)))
      ensures alive && !outside ==> line[..nTotal] == old(Current(fd))[..nTotal - 1] + [0]
      ensures alive ==> (n == 0 <==> EOF_BYTE !in old(Current(fd)))
      ensures alive ==> pending == if nTotal < |old(Current(fd))| then old(Current(fd))[nTotal + 1..] else []
    {
      outside := false;
      nTotal := ReadChars(fd, line, readMax);
      if !alive { return; }
      if nTotal > 0 {
        line[nTotal - 1] := 0;
      } else {
        outside := true;
      }
    }
  }

  // ----- Any number of lines, from any mix of descriptors -----

  /** A line as `myreadline` leaves it: the block with its last byte replaced by NUL. */
  function Chomp(b: Block): Block
    requires b != []
  {
    b[..|b| - 1] + [0]
  }

  predicate Clean(b: Block) { 0 < |b| <= IO_GETCHAR_BUFSIZE && EOF_BYTE !in b }

  function Advance(w: World, fd: int): World
    requires fd in w && |w[fd]| > 0
  {
    w[fd := w[fd][1..]]
  }

  /** Each request finds a clean block on its descriptor. */
  predicate Serves(w: World, fds: seq<int>)
    decreases |fds|
  {
    fds == [] ||
    (fds[0] in w && |w[fds[0]]| > 0 && Clean(w[fds[0]][0]) && Serves(Advance(w, fds[0]), fds[1..]))
  }

  function Lines(w: World, fds: seq<int>): (ls: seq<Block>)
    requires Serves(w, fds)
    ensures |ls| == |fds|
    decreases |fds|
  {
    if fds == [] then [] else [Chomp(w[fds[0]][0])] + Lines(Advance(w, fds[0]), fds[1..])
  }

  /** The entries of `ls` whose request was on fd. */
  function On(fd: int, fds: seq<int>, ls: seq<Block>): seq<Block>
    requires |ls| == |fds|
  {
    if fds == [] then []
    else (if fds[0] == fd then [ls[0]] else []) + On(fd, fds[1..], ls[1..])
  }

  function Chomped(bs: seq<Block>): seq<Block>
    requires forall k :: 0 <= k < |bs| ==> bs[k] != []
  {
    if bs == [] then [] else [Chomp(bs[0])] + Chomped(bs[1..])
  }

  /** No byte crosses descriptors: however the requests are mixed, the lines obtained on fd are
      the first blocks of fd, in order. */
  lemma {:induction false} DescriptorsStayApart(w: World, fds: seq<int>, fd: int)
    requires Serves(w, fds) && fd in w
    ensures var m := |On(fd, fds, Lines(w, fds))|;
            && m <= |w[fd]| && (forall k :: 0 <= k < m ==> w[fd][k] != [])
            && On(fd, fds, Lines(w, fds)) == Chomped(w[fd][..m])
    decreases |fds|
  {
    if fds != [] {
      var w' := Advance(w, fds[0]);
      DescriptorsStayApart(w', fds[1..], fd);
      var ls := Lines(w, fds);
      assert ls[1..] == Lines(w', fds[1..]);
      if fds[0] == fd {
        var m := |On(fd, fds, ls)|;
        assert w'[fd][..m - 1] == w[fd][..m][1..];
        forall k | 0 <= k < m ensures w[fd][k] != [] {
          if k > 0 {
            assert w[fd][k] == w'[fd][k - 1];
          }
        }
      }
    }
  }

  lemma FirstEofClean(b: Block)
    requires EOF_BYTE !in b
    ensures FirstEof(b) == |b|
  {
  }

  /** One request of a session. */
  method ReadNext(r: Reader, fd: int, line: array<Byte>, readMax: nat, ghost rest: seq<int>) returns (l: Block)
    requires r.Valid() && r.alive && r.n == 0 && Serves(r.world, [fd] + rest)
    requires line.Length >= readMax > IO_GETCHAR_BUFSIZE + 1 && line != r.buf
    modifies r, r.buf, line
    ensures r.Valid() && r.alive && r.n == 0 && r.buf == old(r.buf)
    ensures Serves(r.world, rest)
    ensures Lines(old(r.world), [fd] + rest) == [l] + Lines(r.world, rest)
  {
    assert ([fd] + rest)[1..] == rest;
    ghost var block := r.Head(fd);
    FirstEofClean(block);
    var n, outside := r.MyReadLine(fd, line, readMax);
    assert line[..n] == Chomp(block);
    l := line[..n];
  }

  /** A session of line reads: the k-th call returns exactly the next block of its descriptor and
      leaves the static buffer empty. */
  method ReadLines(r: Reader, fds: seq<int>, line: array<Byte>, readMax: nat) returns (ls: seq<Block>)
    requires r.Valid() && r.alive && r.n == 0 && Serves(r.world, fds)
    requires line.Length >= readMax > IO_GETCHAR_BUFSIZE + 1 && line != r.buf
    modifies r, r.buf, line
    ensures r.Valid() && r.alive && r.n == 0
    ensures ls == Lines(old(r.world), fds)
  {
    ls := [];
    ghost var w := r.world;
    for i := 0 to |fds|
      invariant r.Valid() && r.alive && r.n == 0 && r.buf == old(r.buf)
      invariant Serves(r.world, fds[i..])
      invariant Lines(w, fds) == ls + Lines(r.world, fds[i..])
    {
      assert [fds[i]] + fds[i + 1..] == fds[i..];
      var l := ReadNext(r, fds[i], line, readMax, fds[i + 1..]);
      ls := ls + [l];
    }
  }

  // ----- When lines stay on their own descriptor -----

  /** What the static buffer holds between two lines: nothing, or the rest of a block of `fd`. */
  datatype Stock = Empty | Held(fd: int, bytes: Block)

  /** The bytes the next request works on, with the descriptor they came from. */
  function Source(w: World, st: Stock, fd: int): (src: Stock)
    requires st.Empty? ==> fd in w && |w[fd]| > 0
    ensures src.Held?
  {
    if st.Held? then st else Held(fd, w[fd][0])
  }

  function Rest(src: Stock): Stock
    requires src.Held?
  {
    var k := FirstEof(src.bytes);
    if k < |src.bytes| then Held(src.fd, src.bytes[k + 1..]) else Empty
  }

  function WorldAfter(w: World, st: Stock, fd: int): World
    requires st.Empty? ==> fd in w && |w[fd]| > 0
  {
    if st.Held? then w else Advance(w, fd)
  }

  /** Every request finds bytes, the first of them not 0xFF. */
  predicate Answers(w: World, st: Stock, fds: seq<int>)
    decreases |fds|
  {
    fds == [] ||
    var fd := fds[0];
    && (st.Empty? ==> fd in w && |w[fd]| > 0)
    && var src := Source(w, st, fd);
       FirstEof(src.bytes) > 0 && |src.bytes| <= IO_GETCHAR_BUFSIZE &&
       Answers(WorldAfter(w, st, fd), Rest(src), fds[1..])
  }

  /** The lines obtained, each with the descriptor its bytes came from. */
  function Obtained(w: World, st: Stock, fds: seq<int>): (r: seq<(int, Block)>)
    requires Answers(w, st, fds)
    ensures |r| == |fds|
    decreases |fds|
  {
    if fds == [] then []
    else
      var src := Source(w, st, fds[0]);
      [(src.fd, Chomp(src.bytes[..FirstEof(src.bytes)]))] + Obtained(WorldAfter(w, st, fds[0]), Rest(src), fds[1..])
  }

  ghost predicate OwnLines(w: World, st: Stock, fds: seq<int>)
    requires Answers(w, st, fds)
  {
    forall i :: 0 <= i < |fds| ==> Obtained(w, st, fds)[i].0 == fds[i]
  }

  /** A block in which a 0xFF byte leaves something behind is not followed by a request on another
      descriptor. */
  ghost predicate NoSwitch(w: World, st: Stock, fds: seq<int>)
    requires Answers(w, st, fds)
    decreases |fds|
  {
    |fds| > 1 ==>
      var src := Source(w, st, fds[0]);
      && (EOF_BYTE in src.bytes ==> fds[1] == fds[0])
      && NoSwitch(WorldAfter(w, st, fds[0]), Rest(src), fds[1..])
  }

  /** Every request finds the rest of a block, or a block to read; after one that writes outside its
      line nothing is asked. */
  predicate Supplied(w: World, st: Stock, fds: seq<int>)
    decreases |fds|
  {
    fds == [] ||
    var fd := fds[0];
    && (st.Empty? ==> fd in w && |w[fd]| > 0 && w[fd][0] != [])
    && var src := Source(w, st, fd);
       |src.bytes| <= IO_GETCHAR_BUFSIZE &&
       (FirstEof(src.bytes) > 0 ==> Supplied(WorldAfter(w, st, fd), Rest(src), fds[1..]))
  }

  lemma FirstEofFound(b: Block)
    ensures FirstEof(b) < |b| <==> EOF_BYTE in b
  {
  }

  /** A second request, on whatever descriptor, after a block that holds 0xFF stays inside its line
      if and only if that byte is neither the block's last nor followed by another. */
  lemma SecondInsideIff(w: World, fd: int, fd2: int)
    requires fd in w && |w[fd]| > 0 && |w[fd][0]| <= IO_GETCHAR_BUFSIZE
    requires EOF_BYTE in w[fd][0] && FirstEof(w[fd][0]) > 0
    ensures var b, k := w[fd][0], FirstEof(w[fd][0]);
            && Supplied(w, Empty, [fd, fd2])
            && (Answers(w, Empty, [fd, fd2]) <==> k < |b| - 1 && b[k + 1] != EOF_BYTE)
  {
    var b, k := w[fd][0], FirstEof(w[fd][0]);
    var w', left := WorldAfter(w, Empty, fd), Held(fd, b[k + 1..]);
    FirstEofFound(b);
    assert Rest(Source(w, Empty, fd)) == left && [fd, fd2][1..] == [fd2] && [fd2][1..] == [];
    assert Answers(w', left, [fd2]) <==> FirstEof(left.bytes) > 0;
    assert Supplied(w', left, [fd2]);
  }

  lemma OwnTail(w: World, st: Stock, fds: seq<int>)
    requires Answers(w, st, fds) && fds != []
    requires st.Held? ==> st.fd == fds[0]
    ensures OwnLines(w, st, fds) <==> OwnLines(WorldAfter(w, st, fds[0]), Rest(Source(w, st, fds[0])), fds[1..])
  {
    var all := Obtained(w, st, fds);
    var tail := Obtained(WorldAfter(w, st, fds[0]), Rest(Source(w, st, fds[0])), fds[1..]);
    assert all[0].0 == fds[0] && all[1..] == tail;
    assert forall i :: 1 <= i < |fds| ==> all[i] == tail[i - 1] && fds[i] == fds[1..][i - 1];
    assert forall i :: 0 <= i < |tail| ==> tail[i] == all[i + 1] && fds[1..][i] == fds[i + 1];
  }

  lemma {:induction false} OwnLinesFrom(w: World, st: Stock, fds: seq<int>)
    requires Answers(w, st, fds)
    requires st.Held? && fds != [] ==> st.fd == fds[0]
    ensures OwnLines(w, st, fds) <==> NoSwitch(w, st, fds)
    decreases |fds|
  {
    if fds != [] {
      var src := Source(w, st, fds[0]);
      var w', st', rest := WorldAfter(w, st, fds[0]), Rest(src), fds[1..];
      FirstEofFound(src.bytes);
      OwnTail(w, st, fds);
      if rest != [] {
        if st'.Held? && st'.fd != rest[0] {
          assert Obtained(w', st', rest)[0].0 == st'.fd;
        } else {
          OwnLinesFrom(w', st', rest);
        }
      }
    }
  }

  /** Starting from an empty buffer, every line comes from the descriptor it was asked of if and only
      if no block holding a 0xFF byte is followed by a request on another descriptor. */
  lemma LinesStayHomeIff(w: World, fds: seq<int>)
    requires Answers(w, Empty, fds)
    ensures OwnLines(w, Empty, fds) <==> NoSwitch(w, Empty, fds)
  {
    OwnLinesFrom(w, Empty, fds);
  }

  /** The reader holds what the stock says. */
  ghost predicate Stocks(r: Reader, st: Stock)
    reads r, r.buf
  {
    && r.Valid() && r.alive
    && if st.Held? then r.n > 0 && r.pending == st.bytes else r.n == 0
  }

  lemma ChompPrefix(b: Block, n: nat)
    requires 0 < n <= |b|
    ensures Chomp(b[..n]) == b[..n - 1] + [0]
  {
  }

  /** One request of a session. */
  method TakeLine(r: Reader, fd: int, line: array<Byte>, readMax: nat, ghost st: Stock)
    returns (l: Block, outside: bool)
    requires Stocks(r, st) && (st.Empty? ==> fd in r.world && |r.world[fd]| > 0 && r.world[fd][0] != [])
    requires line.Length >= readMax > IO_GETCHAR_BUFSIZE + 1 && line != r.buf
    modifies r, r.buf, line
    ensures var src := old(Source(r.world, st, fd));
            && Stocks(r, Rest(src)) && r.buf == old(r.buf) && r.world == WorldAfter(old(r.world), st, fd)
            && (outside <==> FirstEof(src.bytes) == 0)
            && (!outside ==> l == Chomp(src.bytes[..FirstEof(src.bytes)]))
  {
    ghost var src := Source(r.world, st, fd);
    FirstEofFound(src.bytes);
    var n;
    n, outside := r.MyReadLine(fd, line, readMax);
    l := line[..n];
    if !outside {
      ChompPrefix(src.bytes, n);
    }
  }

  lemma ObtainedFirst(w: World, st: Stock, fds: seq<int>)
    requires Answers(w, st, fds) && fds != []
    ensures var src := Source(w, st, fds[0]);
            && Obtained(w, st, fds)[0].1 == Chomp(src.bytes[..FirstEof(src.bytes)])
            && forall i :: 0 < i < |fds| ==>
                 Obtained(w, st, fds)[i] == Obtained(WorldAfter(w, st, fds[0]), Rest(src), fds[1..])[i - 1]
  {
  }

  /** Any session of line reads stays inside its line buffer if and only if every request finds
      bytes that do not begin with 0xFF, and then returns the lines that the functions above describe. */
  method ReadMixedLines(r: Reader, fds: seq<int>, line: array<Byte>, readMax: nat, ghost st: Stock)
    returns (ls: seq<Block>, outside: bool)
    requires Stocks(r, st) && Supplied(r.world, st, fds)
    requires line.Length >= readMax > IO_GETCHAR_BUFSIZE + 1 && line != r.buf
    modifies r, r.buf, line
    ensures outside <==> !Answers(old(r.world), st, fds)
    ensures !outside ==> |ls| == |fds| && forall i :: 0 <= i < |fds| ==> ls[i] == Obtained(old(r.world), st, fds)[i].1
    decreases |fds|
  {
    ls, outside := [], false;
    if fds == [] { return; }
    ghost var w := r.world;
    var l;
    l, outside := TakeLine(r, fds[0], line, readMax, st);
    if outside { return; }
    var rest;
    rest, outside := ReadMixedLines(r, fds[1..], line, readMax, Rest(Source(w, st, fds[0])));
    if outside { return; }
    ls := [l] + rest;
    ObtainedFirst(w, st, fds);
    assert forall i :: 0 < i < |fds| ==> ls[i] == rest[i - 1];
  }
}

