/** The loops of src/networktcp.c, src/filetransfer.c and src/syscalls.c that move a file, over a
    socket whose reads and writes may be short and on which data arrives between any two calls. */
module TransferLoops {
  import opened Bytes
  import opened Files
  import opened Transfer

  lemma HandOver(had: seq<Byte>, queue: seq<Byte>, n: nat, rest: seq<Byte>)
    requires n <= |queue|
    ensures (had + queue[..n]) + (queue[n..] + rest) == had + (queue + rest)
  {
    assert queue == queue[..n] + queue[n..];
  }

  class Sock {
    /** Pieces sent by the peer that have not arrived, and the bytes that have. */
    var coming: seq<seq<Byte>>
    var queue: seq<Byte>
    /** The peer has closed its side. */
    var closed: bool
    /** O_NONBLOCK. */
    var nonblock: bool
    /** Bytes written to the socket. */
    var sent: seq<Byte>

    /** A connection on which the peer has `coming` in flight. */
    constructor (coming: seq<seq<Byte>>)
      ensures this.coming == coming && queue == [] && !closed && sent == []
    {
      this.coming, queue, closed, nonblock, sent := coming, [], false, false, [];
    }

    /** What is in flight are chunks that start where the queue ends, when the queue starts at
        position `pos` of the file. */
    ghost predicate InPieces(c: Config, pos: nat)
      reads this
    {
      Pieces(c, pos + |queue|, coming)
    }

    function Pending(): seq<Byte>
      reads this
    {
      queue + Flat(coming)
    }

    /** Anything from nothing to all that is in flight may arrive between two calls. */
    method Arrive(ghost c: Config, ghost pos: nat)
      requires InPieces(c, pos)
      modifies this`coming, this`queue
      ensures InPieces(c, pos) && Pending() == old(Pending())
      ensures |queue| >= |old(queue)| && |coming| <= |old(coming)|
    {
      var n: nat :| n <= |coming|;
      for i := 0 to n
        invariant |coming| == |old(coming)| - i
        invariant InPieces(c, pos) && Pending() == old(Pending())
        invariant |queue| >= |old(queue)|
      {
        assert queue + Flat(coming) == (queue + coming[0]) + Flat(coming[1..]);
        queue, coming := queue + coming[0], coming[1..];
      }
    }

    /** The bytes that a successful read() hands over. */
    method Take(buf: array<Byte>, off: nat, n: nat)
      requires n <= |queue| && off + n <= buf.Length
      modifies this`queue, buf
      ensures queue == old(queue)[n..] && buf[..off + n] == old(buf[..off]) + old(queue)[..n]
    {
      var q := queue;
      forall k | 0 <= k < n {
        buf[off + k] := q[k];
      }
      queue := q[n..];
    }

    /** read() on a non-blocking socket: -1 when it would block, 0 at end of file, which it reports
        as soon as the peer has closed and nothing is in flight or queued. */
    method Read(buf: array<Byte>, off: nat, count: nat, ghost c: Config, ghost pos: nat) returns (nread: int)
      requires 0 < count && off + count <= buf.Length && InPieces(c, pos)
      modifies this`coming, this`queue, buf
      ensures -1 <= nread <= count
      ensures nread <= 0 ==> Pending() == old(Pending()) && queue == [] && buf[..off] == old(buf[..off])
      ensures nread <= 0 ==> InPieces(c, pos)
      ensures |coming| <= |old(coming)|
      ensures nread == 0 ==> closed && coming == []
      ensures nread < 0 ==> !closed || coming != []
      ensures nread > 0 ==> buf[..off + nread] + Pending() == old(buf[..off] + Pending())
      ensures nread > 0 ==> InPieces(c, pos + nread)
      ensures old(queue) != [] ==> nread > 0
    {
      Arrive(c, pos);
      if queue == [] {
        return if coming == [] && closed then 0 else -1;
      }
      var n: nat :| 0 < n <= |queue| && n <= count;
      HandOver(buf[..off], queue, n, Flat(coming));
      Take(buf, off, n);
      return n;
    }

    /** `do_poll` returns once something can be read. */
    method DoPoll(ghost c: Config, ghost pos: nat)
      requires InPieces(c, pos) && Pending() != []
      modifies this`coming, this`queue
      ensures InPieces(c, pos) && Pending() == old(Pending()) && queue != []
    {
      while queue == []
        invariant InPieces(c, pos) && Pending() == old(Pending())
        decreases |coming|
      {
        assert queue + Flat(coming) == (queue + coming[0]) + Flat(coming[1..]);
        queue, coming := queue + coming[0], coming[1..];
      }
    }
  }

  /** The loop of `mysckread`, on a non-blocking socket. */
  method ReadUntilEmpty(s: Sock, buf: array<Byte>, count: nat, ghost c: Config, ghost pos: nat)
    returns (total: nat, eof: bool)
    requires count <= buf.Length && s.InPieces(c, pos)
    modifies s`coming, s`queue, buf
    ensures total <= count && (total < count ==> s.queue == [])
    ensures buf[..total] + s.Pending() == old(s.Pending())
    ensures s.InPieces(c, pos + total)
    ensures count > 0 && old(s.queue) != [] ==> total > 0
    ensures eof ==> s.closed && s.Pending() == [] && total < count
    ensures s.closed && old(s.coming) == [] ==> (eof <==> |old(s.queue)| < count)
  {
    total, eof := 0, false;
    while total < count
      invariant total <= count
      invariant buf[..total] + s.Pending() == old(s.Pending())
      invariant s.InPieces(c, pos + total)
      invariant total == 0 ==> s.queue == old(s.queue)
      invariant old(s.coming) == [] ==> s.coming == [] && total + |s.queue| == |old(s.queue)|
      decreases count - total
    {
      var nread := s.Read(buf, total, count - total, c, pos + total);
      if nread < 0 {
        break;
      }
      if nread == 0 {
        return total, true;
      }
      total := total + nread;
    }
  }

  /** `mysckread`: takes bytes in order until `count` are in or a read finds nothing.  The flags
      are put back except at end of file; once the peer has closed with nothing left in flight,
      that is exactly when fewer than `count` bytes are queued. */
  method MySckRead(s: Sock, buf: array<Byte>, count: nat, ghost c: Config, ghost pos: nat)
    returns (total: nat, eof: bool)
    requires count <= buf.Length && s.InPieces(c, pos)
    modifies s`coming, s`queue, s`nonblock, buf
    ensures total <= count
    ensures buf[..total] + s.Pending() == old(s.Pending())
    ensures s.InPieces(c, pos + total)
    ensures total < count ==> s.queue == []
    ensures count > 0 && old(s.queue) != [] ==> total > 0
    ensures s.nonblock == (old(s.nonblock) || eof)
    ensures eof ==> s.closed && s.Pending() == [] && total < count
    ensures s.closed && old(s.coming) == [] ==> (eof <==> |old(s.queue)| < count)
  {
    var oldFlags := s.nonblock;
    s.nonblock := true;
    total, eof := ReadUntilEmpty(s, buf, count, c, pos);
    if eof { return; }
    s.nonblock := oldFlags;
  }

  /** `mysckwrite`: short writes are repeated until all `count` bytes are out. */
  method MySckWrite(s: Sock, data: array<Byte>, off: nat, count: nat) returns (total: nat)
    requires off + count <= data.Length
    modifies s`sent
    ensures total == count
    ensures s.sent == old(s.sent) + data[off..off + count]
  {
    total := 0;
    while total < count
      invariant total <= count
      invariant s.sent == old(s.sent) + data[off..off + total]
    {
      var n: nat :| 0 < n <= count - total;
      s.sent := s.sent + data[off + total..off + total + n];
      assert data[off..off + total + n] == data[off..off + total] + data[off + total..off + total + n];
      total := total + n;
    }
  }

  /** An open regular file: what is left to read, its contents, and the offset of the next write. */
  class File {
    var unread: seq<Byte>
    var contents: seq<Byte>
    var offset: nat
    /** The contents when it was opened, and what has been written since. */
    ghost const was: seq<Byte>
    ghost var written: seq<Byte>

    /** Writes begin at the start and nothing is truncated. */
    ghost predicate Valid()
      reads this
    {
      offset == |written| && contents == Overlaid(was, written)
    }

    constructor (contents: seq<Byte>)
      ensures unread == contents && was == contents && written == [] && Valid()
    {
      unread, this.contents, offset := contents, contents, 0;
      was, written := contents, [];
      NothingWritten(contents);
    }

    /** `myread` on a regular file: short only at the end. */
    method MyRead(buf: array<Byte>, count: nat) returns (nread: nat)
      requires count <= buf.Length
      modifies this`unread, buf
      ensures nread == Min(count, |old(unread)|)
      ensures buf[..nread] == old(unread)[..nread] && unread == old(unread)[nread..]
    {
      nread := Min(count, |unread|);
      var u := unread;
      forall k | 0 <= k < nread {
        buf[k] := u[k];
      }
      unread := u[nread..];
    }

    method MyWrite(buf: array<Byte>, off: nat, count: nat) returns (n: nat)
      requires off + count <= buf.Length && count > 0 && Valid()
      modifies this`contents, this`offset, this`written
      ensures 0 < n <= count && written == old(written) + buf[off..off + n] && Valid()
    {
      n :| 0 < n <= count;
      WritesOverlay(was, written, buf[off..off + n]);
      contents := WriteAt(contents, offset, buf[off..off + n]);
      offset := offset + n;
      written := written + buf[off..off + n];
    }
  }

  /** The inner loop of `readfd_writesocket`. */
  method SendBuffer(s: Sock, buf: array<Byte>, nread: nat)
    requires nread <= buf.Length
    modifies s`sent
    ensures s.sent == old(s.sent) + buf[..nread]
  {
    var totalSent: nat := 0;
    while totalSent < nread
      invariant totalSent <= nread
      invariant s.sent == old(s.sent) + buf[..totalSent]
    {
      var nwritten := MySckWrite(s, buf, totalSent, nread - totalSent);
      assert buf[..totalSent] + buf[totalSent..totalSent + nwritten] == buf[..totalSent + nwritten];
      totalSent := totalSent + nwritten;
    }
  }

  /** The inner loop of `readsocket_writefd`. */
  method SaveBuffer(f: File, buf: array<Byte>, nread: nat)
    requires nread <= buf.Length && f.Valid()
    modifies f`contents, f`offset, f`written
    ensures f.written == old(f.written) + buf[..nread] && f.Valid()
  {
    var totalWritten: nat := 0;
    while totalWritten < nread
      invariant totalWritten <= nread
      invariant f.written == old(f.written) + buf[..totalWritten] && f.Valid()
    {
      var nwritten := f.MyWrite(buf, totalWritten, nread - totalWritten);
      assert buf[..totalWritten] + buf[totalWritten..totalWritten + nwritten] == buf[..totalWritten + nwritten];
      totalWritten := totalWritten + nwritten;
    }
  }

  /** The length of the last chunk when n bytes are cut into chunks of 4095. */
  function LastChunk(n: nat): Last {
    if n == 0 then Unassigned
    else if n % CHUNK == 0 then Wrote(CHUNK) else Wrote(n % CHUNK)
  }

  lemma SentMore(before: seq<Byte>, u: seq<Byte>, done: nat, n: nat)
    requires done + n <= |u|
    ensures before + u[..done] + u[done..][..n] == before + u[..done + n]
    ensures u[done..][n..] == u[done + n..]
  {
  }

  lemma ChunkSeen(pos: nat, nread: nat)
    requires 0 < nread <= CHUNK && pos % CHUNK == 0
    ensures LastChunk(pos + nread) == Wrote(nread)
  {
  }

  /** `done` bytes of u have left the file and gone to the socket. */
  ghost predicate Sent(s: Sock, f: File, before: seq<Byte>, u: seq<Byte>, done: nat)
    reads s, f
  {
    done <= |u| && f.unread == u[done..] && s.sent == before + u[..done]
  }

  /** One turn of the outer loop of `readfd_writesocket`. */
  method SendChunk(s: Sock, buf: array<Byte>, f: File, ghost before: seq<Byte>, ghost u: seq<Byte>, ghost done: nat)
    returns (nread: nat)
    requires buf.Length == CHUNK + 1 && Sent(s, f, before, u, done)
    modifies s`sent, buf, f`unread
    ensures nread == Min(CHUNK, |u| - done) && Sent(s, f, before, u, done + nread)
  {
    nread := f.MyRead(buf, CHUNK);
    SentMore(before, u, done, nread);
    SendBuffer(s, buf, nread);
  }

  /** `readfd_writesocket`: sends one chunk, or with `eofflag` the whole file, and returns the length
      of the last chunk, which is unassigned when there was nothing to read. */
  method ReadFdWriteSocket(s: Sock, buf: array<Byte>, f: File, eofflag: bool) returns (totalSent: Last)
    requires buf.Length == CHUNK + 1
    modifies s`sent, buf, f`unread
    ensures var n := if eofflag then |old(f.unread)| else Min(CHUNK, |old(f.unread)|);
            Sent(s, f, old(s.sent), old(f.unread), n) && totalSent == LastChunk(n)
  {
    ghost var u, before := f.unread, s.sent;
    ghost var done: nat := 0;
    totalSent := Unassigned;
    assert before + [] == before;
    while true
      invariant Sent(s, f, before, u, done)
      invariant totalSent == LastChunk(done)
      invariant done < |u| ==> done % CHUNK == 0
      invariant !eofflag ==> done == 0
      decreases |u| - done
    {
      var nread := SendChunk(s, buf, f, before, u, done);
      if nread == 0 { break; }
      ChunkSeen(done, nread);
      totalSent := Wrote(nread);
      done := done + nread;
      if !eofflag { break; }
      MyMemset(buf, 0, buf.Length);
    }
  }

  /** `sendfile_tosocket`: for a length that is not a multiple of 4095 the loop decides on assigned
      values only, and ends after sending the whole file in one round per chunk. */
  method SendFileToSocket(s: Sock, buf: array<Byte>, f: File) returns (rounds: nat)
    requires buf.Length == CHUNK + 1 && |f.unread| % CHUNK != 0
    modifies s`sent, buf, f`unread
    ensures s.sent == old(s.sent) + old(f.unread) && f.unread == []
    ensures rounds == |old(f.unread)| / CHUNK + 1
  {
    ghost var u := f.unread;
    rounds := 0;
    while true
      invariant rounds * CHUNK <= |u|
      invariant f.unread == u[rounds * CHUNK..] && s.sent == old(s.sent) + u[..rounds * CHUNK]
      decreases |f.unread|
    {
      ghost var off := rounds * CHUNK;
      var nread := ReadFdWriteSocket(s, buf, f, false);
      rounds := rounds + 1;
      ghost var n := Min(CHUNK, |u| - off);
      SentMore(old(s.sent), u, off, n);
      if nread != Wrote(CHUNK) {
        break;
      }
    }
  }

  /** All is either written, queued, or in flight in whole chunks. */
  ghost predicate Receiving(s: Sock, f: File, c: Config)
    reads s, f
  {
    && !s.closed && f.Valid()
    && s.InPieces(c, |f.written|) && f.written + s.Pending() == c.src && |f.written| <= |c.src|
  }

  lemma MoveOn(w: seq<Byte>, taken: seq<Byte>, rest: seq<Byte>, pending: seq<Byte>)
    requires taken + rest == pending
    ensures (w + taken) + rest == w + pending
  {
  }

  /** One turn of the outer loop of `readsocket_writefd`. */
  method ReceiveChunk(s: Sock, buf: array<Byte>, f: File, ghost c: Config) returns (nread: nat)
    requires buf.Length == CHUNK + 1 && Receiving(s, f, c)
    modifies s`coming, s`queue, s`nonblock, buf, f`contents, f`offset, f`written
    ensures Receiving(s, f, c) && nread <= CHUNK
    ensures |f.written| == |old(f.written)| + nread
    ensures nread < CHUNK ==> s.queue == []
    ensures old(s.queue) != [] ==> nread > 0
  {
    ghost var w := f.written;
    ghost var pending := s.Pending();
    var eof: bool;
    nread, eof := MySckRead(s, buf, CHUNK, c, |w|);
    MoveOn(w, buf[..nread], s.Pending(), pending);
    SaveBuffer(f, buf, nread);
  }

  /** `readsocket_writefd`: empties the socket into the file and returns the length of the last
      chunk it saw. */
  method ReadSocketWriteFd(s: Sock, buf: array<Byte>, f: File, ghost c: Config) returns (totalWritten: Last)
    requires buf.Length == CHUNK + 1 && s.queue != [] && Receiving(s, f, c)
    requires |f.written| % CHUNK == 0
    modifies s`coming, s`queue, s`nonblock, buf, f`contents, f`offset, f`written
    ensures Receiving(s, f, c) && Aligned(c, |f.written|) && |f.written| > |old(f.written)|
    ensures totalWritten == LastChunk(|f.written|)
  {
    totalWritten := Unassigned;
    while true
      invariant Receiving(s, f, c)
      invariant Aligned(c, |f.written|) && |f.written| >= |old(f.written)|
      invariant totalWritten == Unassigned ==> |f.written| % CHUNK == 0 && s.queue != []
      invariant totalWritten != Unassigned ==>
                  totalWritten == LastChunk(|f.written|) && |f.written| > |old(f.written)|
      decreases |c.src| - |f.written|
    {
      ghost var pos := |f.written|;
      var nread := ReceiveChunk(s, buf, f, c);
      if nread == 0 { break; }
      ChunkSeen(pos, nread);
      totalWritten := Wrote(nread);
      MyMemset(buf, 0, buf.Length);
    }
  }

  /** `readbytes_fromsocket`: whatever arrives between any two calls, the loop stops exactly when
      the bytes written are what was sent; where the file was longer, its old end stays. */
  method ReadBytesFromSocket(s: Sock, buf: array<Byte>, f: File, ghost c: Config)
    requires buf.Length == CHUNK + 1 && f.written == [] && f.Valid() && !s.closed
    requires |c.src| % CHUNK != 0 && s.Pending() == c.src && s.InPieces(c, 0)
    modifies s`coming, s`queue, s`nonblock, buf, f`contents, f`offset, f`written
    ensures f.written == c.src && s.Pending() == []
    ensures f.contents == Overlaid(f.was, c.src)
  {
    while true
      invariant Receiving(s, f, c) && |f.written| % CHUNK == 0
      decreases |c.src| - |f.written|
    {
      s.DoPoll(c, |f.written|);
      var bytesread := ReadSocketWriteFd(s, buf, f, c);
      if bytesread != Wrote(CHUNK) { break; }
      MyMemset(buf, 0, buf.Length);
    }
  }
}
