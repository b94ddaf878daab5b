/** Chunk names and chunk tiling: assets/DFS/dfs.c. */
module Chunks {
  import opened Decimals

  const DOT: Octet := 46
  /** "_chunk_" */
  const SUFFIX: Text := [95, 99, 104, 117, 110, 107, 95]

  predicate CString(m: Text, s: Text) {
    |s| < |m| && m[|s|] == NUL && NUL !in s && forall i :: 0 <= i < |s| ==> m[i] == s[i]
  }

  function Stem(s: Text): (r: Text)
    ensures r <= s && DOT !in r && (|r| < |s| ==> s[|r|] == DOT)
  {
    if s == [] || s[0] == DOT then [] else [s[0]] + Stem(s[1..])
  }

  function Name(base: Text, id: nat): Text {
    Stem(base) + SUFFIX + Decimal(id) + base[|Stem(base)|..]
  }

  lemma {:induction false} StemIs(s: Text, k: nat)
    requires k <= |s| && DOT !in s[..k] && (k < |s| ==> s[k] == DOT)
    ensures Stem(s) == s[..k]
  {
    if k > 0 {
      assert s[..k][0] == s[0] && s[1..][..k - 1] == s[..k][1..];
      StemIs(s[1..], k - 1);
    }
  }

  lemma OneFurther(s: seq<Octet>, from: nat, i: nat)
    requires from <= i < |s|
    ensures s[from..i + 1] == s[from..i] + [s[i]]
  {
  }

  /** Appends the string at src[from..] to the j bytes already in buf. */
  method CopyString(buf: array<Octet>, j: nat, src: Text, from: nat, ghost s: Text) returns (j': nat)
    requires from <= |s| && CString(src, s) && j + |s| - from <= buf.Length
    modifies buf
    ensures j' == j + |s| - from && buf[..j'] == old(buf[..j]) + s[from..]
  {
    j' := j;
    var i := from;
    while src[i] != NUL
      invariant from <= i <= |s| && j' == j + i - from
      invariant buf[..j'] == old(buf[..j]) + s[from..i]
      decreases |s| - i
    {
      assert src[i] == s[i];
      buf[j'] := src[i];
      assert buf[..j' + 1] == buf[..j'] + [s[i]];
      OneFurther(s, from, i);
      j' := j' + 1;
      i := i + 1;
    }
  }

  /** The first loop of `generate_chunk_name`. */
  method CopyStem(buf: array<Octet>, src: Text, ghost s: Text) returns (i: nat)
    requires CString(src, s) && |s| <= buf.Length
    modifies buf
    ensures i == |Stem(s)| && buf[..i] == Stem(s)
  {
    i := 0;
    while src[i] != NUL && src[i] != DOT
      invariant i <= |s| && buf[..i] == s[..i] && DOT !in s[..i]
      decreases |s| - i
    {
      buf[i] := src[i];
      assert buf[..i + 1] == buf[..i] + [s[i]] && s[..i + 1] == s[..i] + [s[i]];
      i := i + 1;
    }
    StemIs(s, i);
  }

  /** The second. */
  method CopySuffix(buf: array<Octet>, j: nat) returns (j': nat)
    requires j + |SUFFIX| <= buf.Length
    modifies buf
    ensures j' == j + |SUFFIX| && buf[..j'] == old(buf[..j]) + SUFFIX
  {
    j' := j;
    for k := 0 to |SUFFIX|
      invariant j' == j + k && buf[..j'] == old(buf[..j]) + SUFFIX[..k]
    {
      buf[j'] := SUFFIX[k];
      assert buf[..j' + 1] == buf[..j'] + [SUFFIX[k]] && SUFFIX[..k + 1] == SUFFIX[..k] + [SUFFIX[k]];
      j' := j' + 1;
    }
  }

  lemma IdHasFourDigits(id: nat)
    requires id < 10000
    ensures |Decimal(id)| <= 4 && NUL !in Decimal(id)
  {
    assert Pow10(4) == 10000;
    DecimalLength(id, 4, 10000);
    ParseDecimal(id);
  }

  /** The digits, up to the NUL or the fourth. */
  method CopyDigits(buf: array<Octet>, j: nat, p: array<Octet>, ghost d: Text) returns (j': nat)
    requires p != buf && |d| <= 4 && CString(p[..], d) && p.Length == 5 && j + |d| <= buf.Length
    modifies buf
    ensures j' == j + |d| && buf[..j'] == old(buf[..j]) + d
  {
    j' := j;
    var k := 0;
    while p[k] != NUL && k < 4
      invariant 0 <= k <= |d| && j' == j + k && buf[..j'] == old(buf[..j]) + d[..k]
      decreases |d| - k
    {
      assert p[k] == p[..][k] == d[k];
      buf[j'] := p[k];
      assert buf[..j' + 1] == buf[..j'] + [d[k]] && d[..k + 1] == d[..k] + [d[k]];
      j' := j' + 1;
      k := k + 1;
    }
    assert d[..k] == d;
  }

  /** `generate_chunk_name`, for an id of at most four digits. */
  method GenerateChunkName(baseFilename: Text, chunkId: nat, buf: array<Octet>, ghost base: Text) returns (len: nat)
    requires CString(baseFilename, base) && chunkId < 10000 && buf.Length > |base| + |SUFFIX| + 4
    modifies buf
    ensures len < buf.Length && buf[..len] == Name(base, chunkId) && buf[len] == NUL
  {
    IdHasFourDigits(chunkId);
    var i := CopyStem(buf, baseFilename, base);
    var j := CopySuffix(buf, i);
    var chunkIdStr := new Octet[5];
    var digits := IntToStr(chunkId, chunkIdStr);
    assert forall k :: 0 <= k < digits ==> chunkIdStr[..][k] == chunkIdStr[..digits][k];
    j := CopyDigits(buf, j, chunkIdStr, Decimal(chunkId));
    if baseFilename[i] == DOT {
      j := CopyString(buf, j, baseFilename, i, base);
    } else {
      assert base[i..] == [];
    }
    buf[j] := NUL;
    assert buf[..j] == Name(base, chunkId);
    len := j;
  }

  /** Different ids give different names. */
  lemma NamesDiffer(base: Text, i: nat, j: nat)
    requires Name(base, i) == Name(base, j)
    ensures i == j
  {
    var front, back := Stem(base) + SUFFIX, base[|Stem(base)|..];
    var n := Name(base, i);
    assert |n| == |front| + |Decimal(i)| + |back| == |front| + |Decimal(j)| + |back|;
    assert n[|front|..|n| - |back|] == Decimal(i);
    assert Name(base, j)[|front|..|n| - |back|] == Decimal(j);
    ParseDecimal(i);
    ParseDecimal(j);
  }

  /** The parts of a name: the base up to its first dot, "_chunk_", the id in decimal digits, and the
      rest of the base. */
  lemma NameParts(base: Text, id: nat) returns (stem: Text, digits: Text, extension: Text)
    ensures Name(base, id) == stem + [95, 99, 104, 117, 110, 107, 95] + digits + extension
    ensures stem + extension == base && 46 !in stem && (extension != [] ==> extension[0] == 46)
    ensures digits != [] && (forall i :: 0 <= i < |digits| ==> 48 <= digits[i] <= 57) && Parse(digits) == id
    ensures |digits| > 1 ==> digits[0] != 48
  {
    stem, digits, extension := Stem(base), Decimal(id), base[|Stem(base)|..];
    ParseDecimal(id);
  }

  // ----- Partition -----

  /** A `struct ChunkInfo`, with the relative name generated for it. */
  datatype ChunkInfo = ChunkInfo(chunkId: nat, offset: nat, size: nat, name: Text)

  /** The bytes of buf that chunk c stands for. */
  function Data(buf: Text, c: ChunkInfo): Text
    requires c.offset + c.size <= |buf|
  {
    buf[c.offset..c.offset + c.size]
  }

  ghost predicate Tile(buf: Text, cs: seq<ChunkInfo>, end: nat) {
    && end <= |buf|
    && (forall i :: 0 <= i < |cs| ==> cs[i].offset + cs[i].size <= end && cs[i].size > 0)
    && (|cs| > 0 ==> cs[0].offset == 0 && cs[|cs| - 1].offset + cs[|cs| - 1].size == end)
    && (|cs| == 0 ==> end == 0)
    && (forall i :: 0 < i < |cs| ==> cs[i].offset == cs[i - 1].offset + cs[i - 1].size)
  }

  function Join(buf: Text, cs: seq<ChunkInfo>): Text
    requires forall i :: 0 <= i < |cs| ==> cs[i].offset + cs[i].size <= |buf|
  {
    if cs == [] then [] else Join(buf, cs[..|cs| - 1]) + Data(buf, cs[|cs| - 1])
  }

  lemma {:induction false} OffsetsGrow(buf: Text, cs: seq<ChunkInfo>, end: nat, i: nat, j: nat)
    requires Tile(buf, cs, end) && i < j < |cs|
    ensures cs[i].offset + cs[i].size <= cs[j].offset
    decreases j - i
  {
    if i < j - 1 {
      OffsetsGrow(buf, cs, end, i, j - 1);
    }
  }

  lemma TilesEarlier(buf: Text, cs: seq<ChunkInfo>, end: nat)
    requires Tile(buf, cs, end) && cs != []
    ensures Tile(buf, cs[..|cs| - 1], cs[|cs| - 1].offset)
  {
    var last := |cs| - 1;
    forall i | 0 <= i < last ensures cs[i].offset + cs[i].size <= cs[last].offset {
      OffsetsGrow(buf, cs, end, i, last);
    }
  }

  /** Chunks that tile a prefix of the buffer hold it without gap or overlap. */
  lemma {:induction false} TilesJoin(buf: Text, cs: seq<ChunkInfo>, end: nat)
    requires Tile(buf, cs, end)
    ensures Join(buf, cs) == buf[..end]
    decreases |cs|
  {
    if cs != [] {
      var front, last := cs[..|cs| - 1], cs[|cs| - 1];
      TilesEarlier(buf, cs, end);
      TilesJoin(buf, front, last.offset);
      assert buf[..last.offset] + buf[last.offset..end] == buf[..end];
    }
  }

  lemma TileAppend(buf: Text, cs: seq<ChunkInfo>, end: nat, c: ChunkInfo)
    requires Tile(buf, cs, end) && c.offset == end && c.size > 0 && end + c.size <= |buf|
    ensures Tile(buf, cs + [c], end + c.size)
  {
  }

  /** Chunk i carries id i and the name made from it. */
  ghost predicate Named(cs: seq<ChunkInfo>, base: Text) {
    forall i :: 0 <= i < |cs| ==> cs[i].chunkId == i && cs[i].name == Name(base, i)
  }

  method RelativeName(fileName: Text, i: nat, ghost base: Text) returns (name: Text)
    requires CString(fileName, base) && |base| + |SUFFIX| + 4 < 257 && i < 10000
    ensures name == Name(base, i)
  {
    var relative := new Octet[257];
    var len := GenerateChunkName(fileName, i, relative, base);
    name := relative[..len];
  }

  lemma DivRemainder(total: nat, size: nat)
    requires size > 0
    ensures total - total % size == (total / size) * size
  {
  }

  lemma MulMonotone(a: nat, b: nat, k: nat)
    requires a <= b
    ensures a * k <= b * k
  {
    assert b * k == a * k + (b - a) * k;
  }

  lemma OffsetFits(i: nat, size: nat, total: nat)
    requires size > 0 && i < total / size
    ensures (i + 1) * size == i * size + size <= total
  {
    MulMonotone(i + 1, total / size, size);
    DivRemainder(total, size);
  }

  /** One more chunk at the end. */
  lemma ChunkStep(buf: Text, cs: seq<ChunkInfo>, end: nat, c: ChunkInfo, base: Text)
    requires Tile(buf, cs, end) && Named(cs, base)
    requires c.offset == end && c.size > 0 && end + c.size <= |buf| && c.chunkId == |cs| && c.name == Name(base, |cs|)
    ensures Tile(buf, cs + [c], end + c.size) && Named(cs + [c], base)
  {
    TileAppend(buf, cs, end, c);
  }

  lemma SliceStep(buf: Text, end: nat, size: nat)
    requires end + size <= |buf|
    ensures buf[..end + size] == buf[..end] + buf[end..end + size]
  {
  }

  /** The body of the loop of `partidion_data` at offset `end`. */
  method FillChunkAt(buf: Text, size: nat, i: nat, end: nat, fileName: Text, chunks: array<ChunkInfo>, ghost base: Text)
    requires 0 < size && end + size <= |buf| && i < 10000 && i < chunks.Length
    requires CString(fileName, base) && |base| + |SUFFIX| + 4 < 257
    requires Tile(buf, chunks[..i], end) && Named(chunks[..i], base)
    modifies chunks
    ensures Tile(buf, chunks[..i + 1], end + size) && Named(chunks[..i + 1], base)
    ensures chunks[i].offset == end && chunks[i].size == size
    ensures forall k :: 0 <= k < chunks.Length && k != i ==> chunks[k] == old(chunks[k])
  {
    ghost var before := chunks[..i];
    var name := RelativeName(fileName, i, base);
    var c := ChunkInfo(i, end, size, name);
    chunks[i] := c;
    ChunkStep(buf, before, end, c, base);
    assert chunks[..i + 1] == before + [c];
  }

  /** One turn of that loop. */
  method FillChunk(buf: Text, partitionSize: nat, i: nat, fileName: Text, chunks: array<ChunkInfo>, ghost base: Text)
    returns (partition: Text)
    requires partitionSize > 0 && i < 10000 && i < |buf| / partitionSize && i < chunks.Length
    requires CString(fileName, base) && |base| + |SUFFIX| + 4 < 257
    requires Tile(buf, chunks[..i], i * partitionSize) && Named(chunks[..i], base)
    modifies chunks
    ensures Tile(buf, chunks[..i + 1], (i + 1) * partitionSize) && Named(chunks[..i + 1], base)
    ensures buf[..(i + 1) * partitionSize] == buf[..i * partitionSize] + partition
    ensures chunks[i].offset == i * partitionSize && chunks[i].size == partitionSize
    ensures forall k :: 0 <= k < chunks.Length && k != i ==> chunks[k] == old(chunks[k])
  {
    OffsetFits(i, partitionSize, |buf|);
    var offset := i * partitionSize;
    partition := buf[offset..offset + partitionSize];
    SliceStep(buf, offset, partitionSize);
    FillChunkAt(buf, partitionSize, i, offset, fileName, chunks, base);
  }

  /** `partidion_data`: the chunks tile the largest multiple of the partition size, the bytes of them
      that are printed, without the path after each, are that prefix, and the remainder is left out
      (its chunks are never filled in). */
  method PartitionData(buf: Text, partitionSize: nat, fileName: Text, ghost base: Text)
    returns (chunks: array<ChunkInfo>, nPartitions: nat, out: Text)
    requires partitionSize > 0 && |buf| / partitionSize <= 10000
    requires CString(fileName, base) && |base| + |SUFFIX| + 4 < 257
    ensures nPartitions == |buf| / partitionSize && chunks.Length == nPartitions + |buf| % partitionSize
    ensures forall k :: 0 <= k < nPartitions ==>
              chunks[k].offset == k * partitionSize && chunks[k].size == partitionSize
    ensures Tile(buf, chunks[..nPartitions], |buf| - |buf| % partitionSize)
    ensures out == buf[..|buf| - |buf| % partitionSize]
    ensures Named(chunks[..nPartitions], base)
  {
    nPartitions := |buf| / partitionSize;
    var nRemaining := |buf| % partitionSize;
    chunks := new ChunkInfo[nPartitions + nRemaining];
    out := [];
    for i := 0 to nPartitions
      invariant Tile(buf, chunks[..i], i * partitionSize) && Named(chunks[..i], base)
      invariant out == buf[..i * partitionSize]
      invariant forall k :: 0 <= k < i ==> chunks[k].offset == k * partitionSize && chunks[k].size == partitionSize
    {
      var partition := FillChunk(buf, partitionSize, i, fileName, chunks, base);
      out := out + partition;
    }
    DivRemainder(|buf|, partitionSize);
  }

  /** Within one call all chunk names differ. */
  lemma NamedApart(cs: seq<ChunkInfo>, base: Text)
    requires Named(cs, base)
    ensures forall i, j :: 0 <= i < j < |cs| ==> cs[i].name != cs[j].name
  {
    forall i, j | 0 <= i < j < |cs| ensures cs[i].name != cs[j].name {
      if cs[i].name == cs[j].name {
        NamesDiffer(base, i, j);
      }
    }
  }
}

