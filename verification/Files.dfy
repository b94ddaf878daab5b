/** What an open file holds when it is written from its start without being truncated. */
module Files {
  import opened Bytes

  /** The contents after a write of `data` at offset `off`. */
  function WriteAt(contents: seq<Byte>, off: nat, data: seq<Byte>): seq<Byte>
    requires off <= |contents|
  {
    contents[..off] + data + (if off + |data| < |contents| then contents[off + |data|..] else [])
  }

  /** The contents once `data` has been written over `was` from the start. */
  function Overlaid(was: seq<Byte>, data: seq<Byte>): seq<Byte> {
    data + (if |data| < |was| then was[|data|..] else [])
  }

  lemma NothingWritten(was: seq<Byte>)
    ensures Overlaid(was, []) == was
  {
  }

  /** However the data is cut into writes, each at the offset the last one left, the file ends up
      overlaid with all of it. */
  lemma WritesOverlay(was: seq<Byte>, done: seq<Byte>, more: seq<Byte>)
    ensures WriteAt(Overlaid(was, done), |done|, more) == Overlaid(was, done + more)
  {
    var o := Overlaid(was, done);
    assert o[..|done|] == done;
    if |done| + |more| < |o| {
      assert o[|done| + |more|..] == was[|done| + |more|..];
    }
  }

  /** A file holds just what was written if and only if it was no longer before. */
  lemma OverlaidIff(was: seq<Byte>, data: seq<Byte>)
    ensures Overlaid(was, data) == data <==> |was| <= |data|
  {
  }

  /** One byte written over three leaves the last two. */
  lemma LongerFileKeepsTail()
    ensures Overlaid([1, 2, 3], [9]) == [9, 2, 3] != [9]
  {
  }

  /** Any part but nothing of a file, written over one that differs at most in its first byte,
      completes it. */
  lemma PrefixCompletes(was: seq<Byte>, data: seq<Byte>, part: seq<Byte>)
    requires part != [] && part <= data && |was| == |data| && was[1..] == data[1..]
    ensures Overlaid(was, part) == data
  {
    assert was[|part|..] == was[1..][|part| - 1..] == data[1..][|part| - 1..] == data[|part|..];
  }

  lemma FirstByteCompletesIff(was: seq<Byte>, data: seq<Byte>)
    requires |data| > 1
    ensures Overlaid(was, data[..1]) == data <==> |was| == |data| && was[1..] == data[1..]
  {
    var o := Overlaid(was, data[..1]);
    if o == data {
      assert o[1..] == was[1..];
    } else if |was| == |data| && was[1..] == data[1..] {
      PrefixCompletes(was, data, data[..1]);
    }
  }
}
