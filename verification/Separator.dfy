/** `mystrsep`: possibly-empty fields, each delimiter overwritten by a NUL. */
module Separator {
  import opened CStrings

  // ----- Fields of a text -----

  /** The length of the first field. */
  function FieldLength(t: string, delim: string): (k: nat)
    ensures k <= |t| && (k < |t| ==> t[k] in delim)
    ensures forall i :: 0 <= i < k ==> t[i] !in delim
  {
    if t == [] || t[0] in delim then 0 else 1 + FieldLength(t[1..], delim)
  }

  function Fields(t: string, delim: string): seq<string>
    decreases |t|
  {
    var k := FieldLength(t, delim);
    if k == |t| then [t] else [t[..k]] + Fields(t[k + 1..], delim)
  }

  /** The delimiters of a text, in order. */
  function Delimiters(t: string, delim: string): string {
    if t == [] then [] else (if t[0] in delim then [t[0]] else []) + Delimiters(t[1..], delim)
  }

  function Rejoin(fs: seq<string>, ds: string): string
    requires |fs| == |ds| + 1
  {
    if ds == [] then fs[0] else fs[0] + [ds[0]] + Rejoin(fs[1..], ds[1..])
  }

  lemma {:induction false} DelimitersSkip(t: string, delim: string, k: nat)
    requires k <= |t| && forall i :: 0 <= i < k ==> t[i] !in delim
    ensures Delimiters(t, delim) == Delimiters(t[k..], delim)
  {
    if k > 0 {
      assert t[1..][k - 1..] == t[k..];
      DelimitersSkip(t[1..], delim, k - 1);
    } else {
      assert t[0..] == t;
    }
  }

  lemma {:induction false} FieldsClean(t: string, delim: string)
    ensures forall i :: 0 <= i < |Fields(t, delim)| ==> forall c :: c in Fields(t, delim)[i] ==> c !in delim
    decreases |t|
  {
    var k := FieldLength(t, delim);
    if k < |t| {
      FieldsClean(t[k + 1..], delim);
    }
  }

  lemma JoinAt(t: string, k: nat)
    requires k < |t|
    ensures t == t[..k] + [t[k]] + t[k + 1..] && t[k..][1..] == t[k + 1..]
  {
  }

  /** There is one more field than there are delimiters, no field holds one, and putting the
      delimiters back gives the text again. */
  lemma {:induction false} FieldsRejoin(t: string, delim: string)
    ensures |Fields(t, delim)| == |Delimiters(t, delim)| + 1
    ensures Rejoin(Fields(t, delim), Delimiters(t, delim)) == t
    ensures forall i :: 0 <= i < |Fields(t, delim)| ==> forall c :: c in Fields(t, delim)[i] ==> c !in delim
    decreases |t|
  {
    var k := FieldLength(t, delim);
    FieldsClean(t, delim);
    DelimitersSkip(t, delim, k);
    if k < |t| {
      FieldsRejoin(t[k + 1..], delim);
      JoinAt(t, k);
      assert Delimiters(t, delim) == [t[k]] + Delimiters(t[k + 1..], delim);
    }
  }

  // ----- In memory -----

  lemma CutField(m: seq<char>, p: nat, t: string, k: nat)
    requires HoldsText(m, p, t) && k < |t|
    ensures var cut := m[p + k := NUL];
            CStr(cut, p) == t[..k] && Terminated(cut, p) && HoldsText(cut, p + k + 1, t[k + 1..])
  {
    var cut := m[p + k := NUL];
    assert cut[p + k] == NUL;
    HoldsCut(m, p, t, k);
    HoldsTail(m, p, t, k + 1);
    HoldsBeyond(m, p + k, p + k + 1, t[k + 1..]);
  }

  /** One call of `mystrsep` on the text at `p`; the new *stringp is -1 for NULL. */
  method MyStrSep(buf: array<char>, p: int, delim: string, ghost t: string) returns (tok: int, p': int)
    requires NUL !in delim && (p >= 0 ==> HoldsText(buf[..], p, t))
    modifies buf
    ensures p < 0 ==> tok == -1 && p' == -1 && buf[..] == old(buf[..])
    ensures p >= 0 ==>
              var k := FieldLength(t, delim);
              && tok == p && CStr(buf[..], p) == t[..k] && Terminated(buf[..], p)
              && (if k == |t| then p' == -1 && buf[..] == old(buf[..])
                  else p' == p + k + 1 && buf[..] == old(buf[..])[p + k := NUL] && HoldsText(buf[..], p', t[k + 1..]))
  {
    if p < 0 {
      return -1, -1;
    }
    ghost var m := buf[..];
    var s := p;
    tok := p;
    ghost var k := FieldLength(t, delim);
    while true
      invariant p <= s <= p + k && buf[..] == m
      decreases p + k - s
    {
      var c := buf[s];
      HoldsTail(m, p, t, s - p);
      s := s + 1;
      if c == NUL {
        p' := -1;
        assert t[..k] == t;
        assert Terminated(m, p);
        return;
      }
      if c in delim {
        buf[s - 1] := NUL;
        p' := s;
        assert buf[..] == m[p + k := NUL];
        CutField(m, p, t, k);
        return;
      }
    }
  }

  /** The fields still to come when the cursor is p. */
  function Left(p: int, rest: string, delim: string): seq<string> {
    if p < 0 then [] else Fields(rest, delim)
  }

  method NextField(buf: array<char>, p: nat, delim: string, ghost t: string)
    returns (f: string, p': int, ghost rest: string)
    requires NUL !in delim && HoldsText(buf[..], p, t)
    modifies buf
    ensures Fields(t, delim) == [f] + Left(p', rest, delim)
    ensures p' >= 0 ==> p' > p && HoldsText(buf[..], p', rest)
  {
    ghost var k := FieldLength(t, delim);
    assert t[..|t|] == t;
    var tok;
    tok, p' := MyStrSep(buf, p, delim, t);
    f := CStr(buf[..], tok);
    rest := if k < |t| then t[k + 1..] else [];
  }

  /** Calling `mystrsep` until it returns NULL gives the fields of the text, and the cursor strictly
      advances. */
  method AllFields(buf: array<char>, delim: string, ghost t: string) returns (fs: seq<string>)
    requires NUL !in delim && HoldsText(buf[..], 0, t)
    modifies buf
    ensures fs == Fields(t, delim)
  {
    fs := [];
    var p := 0;
    ghost var rest := t;
    while p >= 0
      invariant p >= 0 ==> HoldsText(buf[..], p, rest)
      invariant Fields(t, delim) == fs + Left(p, rest, delim)
      decreases p >= 0, buf.Length - p
    {
      var f;
      f, p, rest := NextField(buf, p, delim, rest);
      fs := fs + [f];
    }
  }
}

