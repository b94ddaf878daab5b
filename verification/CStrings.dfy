/** NUL-terminated strings in memory, and the comparison and copy loops of src/mystring.c. */
module CStrings {

  const NUL: char := '\0'

  ghost predicate Terminated(m: seq<char>, p: nat) {
    exists e :: p <= e < |m| && m[e] == NUL
  }

  /** The string that starts at p. */
  function CStr(m: seq<char>, p: nat): (s: string)
    ensures NUL !in s
    decreases |m| - p
  {
    if p >= |m| || m[p] == NUL then [] else [m[p]] + CStr(m, p + 1)
  }

  /** Memory holds `text` at p, ended by a NUL. */
  ghost predicate HoldsText(m: seq<char>, p: nat, text: string) {
    p + |text| < |m| && m[p + |text|] == NUL && CStr(m, p) == text
  }

  lemma {:induction false} CStrIs(m: seq<char>, p: nat, s: string)
    requires p + |s| < |m| && NUL !in s && m[p + |s|] == NUL
    requires forall i :: 0 <= i < |s| ==> m[p + i] == s[i]
    ensures HoldsText(m, p, s)
    decreases |s|
  {
    if s != [] {
      assert m[p + 0] == s[0];
      forall i | 0 <= i < |s| - 1 ensures m[p + 1 + i] == s[1..][i] {
        assert s[1..][i] == s[i + 1] == m[p + (i + 1)];
      }
      CStrIs(m, p + 1, s[1..]);
    }
  }

  lemma {:induction false} CStrHeld(m: seq<char>, p: nat)
    requires Terminated(m, p)
    ensures HoldsText(m, p, CStr(m, p))
    decreases |m| - p
  {
    if m[p] != NUL {
      assert Terminated(m, p + 1);
      CStrHeld(m, p + 1);
    }
  }

  lemma {:induction false} HoldsTail(m: seq<char>, p: nat, text: string, k: nat)
    requires HoldsText(m, p, text) && k <= |text|
    ensures HoldsText(m, p + k, text[k..])
    ensures k < |text| ==> m[p + k] == text[k]
    decreases k
  {
    if k > 0 {
      assert text[1..] == CStr(m, p + 1);
      HoldsTail(m, p + 1, text[1..], k - 1);
      assert text[1..][k - 1..] == text[k..];
    }
  }

  lemma {:induction false} HoldsBeyond(m: seq<char>, e: nat, p: nat, text: string)
    requires HoldsText(m, p, text) && e < p
    ensures HoldsText(m[e := NUL], p, text)
    decreases |text|
  {
    if text != [] {
      assert text[1..] == CStr(m, p + 1);
      HoldsBeyond(m, e, p + 1, text[1..]);
    }
  }

  lemma {:induction false} HoldsCut(m: seq<char>, p: nat, text: string, k: nat)
    requires HoldsText(m, p, text) && k < |text|
    ensures HoldsText(m[p + k := NUL], p, text[..k])
    decreases k
  {
    if k > 0 {
      assert text[1..] == CStr(m, p + 1);
      HoldsCut(m, p + 1, text[1..], k - 1);
      assert text[..k] == [m[p]] + text[1..][..k - 1];
    }
  }

  // ----- Comparison -----

  /** The first n characters of s, or all of it. */
  function Truncate(s: string, n: nat): (t: string)
    ensures t <= s && (|t| == n || (|t| < n && t == s))
  {
    if n < |s| then s[..n] else s
  }

  /** The character at k, where the terminating NUL stands at the end. */
  function CharAt(s: string, k: nat): char
    requires k <= |s|
  {
    if k < |s| then s[k] else NUL
  }

  ghost predicate FirstDifference(s: string, t: string, k: nat) {
    k <= |s| && k <= |t| && s[..k] == t[..k] && CharAt(s, k) != CharAt(t, k)
  }

  /** The value of a plain char, which is signed: a byte from 128 on is negative. */
  function Plain(c: char): int {
    if 128 <= c as int < 256 then c as int - 256 else c as int
  }

  /** s comes before t in the order of strcmp, which compares as unsigned char. */
  ghost predicate Before(s: string, t: string) {
    exists k: nat :: FirstDifference(s, t, k) && CharAt(s, k) < CharAt(t, k)
  }

  /** s comes before t when plain chars are compared. */
  ghost predicate PlainBefore(s: string, t: string) {
    exists k: nat :: FirstDifference(s, t, k) && Plain(CharAt(s, k)) < Plain(CharAt(t, k))
  }

  lemma FirstDifferenceUnique(s: string, t: string, j: nat, k: nat)
    requires FirstDifference(s, t, j) && FirstDifference(s, t, k)
    ensures j == k
  {
    assert forall i :: 0 <= i < j ==> s[i] == s[..j][i] == t[..j][i] == t[i];
    assert forall i :: 0 <= i < k ==> s[i] == s[..k][i] == t[..k][i] == t[i];
  }

  /** Both orders are decided at the first difference. */
  lemma OrderAt(s: string, t: string, k: nat)
    requires FirstDifference(s, t, k)
    ensures s != t
    ensures Before(s, t) <==> CharAt(s, k) < CharAt(t, k)
    ensures PlainBefore(s, t) <==> Plain(CharAt(s, k)) < Plain(CharAt(t, k))
  {
    forall j: nat | FirstDifference(s, t, j) ensures j == k {
      FirstDifferenceUnique(s, t, j, k);
    }
  }

  /** What the loops compare at position k. */
  lemma CharAtIs(m: seq<char>, p: nat, s: string, k: nat)
    requires HoldsText(m, p, s) && k <= |s|
    ensures CharAt(s, k) == m[p + k] && (CharAt(s, k) == NUL <==> k == |s|)
  {
    HoldsTail(m, p, s, k);
  }

  predicate IsByte(c: char) { c as int < 256 }

  /** Where two strings of bytes first differ, the sign of the plain difference is the one strcmp
      promises if and only if both bytes are below 128 or both are not. */
  lemma SignAgreesIff(s: string, t: string, k: nat)
    requires FirstDifference(s, t, k) && IsByte(CharAt(s, k)) && IsByte(CharAt(t, k))
    ensures (PlainBefore(s, t) <==> Before(s, t)) <==> (CharAt(s, k) as int < 128 <==> CharAt(t, k) as int < 128)
  {
    OrderAt(s, t, k);
  }

  /** The byte 0x80 comes after "a" for strcmp and before it for `mystrcmp`. */
  lemma HighByteDiffers()
    ensures Before("a", "\U{80}") && !Before("\U{80}", "a")
    ensures PlainBefore("\U{80}", "a") && !PlainBefore("a", "\U{80}")
  {
    OrderAt("a", "\U{80}", 0);
    OrderAt("\U{80}", "a", 0);
  }

  /** `mystrcmp`: zero exactly on equal strings, and otherwise the sign in the order of plain chars. */
  method MyStrCmp(m: seq<char>, p: nat, n: seq<char>, q: nat) returns (r: int)
    requires Terminated(m, p) && Terminated(n, q)
    ensures r == 0 <==> CStr(m, p) == CStr(n, q)
    ensures r < 0 <==> PlainBefore(CStr(m, p), CStr(n, q))
  {
    ghost var s, t := CStr(m, p), CStr(n, q);
    CStrHeld(m, p);
    CStrHeld(n, q);
    var k: nat := 0;
    while m[p + k] == n[q + k]
      invariant k <= |s| && k <= |t| && s[..k] == t[..k]
      decreases |s| - k
    {
      CharAtIs(m, p, s, k);
      CharAtIs(n, q, t, k);
      if m[p + k] == NUL {
        assert s[..k] == s && t[..k] == t;
        return 0;
      }
      k := k + 1;
    }
    r := Plain(m[p + k]) - Plain(n[q + k]);
    CharAtIs(m, p, s, k);
    CharAtIs(n, q, t, k);
    OrderAt(s, t, k);
  }

  const TWO_TO_THE_64: nat := 0x1_0000_0000_0000_0000

  /** The number of characters `mystrncmp` looks at: its `--n` wraps round when n is 0. */
  function Compared(n: nat): nat {
    if n == 0 then TWO_TO_THE_64 else n
  }

  lemma TruncatedOrder(s: string, t: string, k: nat, max: nat)
    requires NUL !in s && NUL !in t && k < max && k <= |s| && k <= |t| && s[..k] == t[..k]
    requires k + 1 == max || k == |s| || k == |t| || s[k] != t[k]
    ensures var a, b := Truncate(s, max), Truncate(t, max);
            && (a == b <==> CharAt(s, k) == CharAt(t, k))
            && (PlainBefore(a, b) <==> Plain(CharAt(s, k)) < Plain(CharAt(t, k)))
  {
    var a, b := Truncate(s, max), Truncate(t, max);
    assert a[..k] == s[..k] && b[..k] == t[..k];
    if CharAt(s, k) == CharAt(t, k) {
      assert a == b by {
        if k < |s| { assert a == s[..k] + [s[k]] && b == t[..k] + [t[k]]; } else { assert a == s[..k] && b == t[..k]; }
      }
    } else {
      OrderAt(a, b, k);
    }
  }

  /** `mystrncmp`. */
  method MyStrNCmp(m: seq<char>, p: nat, n: seq<char>, q: nat, max: nat) returns (r: int)
    requires Terminated(m, p) && Terminated(n, q) && max < TWO_TO_THE_64
    ensures var s, t := Truncate(CStr(m, p), Compared(max)), Truncate(CStr(n, q), Compared(max));
            (r == 0 <==> s == t) && (r < 0 <==> PlainBefore(s, t))
  {
    ghost var s, t := CStr(m, p), CStr(n, q);
    CStrHeld(m, p);
    CStrHeld(n, q);
    var k: nat := 0;
    var left := if max == 0 then TWO_TO_THE_64 - 1 else max - 1;
    while left > 0 && m[p + k] != NUL && n[q + k] != NUL && m[p + k] == n[q + k]
      invariant k <= |s| && k <= |t| && s[..k] == t[..k] && 0 <= left && k + left + 1 == Compared(max)
      decreases left
    {
      CharAtIs(m, p, s, k);
      CharAtIs(n, q, t, k);
      k := k + 1;
      left := left - 1;
    }
    CharAtIs(m, p, s, k);
    CharAtIs(n, q, t, k);
    r := Plain(m[p + k]) - Plain(n[q + k]);
    TruncatedOrder(s, t, k, Compared(max));
  }

  /** strncmp with n = 0 is 0 on all strings; `mystrncmp` returns 0 there only on equal ones. */
  lemma NCmpZeroDiffers(s: string, t: string)
    requires |s| < TWO_TO_THE_64 && |t| < TWO_TO_THE_64
    ensures (Truncate(s, Compared(0)) == Truncate(t, Compared(0)) <==> Truncate(s, 0) == Truncate(t, 0)) <==> s == t
    ensures Truncate("a", Compared(0)) != Truncate("b", Compared(0))
  {
  }

  // ----- Rows of a two-dimensional char array -----

  function Row(rows: array2<char>, i: nat): (s: seq<char>)
    requires i < rows.Length0
    reads rows
    ensures |s| == rows.Length1 && forall k :: 0 <= k < |s| ==> s[k] == rows[i, k]
  {
    seq(rows.Length1, k requires 0 <= k < rows.Length1 reads rows => rows[i, k])
  }

  /** The string a row holds. */
  function RowStr(rows: array2<char>, i: nat): string
    requires i < rows.Length0
    reads rows
  {
    CStr(Row(rows, i), 0)
  }

  twostate predicate OtherRowsSame(rows: array2<char>, i: nat)
    reads rows
  {
    forall r, k :: 0 <= r < rows.Length0 && 0 <= k < rows.Length1 && r != i ==> rows[r, k] == old(rows[r, k])
  }

  method ZeroRow(rows: array2<char>, i: nat)
    requires i < rows.Length0
    modifies rows
    ensures OtherRowsSame(rows, i) && forall k :: 0 <= k < rows.Length1 ==> rows[i, k] == NUL
  {
    for j := 0 to rows.Length1
      invariant OtherRowsSame(rows, i) && forall k :: 0 <= k < j ==> rows[i, k] == NUL
    {
      rows[i, j] := NUL;
    }
  }

  /** `mystrncpy` into row i: at most `max` characters, then a NUL.  `mystrcpy` is the case in
      which `max` is no limit. */
  method CopyToRow(rows: array2<char>, i: nat, src: seq<char>, p: nat, max: nat)
    requires i < rows.Length0 && Terminated(src, p)
    requires |Truncate(CStr(src, p), max)| < rows.Length1
    modifies rows
    ensures OtherRowsSame(rows, i) && RowStr(rows, i) == Truncate(CStr(src, p), max)
    ensures Terminated(Row(rows, i), 0)
  {
    ghost var s := CStr(src, p);
    CStrHeld(src, p);
    var k: nat := 0;
    while k < max && src[p + k] != NUL
      invariant k <= |s| && k <= max && k < rows.Length1
      invariant OtherRowsSame(rows, i) && forall j :: 0 <= j < k ==> rows[i, j] == s[j]
      decreases |s| - k
    {
      CharAtIs(src, p, s, k);
      rows[i, k] := src[p + k];
      k := k + 1;
    }
    CharAtIs(src, p, s, k);
    rows[i, k] := NUL;
    assert k == |Truncate(s, max)|;
    CStrIs(Row(rows, i), 0, Truncate(s, max));
    assert Row(rows, i)[k] == NUL;
  }
}

