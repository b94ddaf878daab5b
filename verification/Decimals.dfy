/** Decimal printing: `myitoa` of src/mystring.c, and `int_to_str` of assets/DFS/dfs.c with its
    reversal by exclusive or. */
module Decimals {
  /** A char as bits. */
  type Octet = bv8
  type Text = seq<Octet>

  const NUL: Octet := 0
  const ZERO: Octet := 48
  const MINUS: Octet := 45

  // ----- Numerals -----

  /** The character d + '0'. */
  function Digit(d: nat): Octet
    requires d < 10
  {
    if d == 0 then ZERO else if d == 1 then 49 else if d == 2 then 50 else if d == 3 then 51
    else if d == 4 then 52 else if d == 5 then 53 else if d == 6 then 54 else if d == 7 then 55
    else if d == 8 then 56 else 57
  }

  /** The number that a digit character stands for. */
  function Value(c: Octet): nat {
    if c == 49 then 1 else if c == 50 then 2 else if c == 51 then 3 else if c == 52 then 4
    else if c == 53 then 5 else if c == 54 then 6 else if c == 55 then 7 else if c == 56 then 8
    else if c == 57 then 9 else 0
  }

  lemma DigitIsDigit(d: nat)
    requires d < 10
    ensures Value(Digit(d)) == d && 48 <= Digit(d) <= 57 && Digit(d) != MINUS
    ensures Digit(d) == ZERO ==> d == 0
  {
  }

  /** The digits are the characters 48 to 57, in the order of what they stand for. */
  lemma DigitCharacters(d: nat)
    requires d < 10
    ensures Digit(d) as int == 48 + d
  {
  }

  function Decimal(n: nat): Text {
    if n < 10 then [Digit(n)] else Decimal(n / 10) + [Digit(n % 10)]
  }

  predicate IsNumeral(t: Text) {
    t != [] && forall i :: 0 <= i < |t| ==> 48 <= t[i] <= 57
  }

  function Parse(t: Text): int {
    if t == [] then 0 else 10 * Parse(t[..|t| - 1]) + Value(t[|t| - 1])
  }

  function Signed(num: int): Text {
    if num < 0 then [MINUS] + Decimal(-num) else Decimal(num)
  }

  function ParseSigned(t: Text): int {
    if t != [] && t[0] == MINUS then -Parse(t[1..]) else Parse(t)
  }

  lemma {:induction false} ParseDecimal(n: nat)
    ensures Parse(Decimal(n)) == n && IsNumeral(Decimal(n))
    ensures |Decimal(n)| > 1 ==> Decimal(n)[0] != ZERO
  {
    DigitIsDigit(n % 10);
    if n >= 10 {
      ParseDecimal(n / 10);
      var d := Decimal(n);
      assert d[..|d| - 1] == Decimal(n / 10);
      if |Decimal(n / 10)| == 1 {
        assert Decimal(n / 10) == [Digit(n / 10)];
        DigitIsDigit(n / 10);
      }
    } else {
      assert Decimal(n)[..0] == [];
    }
  }

  /** The numeral of an int determines it: a minus sign, character 45, when it is negative, then
      digits without a leading zero. */
  lemma ParseOfSigned(num: int)
    ensures ParseSigned(Signed(num)) == num
    ensures var d := if num < 0 then Signed(num)[1..] else Signed(num);
            IsNumeral(d) && (|d| > 1 ==> d[0] != 48)
    ensures num < 0 ==> Signed(num)[0] == 45
  {
    ParseDecimal(if num < 0 then -num else num);
  }

  function Pow10(k: nat): nat {
    if k == 0 then 1 else 10 * Pow10(k - 1)
  }

  lemma {:induction false} DecimalLength(n: nat, k: nat, bound: nat)
    requires n < bound && bound == Pow10(k) && k > 0
    ensures |Decimal(n)| <= k
  {
    if n >= 10 {
      DecimalLength(n / 10, k - 1, Pow10(k - 1));
    }
  }

  // ----- Reversal in place -----

  function Reversed(t: Text): (r: Text)
    ensures |r| == |t|
  {
    if t == [] then [] else Reversed(t[1..]) + [t[0]]
  }

  lemma {:induction false} ReversedAt(t: Text, k: nat)
    requires k < |t|
    ensures Reversed(t)[k] == t[|t| - 1 - k]
  {
    if k < |t| - 1 {
      ReversedAt(t[1..], k);
    }
  }

  lemma ReversedIs(t: Text, r: Text)
    requires |r| == |t| && forall k :: 0 <= k < |t| ==> r[k] == t[|t| - 1 - k]
    ensures r == Reversed(t)
  {
    forall k | 0 <= k < |t| ensures r[k] == Reversed(t)[k] {
      ReversedAt(t, k);
    }
  }

  lemma ReversedAppend(t: Text, c: Octet)
    ensures Reversed(t + [c]) == [c] + Reversed(t)
  {
    forall k | 0 <= k < |t| + 1
      ensures ([c] + Reversed(t))[k] == (t + [c])[|t| - k]
    {
      if k > 0 {
        ReversedAt(t, k - 1);
      }
    }
    ReversedIs(t + [c], [c] + Reversed(t));
  }

  /** The first `lo` and last `lo` of the first n cells are exchanged. */
  predicate HalfReversed(was: Text, now: Text, n: nat, lo: nat) {
    && n <= |was| == |now|
    && (forall k :: 0 <= k < n && (k < lo || k >= n - lo) ==> now[k] == was[n - 1 - k])
    && (forall k :: 0 <= k < |was| && (lo <= k < n - lo || k >= n) ==> now[k] == was[k])
  }

  lemma FullyReversed(was: Text, now: Text, n: nat, lo: nat)
    requires HalfReversed(was, now, n, lo) && 2 * lo + 1 >= n
    ensures now[..n] == Reversed(was[..n]) && now[n..] == was[n..]
  {
    assert forall k :: 0 <= k < n ==> now[..n][k] == was[..n][n - 1 - k];
    ReversedIs(was[..n], now[..n]);
  }

  // ----- myitoa -----

  /** The last loop of `myitoa`, on cells 0 to n-1. */
  method SwapReverse(str: array<Octet>, n: nat)
    requires n <= str.Length
    modifies str
    ensures str[..n] == Reversed(old(str[..n]))
    ensures forall k :: n <= k < str.Length ==> str[k] == old(str[k])
  {
    ghost var was := str[..];
    var start, end := 0, n - 1;
    while start < end
      invariant 0 <= start && start + end == n - 1
      invariant HalfReversed(was, str[..], n, start)
      decreases end - start
    {
      var tmp := str[start];
      str[start] := str[end];
      str[end] := tmp;
      start := start + 1;
      end := end - 1;
    }
    FullyReversed(was, str[..], n, start);
    assert was[..n] == old(str[..n]) && str[..n] == str[..][..n];
    assert forall k :: n <= k < str.Length ==> str[k] == str[..][n..][k - n] == was[n..][k - n] == was[k];
  }

  lemma Regroup(a: Text, b: Text, d: Text)
    ensures (a + b) + d == a + (b + d) && [] + b == b
  {
  }

  lemma NextDigit(n: nat, written: seq<Octet>)
    requires n > 0
    ensures Decimal(n) + Reversed(written) ==
            (if n / 10 == 0 then [] else Decimal(n / 10)) + Reversed(written + [Digit(n % 10)])
    ensures |Decimal(n)| == (if n / 10 == 0 then 0 else |Decimal(n / 10)|) + 1
  {
    ReversedAppend(written, Digit(n % 10));
    Regroup(if n / 10 == 0 then [] else Decimal(n / 10), [Digit(n % 10)], Reversed(written));
  }

  /** The digit loop: least significant digit first. */
  method DigitsBackwards(num: nat, str: array<Octet>) returns (i: nat)
    requires num > 0 && |Decimal(num)| <= str.Length
    modifies str
    ensures 0 < i <= str.Length && Reversed(str[..i]) == Decimal(num) && i == |Decimal(num)|
    ensures forall k :: i <= k < str.Length ==> str[k] == old(str[k])
  {
    i := 0;
    var n := num;
    while n != 0
      invariant 0 <= n && i + (if n == 0 then 0 else |Decimal(n)|) == |Decimal(num)|
      invariant Decimal(num) == (if n == 0 then [] else Decimal(n)) + Reversed(str[..i])
      invariant forall k :: i <= k < str.Length ==> str[k] == old(str[k])
      decreases n
    {
      var rem := n % 10;
      str[i] := Digit(rem);
      assert str[..i + 1] == str[..i] + [Digit(rem)];
      NextDigit(n, str[..i]);
      i := i + 1;
      n := n / 10;
    }
  }

  /** Every int but the most negative one. */
  predicate IsNegatable(num: int) { -0x8000_0000 < num < 0x8000_0000 }

  method MyItoa(num: int, str: array<Octet>) returns (len: nat)
    requires IsNegatable(num) && str.Length >= 12
    modifies str
    ensures len <= 11 && str[..len] == Signed(num) && str[len] == NUL
    ensures forall k :: len < k < str.Length ==> str[k] == old(str[k])
  {
    if num == 0 {
      str[0] := ZERO;
      str[1] := NUL;
      return 1;
    }
    var n := if num < 0 then -num else num;
    DecimalLength(n, 10, Pow10(10));
    var i := DigitsBackwards(n, str);
    ghost var digits := str[..i];
    if num < 0 {
      str[i] := MINUS;
      assert str[..i + 1] == digits + [MINUS];
      ReversedAppend(digits, MINUS);
      i := i + 1;
    }
    str[i] := NUL;
    assert str[..i] == if num < 0 then digits + [MINUS] else digits;
    SwapReverse(str, i);
    len := i;
  }

  // ----- int_to_str -----

  function Xor(a: Octet, b: Octet): Octet { a ^ b }

  /** Three exclusive ors exchange two bytes. */
  lemma XorSwaps(a: Octet, b: Octet)
    ensures var s := Xor(a, b);
            var e := Xor(s, b);
            e == a && Xor(s, e) == b
  {
  }

  /** The body of `reverse_str`, on two different cells. */
  method XorSwap(str: array<Octet>, start: nat, end: nat)
    requires start < end < str.Length
    modifies str
    ensures str[start] == old(str[end]) && str[end] == old(str[start])
    ensures forall k :: 0 <= k < str.Length && k != start && k != end ==> str[k] == old(str[k])
  {
    XorSwaps(str[start], str[end]);
    str[start] := Xor(str[start], str[end]);
    str[end] := Xor(str[start], str[end]);
    str[start] := Xor(str[start], str[end]);
  }

  /** `reverse_str` on cells 0 to n-1. */
  method ReverseStr(str: array<Octet>, n: nat)
    requires 0 < n <= str.Length
    modifies str
    ensures str[..n] == Reversed(old(str[..n])) && str[n..] == old(str[n..])
  {
    ghost var was := str[..];
    var start, end := 0, n - 1;
    while start < end
      invariant 0 <= start && start + end == n - 1
      invariant HalfReversed(was, str[..], n, start)
      decreases end - start
    {
      XorSwap(str, start, end);
      start := start + 1;
      end := end - 1;
    }
    FullyReversed(was, str[..], n, start);
    assert was[..n] == old(str[..n]) && was[n..] == old(str[n..]);
    assert str[..n] == str[..][..n] && str[n..] == str[..][n..];
  }

  lemma DecimalUnfold(n: nat, done: Text)
    ensures Decimal(n) + Reversed(done)
         == (if n < 10 then [] else Decimal(n / 10)) + Reversed(done + [Digit(n % 10)])
  {
    ReversedAppend(done, Digit(n % 10));
  }

  /** The loop of `int_to_str`: a do-while, so that 0 has a digit. */
  method DigitsDoWhile(num: nat, str: array<Octet>) returns (i: nat)
    requires |Decimal(num)| < str.Length
    modifies str
    ensures i == |Decimal(num)| && Reversed(str[..i]) == Decimal(num)
  {
    i := 0;
    var n := num;
    while true
      invariant 0 <= n && i + |Decimal(n)| == |Decimal(num)|
      invariant Decimal(num) == Decimal(n) + Reversed(str[..i])
      decreases n
    {
      DecimalUnfold(n, str[..i]);
      str[i] := Digit(n % 10);
      assert str[..i + 1] == str[..i] + [Digit(n % 10)];
      i := i + 1;
      n := n / 10;
      if n == 0 { break; }
    }
  }

  method IntToStr(num: nat, str: array<Octet>) returns (len: nat)
    requires |Decimal(num)| < str.Length
    modifies str
    ensures len == |Decimal(num)| && str[..len] == Decimal(num) && str[len] == NUL
  {
    len := DigitsDoWhile(num, str);
    ghost var digits := str[..len];
    str[len] := NUL;
    assert str[..len] == digits;
    ReverseStr(str, len);
    assert str[len] == str[len..][0];
  }
}

