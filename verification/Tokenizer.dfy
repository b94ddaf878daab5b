/** `mystrtok`: one static cursor over a buffer that it cuts with NULs in place. */
module Tokenizer {
  import opened CStrings

  // ----- What a call does to memory -----

  ghost predicate PadAt(m: seq<char>, p: nat, e: nat) {
    p <= e && e + 1 < |m| && m[e] == NUL && m[e + 1] == NUL
  }

  /** Two NULs in a row lie at or after p: what the header asks of every buffer. */
  ghost predicate Padded(m: seq<char>, p: nat) {
    exists e :: PadAt(m, p, e)
  }

  predicate Blank(c: char) { c == ' ' || c == '\t' }

  function SkipBlanksFrom(m: seq<char>, p: nat): (q: nat)
    ensures p <= q && (p <= |m| ==> q <= |m|)
    decreases |m| - p
  {
    if p < |m| && Blank(m[p]) then SkipBlanksFrom(m, p + 1) else p
  }

  function ScanFrom(m: seq<char>, p: nat, delim: char): (q: nat)
    ensures p <= q && (p <= |m| ==> q <= |m|)
    ensures q < |m| ==> m[q] == NUL || m[q] == delim
    decreases |m| - p
  {
    if p < |m| && m[p] != NUL && m[p] != delim then ScanFrom(m, p + 1, delim) else p
  }

  lemma {:induction false} SkipStops(m: seq<char>, p: nat, e: nat)
    requires PadAt(m, p, e)
    ensures SkipBlanksFrom(m, p) <= e
    decreases e - p
  {
    if Blank(m[p]) {
      SkipStops(m, p + 1, e);
    }
  }

  lemma {:induction false} ScanStops(m: seq<char>, p: nat, delim: char, e: nat)
    requires PadAt(m, p, e)
    ensures ScanFrom(m, p, delim) <= e
    decreases e - p
  {
    if m[p] != NUL && m[p] != delim {
      ScanStops(m, p + 1, delim, e);
    }
  }

  lemma TokenEnd(m: seq<char>, p: nat, delim: char)
    requires Padded(m, p)
    ensures ScanFrom(m, SkipBlanksFrom(m, p), delim) + 1 < |m|
  {
    var e: nat :| PadAt(m, p, e);
    SkipStops(m, p, e);
    ScanStops(m, SkipBlanksFrom(m, p), delim, e);
  }

  /** The returned pointer, the memory after the call, and the new cursor (-1 for NULL). */
  datatype Outcome = Outcome(start: nat, mem: seq<char>, next: int)

  function Step(m: seq<char>, p: nat, delim: char): Outcome
    requires Padded(m, p)
  {
    TokenEnd(m, p, delim);
    var start := SkipBlanksFrom(m, p);
    var e := ScanFrom(m, start, delim);
    if m[e] != NUL then Outcome(start, m[e := NUL], e + 1)
    else if m[e + 1] == NUL then Outcome(start, m, -1)
    else Outcome(start, m, e + 1)
  }

  /** A call stays inside the buffer, moves the cursor forward or to NULL, overwrites nothing but
      one delimiter, and leaves a buffer on which the next call is safe. */
  lemma StepIsSafe(m: seq<char>, p: nat, delim: char)
    requires Padded(m, p)
    ensures var r := Step(m, p, delim);
            && |r.mem| == |m| && p <= r.start < |m|
            && Terminated(r.mem, r.start)
            && (r.next == -1 || (r.start < r.next < |m| && Padded(r.mem, r.next)))
            && (forall i :: 0 <= i < |m| && r.mem[i] != m[i] ==> i >= p && m[i] == delim && r.mem[i] == NUL)
  {
    var e: nat :| PadAt(m, p, e);
    var r := Step(m, p, delim);
    TokenEnd(m, p, delim);
    SkipStops(m, p, e);
    ScanStops(m, r.start, delim, e);
    var t := ScanFrom(m, r.start, delim);
    assert r.mem[t] == NUL;
    if r.next != -1 {
      assert PadAt(r.mem, r.next, e);
    }
  }

  // ----- The code -----

  datatype Ptr = Null | At(buf: array<char>, off: nat)

  method RemoveWhitespace(buf: array<char>, p: nat, ghost pad: nat) returns (q: nat)
    requires PadAt(buf[..], p, pad)
    ensures q == SkipBlanksFrom(buf[..], p) && p <= q <= pad
    ensures forall k :: p <= k < q ==> buf[k] == ' ' || buf[k] == '\t'
    ensures buf[q] != ' ' && buf[q] != '\t'
  {
    q := p;
    while buf[q] != NUL && buf[q] != '\n' && (buf[q] == ' ' || buf[q] == '\t')
      invariant p <= q <= pad && SkipBlanksFrom(buf[..], q) == SkipBlanksFrom(buf[..], p)
      invariant forall k :: p <= k < q ==> buf[k] == ' ' || buf[k] == '\t'
      decreases pad - q
    {
      q := q + 1;
    }
  }

  class Lexer {
    /** The static cursor. */
    var nextToken: Ptr

    constructor ()
    {
      nextToken := Null;
    }

    /** The pointer a call works from. */
    function From(str: Ptr): Ptr
      reads this
    {
      if str.At? then str else nextToken
    }

    method MyStrTok(str: Ptr, delim: char) returns (tok: Ptr)
      requires From(str).At? ==> Padded(From(str).buf[..], From(str).off)
      modifies this, if From(str).At? then {From(str).buf} else {}
      ensures old(From(str)).Null? ==> tok.Null? && nextToken.Null?
      ensures old(From(str)).At? ==>
                var p := old(From(str));
                var r := Step(old(p.buf[..]), p.off, delim);
                && tok == At(p.buf, r.start) && p.buf[..] == r.mem
                && nextToken == if r.next < 0 then Null else At(p.buf, r.next)
    {
      if str.At? {
        nextToken := str;
      } else if nextToken.Null? {
        return Null;
      }
      var buf := nextToken.buf;
      ghost var m := buf[..];
      ghost var p := nextToken.off;
      ghost var pad: nat :| PadAt(m, p, pad);
      TokenEnd(m, p, delim);
      SkipStops(m, p, pad);
      var q := RemoveWhitespace(buf, nextToken.off, pad);
      var start := q;
      while buf[q] != NUL && buf[q] != delim
        invariant start <= q <= pad && ScanFrom(m, q, delim) == ScanFrom(m, start, delim)
        decreases pad - q
      {
        q := q + 1;
      }
      if buf[q] != NUL {
        buf[q] := NUL;
        nextToken := At(buf, q + 1);
      } else if buf[q + 1] == NUL {
        nextToken := Null;
      } else {
        nextToken := At(buf, q + 1);
      }
      tok := At(buf, start);
    }
  }

  // ----- What it is for: splitting text -----

  function SkipBlanks(t: string): string {
    if t != [] && Blank(t[0]) then SkipBlanks(t[1..]) else t
  }

  function UpTo(t: string, delim: char): (s: string)
    ensures s <= t && (|s| < |t| ==> t[|s|] == delim) && delim !in s
  {
    if t == [] || t[0] == delim then [] else [t[0]] + UpTo(t[1..], delim)
  }

  lemma {:induction false} SkipBlanksLength(t: string)
    ensures |SkipBlanks(t)| <= |t| && t[|t| - |SkipBlanks(t)|..] == SkipBlanks(t)
    decreases |t|
  {
    if t != [] && Blank(t[0]) {
      SkipBlanksLength(t[1..]);
    }
  }

  /** The tokens of a text: each skips leading blanks and ends before the next delimiter; a text
      that ends in a delimiter has a last, empty, token. */
  function Tokens(t: string, delim: char): seq<string>
    decreases |t|
  {
    var s := SkipBlanks(t);
    var tok := UpTo(s, delim);
    SkipBlanksLength(t);
    if |tok| == |s| then [tok] else [tok] + Tokens(s[|tok| + 1..], delim)
  }

  /** Memory holds `text` at p, ended by a NUL that is not the last cell. */
  ghost predicate Segment(m: seq<char>, p: nat, text: string) {
    p + |text| + 1 < |m| && HoldsText(m, p, text)
  }

  /** The same, ended by two NULs. */
  ghost predicate Text(m: seq<char>, p: nat, text: string) {
    Segment(m, p, text) && m[p + |text| + 1] == NUL
  }

  lemma TextPadded(m: seq<char>, p: nat, text: string)
    requires Text(m, p, text)
    ensures Padded(m, p)
  {
    assert PadAt(m, p, p + |text|);
  }

  lemma SegmentTail(m: seq<char>, p: nat, text: string, k: nat)
    requires Segment(m, p, text) && k <= |text|
    ensures Segment(m, p + k, text[k..])
    ensures k < |text| ==> m[p + k] == text[k]
  {
    HoldsTail(m, p, text, k);
  }

  lemma {:induction false} SegmentSkip(m: seq<char>, p: nat, text: string)
    requires Segment(m, p, text)
    ensures SkipBlanksFrom(m, p) == p + |text| - |SkipBlanks(text)|
    decreases |text|
  {
    if text != [] {
      SegmentTail(m, p, text, 1);
      SegmentTail(m, p, text, 0);
      if Blank(text[0]) {
        SegmentSkip(m, p + 1, text[1..]);
      }
    }
  }

  lemma {:induction false} SegmentScan(m: seq<char>, p: nat, text: string, delim: char)
    requires Segment(m, p, text) && delim != NUL
    ensures ScanFrom(m, p, delim) == p + |UpTo(text, delim)|
    decreases |text|
  {
    if text != [] {
      SegmentTail(m, p, text, 0);
      if text[0] != delim {
        SegmentTail(m, p, text, 1);
        SegmentScan(m, p + 1, text[1..], delim);
      }
    }
  }

  lemma SegmentToken(m: seq<char>, p: nat, text: string)
    requires Segment(m, p, text)
    ensures |SkipBlanks(text)| <= |text| && Segment(m, p + |text| - |SkipBlanks(text)|, SkipBlanks(text))
  {
    SkipBlanksLength(text);
    SegmentTail(m, p, text, |text| - |SkipBlanks(text)|);
  }

  /** Where a call on a segment starts and stops. */
  lemma SegmentEnds(m: seq<char>, p: nat, text: string, delim: char)
    requires Segment(m, p, text) && delim != NUL
    ensures var s := SkipBlanks(text);
            && |s| <= |text|
            && SkipBlanksFrom(m, p) == p + |text| - |s|
            && ScanFrom(m, p + |text| - |s|, delim) == p + |text| - |s| + |UpTo(s, delim)|
            && Segment(m, p + |text| - |s|, s)
  {
    SegmentSkip(m, p, text);
    SegmentToken(m, p, text);
    SegmentScan(m, p + |text| - |SkipBlanks(text)|, SkipBlanks(text), delim);
  }

  /** The part of a segment beyond position e does not change when cell e does. */
  lemma SegmentBeyond(m: seq<char>, e: nat, p: nat, text: string)
    requires Segment(m, p, text) && e < p
    ensures Segment(m[e := NUL], p, text)
  {
    HoldsBeyond(m, e, p, text);
  }

  lemma CutToken(m: seq<char>, a: nat, s: string, k: nat)
    requires Segment(m, a, s) && k < |s|
    ensures CStr(m[a + k := NUL], a) == s[..k] && Segment(m[a + k := NUL], a, s[..k])
  {
    HoldsCut(m, a, s, k);
  }

  /** Cutting a segment at its first delimiter leaves the token and the rest. */
  lemma CutSegment(m: seq<char>, a: nat, s: string, k: nat)
    requires Segment(m, a, s) && k < |s|
    ensures m[a + k] == s[k] && CStr(m[a + k := NUL], a) == s[..k] && Segment(m[a + k := NUL], a, s[..k])
    ensures Segment(m[a + k := NUL], a + k + 1, s[k + 1..])
  {
    SegmentTail(m, a, s, k);
    SegmentTail(m, a, s, k + 1);
    SegmentBeyond(m, a + k, a + k + 1, s[k + 1..]);
    CutToken(m, a, s, k);
  }

  /** The cut that ends a token. */
  lemma CutAtDelimiter(m: seq<char>, a: nat, s: string, delim: char)
    requires Segment(m, a, s) && |UpTo(s, delim)| < |s|
    ensures var k := |UpTo(s, delim)|;
            CStr(m[a + k := NUL], a) == UpTo(s, delim) && Segment(m[a + k := NUL], a + k + 1, s[k + 1..])
  {
    CutSegment(m, a, s, |UpTo(s, delim)|);
  }

  /** `Step` for a token that runs from a to e. */
  lemma StepFrom(m: seq<char>, p: nat, delim: char, a: nat, e: nat)
    requires Padded(m, p) && a == SkipBlanksFrom(m, p) && e == ScanFrom(m, a, delim)
    ensures e + 1 < |m|
    ensures m[e] != NUL ==> Step(m, p, delim) == Outcome(a, m[e := NUL], e + 1)
    ensures m[e] == NUL ==> Step(m, p, delim) == Outcome(a, m, if m[e + 1] == NUL then -1 else e + 1)
  {
    TokenEnd(m, p, delim);
  }

  lemma StepAtToken(m: seq<char>, p: nat, text: string, delim: char)
    requires Segment(m, p, text) && Padded(m, p) && delim != NUL
    requires |UpTo(SkipBlanks(text), delim)| < |SkipBlanks(text)| <= |text|
    ensures var a, k := p + |text| - |SkipBlanks(text)|, |UpTo(SkipBlanks(text), delim)|;
            a + k < |m| && Step(m, p, delim) == Outcome(a, m[a + k := NUL], a + k + 1)
  {
    var s := SkipBlanks(text);
    var a, k := p + |text| - |s|, |UpTo(s, delim)|;
    SegmentEnds(m, p, text, delim);
    SegmentTail(m, a, s, k);
    StepFrom(m, p, delim, a, a + k);
  }

  /** One call on a segment in which a delimiter follows the first token: it returns that token,
      cuts the delimiter, and moves the cursor to what is left. */
  lemma StepCuts(m: seq<char>, p: nat, text: string, delim: char)
    requires Segment(m, p, text) && Padded(m, p) && delim != NUL
    requires |UpTo(SkipBlanks(text), delim)| < |SkipBlanks(text)|
    ensures var r := Step(m, p, delim);
            var s := SkipBlanks(text);
            var k := |UpTo(s, delim)|;
            && |s| <= |text| && r.start == p + |text| - |s|
            && CStr(r.mem, r.start) == UpTo(s, delim)
            && r.mem == m[r.start + k := NUL]
            && r.next == r.start + k + 1 && Segment(r.mem, r.next, s[k + 1..])
  {
    SegmentToken(m, p, text);
    CutAtDelimiter(m, p + |text| - |SkipBlanks(text)|, SkipBlanks(text), delim);
    StepAtToken(m, p, text, delim);
  }

  /** One call on a segment that is a single token: nothing is cut, and the cursor steps over the
      NUL, or becomes NULL when another NUL follows. */
  lemma StepEnds(m: seq<char>, p: nat, text: string, delim: char)
    requires Segment(m, p, text) && Padded(m, p) && delim != NUL
    requires UpTo(SkipBlanks(text), delim) == SkipBlanks(text)
    ensures var r := Step(m, p, delim);
            && |SkipBlanks(text)| <= |text| && r.start == p + |text| - |SkipBlanks(text)|
            && CStr(r.mem, r.start) == SkipBlanks(text) && r.mem == m
            && r.next == if m[p + |text| + 1] == NUL then -1 else p + |text| + 1
  {
    var s := SkipBlanks(text);
    SegmentEnds(m, p, text, delim);
    StepFrom(m, p, delim, p + |text| - |s|, p + |text|);
  }

  /** The two cases again for a text without leading blanks, with every value spelled out. */
  lemma StepCutsAt(m: seq<char>, p: nat, text: string, delim: char, k: nat)
    requires Segment(m, p, text) && Padded(m, p) && delim != NUL
    requires SkipBlanks(text) == text && k < |text| && UpTo(text, delim) == text[..k]
    ensures Step(m, p, delim) == Outcome(p, m[p + k := NUL], p + k + 1)
  {
    SegmentEnds(m, p, text, delim);
    SegmentTail(m, p, text, k);
    StepFrom(m, p, delim, p, p + k);
  }

  lemma StepEndsAt(m: seq<char>, p: nat, text: string, delim: char)
    requires Segment(m, p, text) && Padded(m, p) && delim != NUL
    requires SkipBlanks(text) == text && UpTo(text, delim) == text
    ensures Step(m, p, delim) == Outcome(p, m, if m[p + |text| + 1] == NUL then -1 else p + |text| + 1)
    ensures CStr(m, p) == text
  {
    StepEnds(m, p, text, delim);
  }

  /** On a doubly terminated text, what follows the cut is doubly terminated too. */
  lemma CutKeepsText(m: seq<char>, a: nat, s: string, k: nat)
    requires Text(m, a, s) && k < |s|
    ensures Text(m[a + k := NUL], a + k + 1, s[k + 1..])
  {
    CutSegment(m, a, s, k);
  }

  /** The same for the text after its leading blanks. */
  lemma TokenCutKeepsText(m: seq<char>, p: nat, text: string, k: nat)
    requires Text(m, p, text) && k < |SkipBlanks(text)| <= |text|
    ensures var a := p + |text| - |SkipBlanks(text)|;
            Text(m[a + k := NUL], a + k + 1, SkipBlanks(text)[k + 1..])
  {
    SegmentToken(m, p, text);
    CutKeepsText(m, p + |text| - |SkipBlanks(text)|, SkipBlanks(text), k);
  }

  lemma TextCuts(m: seq<char>, p: nat, text: string, delim: char)
    requires Text(m, p, text) && Padded(m, p) && delim != NUL
    requires |UpTo(SkipBlanks(text), delim)| < |SkipBlanks(text)|
    ensures var r := Step(m, p, delim);
            var s := SkipBlanks(text);
            var k := |UpTo(s, delim)|;
            r.next >= 0 && CStr(r.mem, r.start) == UpTo(s, delim) && Text(r.mem, r.next, s[k + 1..])
  {
    StepCuts(m, p, text, delim);
    TokenCutKeepsText(m, p, text, |UpTo(SkipBlanks(text), delim)|);
  }

  lemma TokenIsAllOrLess(s: string, delim: char)
    ensures |UpTo(s, delim)| < |s| || UpTo(s, delim) == s
  {
  }

  // ----- Iterating it -----

  /** The strings that repeated calls return, each read when it is returned, and the memory left. */
  function Iterate(m: seq<char>, p: nat, delim: char): (r: (seq<string>, seq<char>))
    requires Padded(m, p)
    decreases |m| - p
  {
    StepIsSafe(m, p, delim);
    var r := Step(m, p, delim);
    var tok := CStr(r.mem, r.start);
    if r.next < 0 then ([tok], r.mem)
    else
      var rest := Iterate(r.mem, r.next, delim);
      ([tok] + rest.0, rest.1)
  }

  /** Iterating `mystrtok` over a doubly terminated buffer is splitting its text. */
  lemma {:induction false} IterateSplits(m: seq<char>, p: nat, text: string, delim: char)
    requires Text(m, p, text) && Padded(m, p) && delim != NUL
    ensures Iterate(m, p, delim).0 == Tokens(text, delim)
    decreases |m| - p
  {
    StepIsSafe(m, p, delim);
    var s := SkipBlanks(text);
    var k := |UpTo(s, delim)|;
    TokenIsAllOrLess(s, delim);
    if k < |s| {
      TextCuts(m, p, text, delim);
      var r := Step(m, p, delim);
      IterateSplits(r.mem, r.next, s[k + 1..], delim);
    } else {
      StepEnds(m, p, text, delim);
    }
  }

  /** All it ever changes are delimiters, and only to NUL. */
  lemma {:induction false} IterateCutsDelimiters(m: seq<char>, p: nat, delim: char)
    requires Padded(m, p)
    ensures |Iterate(m, p, delim).1| == |m|
    ensures forall i :: 0 <= i < |m| && Iterate(m, p, delim).1[i] != m[i] ==>
              i >= p && m[i] == delim && Iterate(m, p, delim).1[i] == NUL
    decreases |m| - p
  {
    StepIsSafe(m, p, delim);
    var r := Step(m, p, delim);
    if r.next >= 0 {
      IterateCutsDelimiters(r.mem, r.next, delim);
    }
  }

  lemma {:induction false} NoLeadingBlank(t: string)
    ensures SkipBlanks(t) != [] ==> SkipBlanks(t)[0] != ' ' && SkipBlanks(t)[0] != '\t'
    decreases |t|
  {
    if t != [] && Blank(t[0]) {
      NoLeadingBlank(t[1..]);
    }
  }

  /** What is skipped are blanks and tabs, all of them. */
  lemma {:induction false} SkipsOnlyBlanks(t: string)
    ensures var k := |t| - |SkipBlanks(t)|;
            && 0 <= k && t[k..] == SkipBlanks(t)
            && (forall i :: 0 <= i < k ==> t[i] == ' ' || t[i] == '\t')
            && (k < |t| ==> t[k] != ' ' && t[k] != '\t')
    decreases |t|
  {
    if t != [] && Blank(t[0]) {
      SkipsOnlyBlanks(t[1..]);
    }
  }

  /** At most the last token is empty, when the text is split at blanks. */
  lemma {:induction false} OnlyLastEmpty(text: string)
    ensures forall i :: 0 <= i < |Tokens(text, ' ')| - 1 ==> Tokens(text, ' ')[i] != []
    decreases |text|
  {
    var s := SkipBlanks(text);
    SkipBlanksLength(text);
    NoLeadingBlank(text);
    var tok := UpTo(s, ' ');
    if |tok| < |s| {
      OnlyLastEmpty(s[|tok| + 1..]);
    }
  }
}

