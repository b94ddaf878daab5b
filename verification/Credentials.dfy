/** The credentials file: `load_credentials` tokenizes lines with `mystrtok`, and inside that loop
    `load_user_and_password` tokenizes each line with the same static cursor. */
module Credentials {
  import opened Bytes
  import opened CStrings
  import opened Tokenizer

  const USER_MAX := 1000
  const CREDENTIAL_LEN := 256
  const MAXREAD := 1024

  datatype Credential = Credential(user: string, password: string)

  predicate IsField(w: string) {
    && w != [] && |w| < CREDENTIAL_LEN
    && forall i :: 0 <= i < |w| ==> w[i] != ' ' && w[i] != '\t' && w[i] != '\n' && w[i] != NUL
  }

  predicate IsCredential(c: Credential) {
    IsField(c.user) && IsField(c.password)
  }

  function Line(c: Credential): string {
    c.user + [' '] + c.password
  }

  /** The text of a credentials file, with or without a newline after the last line. */
  function FileText(cs: seq<Credential>, newline: bool): string
    requires cs != []
  {
    if |cs| == 1 then Line(cs[0]) + (if newline then ['\n'] else [])
    else Line(cs[0]) + ['\n'] + FileText(cs[1..], newline)
  }

  ghost predicate AllCredentials(cs: seq<Credential>) {
    forall k :: 0 <= k < |cs| ==> IsCredential(cs[k])
  }

  lemma {:induction false} FileTextFacts(cs: seq<Credential>, newline: bool)
    requires cs != [] && AllCredentials(cs)
    ensures NUL !in FileText(cs, newline)
    ensures |FileText(cs, newline)| >= 3 * |cs|
  {
    assert IsCredential(cs[0]);
    if |cs| > 1 {
      FileTextFacts(cs[1..], newline);
    }
  }

  lemma {:induction false} UpToAt(t: string, k: nat, delim: char)
    requires k <= |t| && delim !in t[..k] && (k < |t| ==> t[k] == delim)
    ensures UpTo(t, delim) == t[..k]
  {
    if k > 0 {
      assert t[..k][0] == t[0] && t[1..][..k - 1] == t[..k][1..];
      UpToAt(t[1..], k - 1, delim);
    }
  }

  datatype Following = Nothing | More(text: string)

  /** What the file has after the first line and its newline. */
  function AfterFirst(cs: seq<Credential>, newline: bool): Following
    requires cs != []
  {
    if |cs| == 1 then Nothing else More(FileText(cs[1..], newline))
  }

  /** How the text of a file begins: with a line, and then, if there is a newline to cut at, the
      newline and what follows. */
  ghost predicate Begins(t: string, line: string, f: Following, newline: bool) {
    match f
    case Nothing => t == line + (if newline then ['\n'] else []) && SkipBlanks(t) == t && UpTo(t, '\n') == line
    case More(text) => newline && t == line + ['\n'] + text && SkipBlanks(t) == t && UpTo(t, '\n') == line
  }

  lemma FirstLine(cs: seq<Credential>, newline: bool)
    requires cs != [] && AllCredentials(cs)
    ensures Begins(FileText(cs, newline), Line(cs[0]), AfterFirst(cs, newline), |cs| > 1 || newline)
  {
    var t, line := FileText(cs, newline), Line(cs[0]);
    assert IsCredential(cs[0]);
    assert t[..|line|] == line;
    UpToAt(t, |line|, '\n');
  }

  lemma SplitLine(c: Credential)
    requires IsCredential(c)
    ensures var t := Line(c);
            && SkipBlanks(t) == t && UpTo(t, ' ') == c.user && |c.user| < |t|
            && t[|c.user| + 1..] == c.password
            && SkipBlanks(c.password) == c.password && UpTo(c.password, ' ') == c.password
    ensures NUL !in Line(c)
  {
    assert Line(c)[..|c.user|] == c.user;
    UpToAt(Line(c), |c.user|, ' ');
    assert c.password[..|c.password|] == c.password;
    UpToAt(c.password, |c.password|, ' ');
  }

  // ----- Memory between two turns of the outer loop -----

  /** A line that the outer call has cut: its text, a NUL, and then either the rest of the file or,
      after the last line, another NUL. */
  ghost predicate LineIs(m: seq<char>, p: nat, line: string, f: Following) {
    match f
    case Nothing => Segment(m, p, line) && m[p + |line| + 1] == NUL
    case More(text) => Segment(m, p, line) && Text(m, p + |line| + 1, text)
  }

  ghost predicate LineAt(m: seq<char>, p: nat, cs: seq<Credential>, newline: bool)
    requires cs != []
  {
    LineIs(m, p, Line(cs[0]), AfterFirst(cs, newline))
  }

  lemma LinePadded(m: seq<char>, p: nat, cs: seq<Credential>, newline: bool)
    requires cs != [] && LineAt(m, p, cs, newline)
    ensures Padded(m, p)
  {
    var n := |Line(cs[0])|;
    if |cs| == 1 {
      assert PadAt(m, p, p + n);
    } else {
      assert PadAt(m, p, p + n + 1 + |FileText(cs[1..], newline)|);
    }
  }

  /** The memory after an outer call: the next line's newline, if it has one, is a NUL. */
  function LineCut(m: seq<char>, p: nat, cs: seq<Credential>, newline: bool): seq<char>
    requires cs != [] && p + |Line(cs[0])| < |m|
  {
    if |cs| > 1 || newline then m[p + |Line(cs[0])| := NUL] else m
  }

  lemma BeginsParts(t: string, line: string, f: Following)
    requires Begins(t, line, f, true)
    ensures |line| < |t| && t[..|line|] == line && t[|line| + 1..] == match f case Nothing => [] case More(text) => text
  {
  }

  /** The call when there is a newline to cut at. */
  lemma CutLine(m: seq<char>, p: nat, t: string, line: string, f: Following)
    requires Text(m, p, t) && Padded(m, p) && Begins(t, line, f, true)
    ensures p + |line| < |m| && Step(m, p, '\n') == Outcome(p, m[p + |line| := NUL], p + |line| + 1)
  {
    BeginsParts(t, line, f);
    StepCutsAt(m, p, t, '\n', |line|);
  }

  lemma LineOf(m: seq<char>, p: nat, line: string, f: Following)
    requires Segment(m, p, line)
    requires Text(m, p + |line| + 1, match f case Nothing => [] case More(text) => text)
    ensures LineIs(m, p, line, f)
  {
  }

  lemma CutAtLine(m: seq<char>, p: nat, t: string, line: string, f: Following)
    requires Text(m, p, t) && Begins(t, line, f, true)
    ensures p + |line| < |m| && LineIs(m[p + |line| := NUL], p, line, f)
  {
    BeginsParts(t, line, f);
    CutSegment(m, p, t, |line|);
    CutKeepsText(m, p, t, |line|);
    LineOf(m[p + |line| := NUL], p, line, f);
  }

  /** The call on a last line without a newline. */
  lemma LastLine(m: seq<char>, p: nat, t: string, line: string, f: Following)
    requires Text(m, p, t) && Padded(m, p) && Begins(t, line, f, false)
    ensures p + |line| < |m| && Step(m, p, '\n') == Outcome(p, m, -1) && LineIs(m, p, line, f)
  {
    assert t == line;
    StepEndsAt(m, p, t, '\n');
  }

  lemma BeginStep(m: seq<char>, p: nat, t: string, line: string, f: Following, newline: bool)
    requires Text(m, p, t) && Padded(m, p) && Begins(t, line, f, newline)
    ensures p + |line| < |m| && Step(m, p, '\n').start == p
    ensures var m' := if newline then m[p + |line| := NUL] else m;
            Step(m, p, '\n').mem == m' && LineIs(m', p, line, f)
  {
    if newline {
      CutLine(m, p, t, line, f);
      CutAtLine(m, p, t, line, f);
    } else {
      LastLine(m, p, t, line, f);
    }
  }

  /** The outer call cuts the next line out of what is left of the file. */
  lemma OuterStep(m: seq<char>, p: nat, cs: seq<Credential>, newline: bool)
    requires cs != [] && AllCredentials(cs) && Text(m, p, FileText(cs, newline)) && Padded(m, p)
    ensures p + |Line(cs[0])| < |m|
    ensures Step(m, p, '\n').start == p && Step(m, p, '\n').mem == LineCut(m, p, cs, newline)
    ensures LineAt(LineCut(m, p, cs, newline), p, cs, newline)
  {
    FirstLine(cs, newline);
    BeginStep(m, p, FileText(cs, newline), Line(cs[0]), AfterFirst(cs, newline), |cs| > 1 || newline);
  }

  /** The memory after the first inner call. */
  function UserCut(m: seq<char>, p: nat, c: Credential): seq<char>
    requires p + |c.user| < |m|
  {
    m[p + |c.user| := NUL]
  }

  lemma UserCutKeepsRest(m: seq<char>, p: nat, cs: seq<Credential>, newline: bool)
    requires |cs| > 1 && AllCredentials(cs) && LineAt(m, p, cs, newline)
    ensures var m' := UserCut(m, p, cs[0]);
            var q := p + |Line(cs[0])| + 1;
            Text(m', q, FileText(cs[1..], newline)) && m'[q] != NUL
  {
    var t := FileText(cs[1..], newline);
    var q := p + |Line(cs[0])| + 1;
    FileTextFacts(cs[1..], newline);
    SegmentBeyond(m, p + |cs[0].user|, q, t);
    SegmentTail(m, q, t, 0);
  }

  lemma SplitSegment(m: seq<char>, p: nat, c: Credential)
    requires IsCredential(c) && Segment(m, p, Line(c)) && Padded(m, p)
    ensures var k := |c.user|;
            && Step(m, p, ' ') == Outcome(p, UserCut(m, p, c), p + k + 1)
            && CStr(UserCut(m, p, c), p) == c.user
            && Segment(UserCut(m, p, c), p + k + 1, c.password)
  {
    SplitLine(c);
    assert Line(c)[..|c.user|] == c.user;
    StepCutsAt(m, p, Line(c), ' ', |c.user|);
    CutSegment(m, p, Line(c), |c.user|);
  }

  /** The first inner call returns the user and cuts the line at the blank. */
  lemma InnerFirst(m: seq<char>, p: nat, cs: seq<Credential>, newline: bool)
    requires cs != [] && AllCredentials(cs) && LineAt(m, p, cs, newline) && Padded(m, p)
    ensures var k := |cs[0].user|;
            && Step(m, p, ' ') == Outcome(p, UserCut(m, p, cs[0]), p + k + 1)
            && CStr(UserCut(m, p, cs[0]), p) == cs[0].user
            && Segment(UserCut(m, p, cs[0]), p + k + 1, cs[0].password)
  {
    SplitSegment(m, p, cs[0]);
  }

  lemma InnerPadded(m: seq<char>, p: nat, cs: seq<Credential>, newline: bool)
    requires cs != [] && AllCredentials(cs) && LineAt(m, p, cs, newline) && Padded(m, p)
    ensures Padded(UserCut(m, p, cs[0]), p + |cs[0].user| + 1)
  {
    InnerFirst(m, p, cs, newline);
    StepIsSafe(m, p, ' ');
  }

  /** What follows the NUL that ends the line: another NUL after the last line, else the next line. */
  lemma BeyondLine(m: seq<char>, p: nat, cs: seq<Credential>, newline: bool)
    requires cs != [] && AllCredentials(cs) && LineAt(m, p, cs, newline)
    ensures var q := p + |Line(cs[0])| + 1;
            q < |m| && (UserCut(m, p, cs[0])[q] == NUL <==> |cs| == 1)
  {
    if |cs| > 1 {
      UserCutKeepsRest(m, p, cs, newline);
    }
  }

  /** The second returns the password, and rebuilds the outer cursor: it steps over the NUL that
      the outer call wrote, or becomes NULL after the last line. */
  lemma InnerSecond(m: seq<char>, p: nat, cs: seq<Credential>, newline: bool)
    requires cs != [] && AllCredentials(cs) && LineAt(m, p, cs, newline)
    requires Segment(UserCut(m, p, cs[0]), p + |cs[0].user| + 1, cs[0].password)
    requires Padded(UserCut(m, p, cs[0]), p + |cs[0].user| + 1)
    ensures var m' := UserCut(m, p, cs[0]);
            var q := p + |cs[0].user| + 1;
            && Step(m', q, ' ') == Outcome(q, m', if |cs| == 1 then -1 else p + |Line(cs[0])| + 1)
            && CStr(m', q) == cs[0].password
  {
    var c := cs[0];
    SplitLine(c);
    BeyondLine(m, p, cs, newline);
    StepEndsAt(UserCut(m, p, c), p + |c.user| + 1, c.password, ' ');
  }

  /** After the inner calls, the outer call finds the next line. */
  lemma OuterAfterInner(m: seq<char>, p: nat, cs: seq<Credential>, newline: bool)
    requires |cs| > 1 && AllCredentials(cs) && LineAt(m, p, cs, newline)
    ensures var m' := UserCut(m, p, cs[0]);
            var q := p + |Line(cs[0])| + 1;
            && Padded(m', q) && Step(m', q, '\n').start == q
            && LineAt(Step(m', q, '\n').mem, q, cs[1..], newline)
  {
    var q := p + |Line(cs[0])| + 1;
    UserCutKeepsRest(m, p, cs, newline);
    TextPadded(UserCut(m, p, cs[0]), q, FileText(cs[1..], newline));
    OuterStep(UserCut(m, p, cs[0]), q, cs[1..], newline);
  }

  /** `index` is the least position of c, or -1 when it does not occur. */
  ghost predicate IsLeastMatch(cs: seq<Credential>, c: Credential, index: int) {
    && -1 <= index < |cs|
    && (index >= 0 ==> cs[index] == c)
    && forall k :: 0 <= k < (if index < 0 then |cs| else index) ==> cs[k] != c
  }

  // ----- The code -----

  /** A field of row i of the table. */
  method StoreField(rows: array2<char>, i: nat, src: seq<char>, p: nat)
    requires i < rows.Length0 && rows.Length1 == CREDENTIAL_LEN
    requires Terminated(src, p) && |CStr(src, p)| < CREDENTIAL_LEN
    modifies rows
    ensures RowStr(rows, i) == CStr(src, p) && Terminated(Row(rows, i), 0)
    ensures forall k :: 0 <= k < rows.Length0 && k != i ==> Row(rows, k) == old(Row(rows, k))
  {
    CopyToRow(rows, i, src, p, MAXREAD - 1);
  }

  /** The first inner call. */
  method UserToken(lx: Lexer, buf: array<char>, line: Ptr, ghost cs: seq<Credential>, ghost newline: bool)
    returns (token: Ptr)
    requires cs != [] && AllCredentials(cs)
    requires line.At? && line.buf == buf && LineAt(buf[..], line.off, cs, newline)
    modifies lx, buf
    ensures buf[..] == UserCut(old(buf[..]), line.off, cs[0])
    ensures lx.nextToken == At(buf, line.off + |cs[0].user| + 1)
    ensures token == line && Terminated(buf[..], line.off) && CStr(buf[..], line.off) == cs[0].user
  {
    LinePadded(buf[..], line.off, cs, newline);
    InnerFirst(buf[..], line.off, cs, newline);
    StepIsSafe(buf[..], line.off, ' ');
    token := lx.MyStrTok(line, ' ');
  }

  /** The second inner call. */
  method PasswordToken(lx: Lexer, buf: array<char>, ghost p: nat, ghost m: seq<char>,
                       ghost cs: seq<Credential>, ghost newline: bool)
    returns (token: Ptr)
    requires cs != [] && AllCredentials(cs) && LineAt(m, p, cs, newline) && buf[..] == UserCut(m, p, cs[0])
    requires lx.nextToken == At(buf, p + |cs[0].user| + 1)
    modifies lx, buf
    ensures buf[..] == old(buf[..])
    ensures lx.nextToken == if |cs| == 1 then Null else At(buf, p + |Line(cs[0])| + 1)
    ensures token == At(buf, p + |cs[0].user| + 1)
    ensures Terminated(buf[..], token.off) && CStr(buf[..], token.off) == cs[0].password
  {
    LinePadded(m, p, cs, newline);
    InnerFirst(m, p, cs, newline);
    InnerPadded(m, p, cs, newline);
    InnerSecond(m, p, cs, newline);
    StepIsSafe(buf[..], p + |cs[0].user| + 1, ' ');
    token := lx.MyStrTok(Null, ' ');
  }

  /** The outer call of a turn: it goes on from where the inner calls left the cursor. */
  method NextLine(lx: Lexer, buf: array<char>, ghost p: nat, ghost m: seq<char>,
                  ghost cs: seq<Credential>, ghost newline: bool)
    returns (line: Ptr)
    requires cs != [] && AllCredentials(cs) && LineAt(m, p, cs, newline) && buf[..] == UserCut(m, p, cs[0])
    requires lx.nextToken == if |cs| == 1 then Null else At(buf, p + |Line(cs[0])| + 1)
    modifies lx, buf
    ensures if |cs| == 1 then line.Null?
            else line.At? && line.buf == buf && LineAt(buf[..], line.off, cs[1..], newline)
  {
    if |cs| > 1 {
      OuterAfterInner(m, p, cs, newline);
    }
    line := lx.MyStrTok(Null, '\n');
  }

  /** The table of credentials: `__credentials` and `__ncredentials`. */
  class Table {
    const users: array2<char>
    const passwords: array2<char>
    var count: nat

    predicate Shape() {
      && users != passwords
      && users.Length0 == passwords.Length0 == USER_MAX
      && users.Length1 == passwords.Length1 == CREDENTIAL_LEN
    }

    ghost predicate Terminates()
      requires Shape()
      reads users, passwords
    {
      forall k :: 0 <= k < USER_MAX ==> Terminated(Row(users, k), 0) && Terminated(Row(passwords, k), 0)
    }

    ghost predicate Valid()
      reads this`count, users, passwords
    {
      Shape() && count <= USER_MAX && Terminates()
    }

    constructor ()
      ensures fresh(users) && fresh(passwords) && Valid() && count == 0
    {
      users := new char[USER_MAX, CREDENTIAL_LEN]((_, _) => NUL);
      passwords := new char[USER_MAX, CREDENTIAL_LEN]((_, _) => NUL);
      count := 0;
      new;
      forall k | 0 <= k < USER_MAX ensures Terminated(Row(users, k), 0) && Terminated(Row(passwords, k), 0) {
        assert Row(users, k)[0] == NUL && Row(passwords, k)[0] == NUL;
      }
    }

    /** Entry i of the table. */
    function Entry(i: nat): Credential
      requires Shape() && i < USER_MAX
      reads users, passwords
    {
      Credential(RowStr(users, i), RowStr(passwords, i))
    }

    /** The loaded pairs, in order. */
    ghost function Contents(): (cs: seq<Credential>)
      requires Valid()
      reads this, users, passwords
      ensures |cs| == count && forall k :: 0 <= k < count ==> cs[k] == Entry(k)
    {
      seq(count, k requires 0 <= k < count && Valid() reads this, users, passwords => Entry(k))
    }

    /** The first token of the line becomes the user of entry `index`. */
    method LoadUser(lx: Lexer, buf: array<char>, line: Ptr, index: nat, ghost cs: seq<Credential>, ghost newline: bool)
      returns (token: Ptr)
      requires Shape() && Terminates() && index < USER_MAX && cs != [] && AllCredentials(cs)
      requires line.At? && line.buf == buf && LineAt(buf[..], line.off, cs, newline)
      modifies lx, buf, users
      ensures Terminates() && Entry(index) == old(Entry(index)).(user := cs[0].user)
      ensures forall k :: 0 <= k < USER_MAX && k != index ==> Entry(k) == old(Entry(k))
      ensures token.At? && buf[..] == UserCut(old(buf[..]), line.off, cs[0])
      ensures lx.nextToken == At(buf, line.off + |cs[0].user| + 1)
    {
      assert IsCredential(cs[0]);
      token := UserToken(lx, buf, line, cs, newline);
      if token.At? {
        StoreField(users, index, buf[..], token.off);
      }
    }

    /** The second becomes its password. */
    method LoadPassword(lx: Lexer, buf: array<char>, ghost p: nat, ghost m: seq<char>, index: nat,
                        ghost cs: seq<Credential>, ghost newline: bool)
      requires Shape() && Terminates() && index < USER_MAX && cs != [] && AllCredentials(cs)
      requires LineAt(m, p, cs, newline) && buf[..] == UserCut(m, p, cs[0])
      requires lx.nextToken == At(buf, p + |cs[0].user| + 1)
      modifies lx, buf, passwords
      ensures Terminates() && Entry(index) == old(Entry(index)).(password := cs[0].password)
      ensures forall k :: 0 <= k < USER_MAX && k != index ==> Entry(k) == old(Entry(k))
      ensures buf[..] == old(buf[..])
      ensures lx.nextToken == if |cs| == 1 then Null else At(buf, p + |Line(cs[0])| + 1)
    {
      assert IsCredential(cs[0]);
      var token := PasswordToken(lx, buf, p, m, cs, newline);
      if token.At? {
        StoreField(passwords, index, buf[..], token.off);
      }
    }

    /** `load_user_and_password` on the line of cs[0]. */
    method LoadUserAndPassword(lx: Lexer, buf: array<char>, line: Ptr, index: nat,
                               ghost cs: seq<Credential>, ghost newline: bool)
      requires Shape() && Terminates() && index < USER_MAX && cs != [] && AllCredentials(cs)
      requires line.At? && line.buf == buf && LineAt(buf[..], line.off, cs, newline)
      modifies lx, buf, users, passwords
      ensures Terminates()
      ensures Entry(index) == cs[0]
      ensures forall k :: 0 <= k < USER_MAX && k != index ==> Entry(k) == old(Entry(k))
      ensures buf[..] == UserCut(old(buf[..]), line.off, cs[0])
      ensures lx.nextToken == if |cs| == 1 then Null else At(buf, line.off + |Line(cs[0])| + 1)
    {
      ghost var m := buf[..];
      var token := LoadUser(lx, buf, line, index, cs, newline);
      if token.At? {
        LoadPassword(lx, buf, line.off, m, index, cs, newline);
      }
    }

    /** One turn of the loop of `load_credentials`: the fields of the line are stored, and the
        outer call finds the next line although the inner calls moved its cursor. */
    method LoadLine(lx: Lexer, buf: array<char>, line: Ptr, i: nat, ghost cs: seq<Credential>, ghost newline: bool)
      returns (line': Ptr)
      requires Shape() && Terminates() && i < USER_MAX && cs != [] && AllCredentials(cs)
      requires line.At? && line.buf == buf && LineAt(buf[..], line.off, cs, newline)
      modifies lx, buf, users, passwords
      ensures Terminates()
      ensures Entry(i) == cs[0]
      ensures forall k :: 0 <= k < USER_MAX && k != i ==> Entry(k) == old(Entry(k))
      ensures if |cs| == 1 then line'.Null?
              else line'.At? && line'.buf == buf && LineAt(buf[..], line'.off, cs[1..], newline)
    {
      ghost var m := buf[..];
      LoadUserAndPassword(lx, buf, line, i, cs, newline);
      line' := NextLine(lx, buf, line.off, m, cs, newline);
    }

    /** Between two turns of the loop: i entries are stored, and the line of the next one is cut. */
    ghost predicate Loading(buf: array<char>, line: Ptr, i: nat, cs: seq<Credential>, newline: bool)
      reads this, users, passwords, buf
    {
      && Shape() && Terminates() && i <= |cs| <= USER_MAX && (line.At? <==> i < |cs|)
      && (line.At? ==> line.buf == buf && LineAt(buf[..], line.off, cs[i..], newline))
      && forall k :: 0 <= k < i ==> Entry(k) == cs[k]
    }

    /** The outer call before the loop. */
    method CutFirst(lx: Lexer, buf: array<char>, ghost cs: seq<Credential>, ghost newline: bool) returns (line: Ptr)
      requires Shape() && Terminates() && cs != [] && |cs| <= USER_MAX && AllCredentials(cs)
      requires Text(buf[..], 0, FileText(cs, newline))
      modifies lx, buf
      ensures Loading(buf, line, 0, cs, newline)
    {
      TextPadded(buf[..], 0, FileText(cs, newline));
      OuterStep(buf[..], 0, cs, newline);
      line := lx.MyStrTok(At(buf, 0), '\n');
      assert cs[0..] == cs;
    }

    /** One turn. */
    method LoadNext(lx: Lexer, buf: array<char>, line: Ptr, i: nat, ghost cs: seq<Credential>, ghost newline: bool)
      returns (line': Ptr)
      requires Loading(buf, line, i, cs, newline) && line.At? && AllCredentials(cs)
      modifies lx, buf, users, passwords
      ensures Loading(buf, line', i + 1, cs, newline)
    {
      assert cs[i..][1..] == cs[i + 1..];
      line' := LoadLine(lx, buf, line, i, cs[i..], newline);
    }

    /** The loop over the lines of a buffer that holds the whole file. */
    method LoadLines(lx: Lexer, buf: array<char>, ghost cs: seq<Credential>, ghost newline: bool) returns (n: nat)
      requires Shape() && Terminates() && cs != [] && |cs| <= USER_MAX && AllCredentials(cs)
      requires Text(buf[..], 0, FileText(cs, newline))
      modifies lx, buf, users, passwords
      ensures Terminates()
      ensures n == |cs| && forall k :: 0 <= k < n ==> Entry(k) == cs[k]
    {
      var line := CutFirst(lx, buf, cs, newline);
      var i: nat := 0;
      while line.At? && i < USER_MAX
        invariant Loading(buf, line, i, cs, newline)
        decreases |cs| - i
      {
        line := LoadNext(lx, buf, line, i, cs, newline);
        i := i + 1;
      }
      n := i;
    }

    /** `load_credentials` on a file that one read delivers: exactly its pairs, in order. */
    method LoadCredentials(lx: Lexer, file: seq<char>, ghost cs: seq<Credential>, ghost newline: bool)
      requires Valid() && cs != [] && AllCredentials(cs)
      requires file == FileText(cs, newline) && |file| <= MAXREAD - 10
      modifies lx, users, passwords, this`count
      ensures Valid() && Contents() == cs
    {
      FileTextFacts(cs, newline);
      var buffer := new char[MAXREAD];
      MyMemset(buffer, NUL, MAXREAD - 1);
      var unread := file;
      var i: nat := 0;
      while |unread| > 0
        invariant Terminates()
        invariant unread == file || (unread == [] && i == |cs| && forall k :: 0 <= k < i ==> Entry(k) == cs[k])
        invariant unread == file ==> forall j :: 0 <= j < MAXREAD - 1 ==> buffer[j] == NUL
        decreases |unread|
      {
        var nread := if |unread| < MAXREAD - 10 then |unread| else MAXREAD - 10;
        forall k | 0 <= k < nread {
          buffer[k] := unread[k];
        }
        unread := unread[nread..];
        buffer[nread] := NUL;
        CStrIs(buffer[..], 0, FileText(cs, newline));
        i := LoadLines(lx, buffer, cs, newline);
      }
      count := i;
    }

    /** `verifyuser`: the least entry whose user and password both compare equal, or -1. */
    method VerifyUser(username: seq<char>, password: seq<char>) returns (index: int)
      requires Valid() && Terminated(username, 0) && Terminated(password, 0)
      ensures IsLeastMatch(Contents(), Credential(CStr(username, 0), CStr(password, 0)), index)
    {
      for i := 0 to count
        invariant forall k :: 0 <= k < i ==> Entry(k) != Credential(CStr(username, 0), CStr(password, 0))
      {
        var r := MyStrCmp(username, 0, Row(users, i), 0);
        if r == 0 {
          var q := MyStrCmp(password, 0, Row(passwords, i), 0);
          if q == 0 {
            return i;
          }
        }
      }
      return -1;
    }
  }
}
