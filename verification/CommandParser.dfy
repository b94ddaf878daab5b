/** `parse_commandline`, `parse_pipeline` and `build_pipeline` over their static arrays. */
module CommandParser {
  import opened CStrings
  import opened Tokenizer
  import opened CommandLine

  /** The null pointer, in arrays of pointers to rows of `argv_alloc`. */
  const NULL := -1

  // ----- One token -----

  /** What the cursor still has to deliver: tokens of `rest`, or nothing. */
  datatype Rest = Rest(more: bool, text: string)

  function Left(r: Rest, delim: char): seq<string> {
    if r.more then Tokens(r.text, delim) else []
  }

  /** The cursor `next` on memory m stands before `r`. */
  ghost predicate Stands(m: seq<char>, next: int, r: Rest) {
    if r.more then next >= 0 && Text(m, next, r.text) else next < 0
  }

  /** A call on a text delivers its first token and leaves the cursor before the others. */
  lemma NextToken(m: seq<char>, p: nat, text: string, delim: char) returns (r: Rest)
    requires Text(m, p, text) && Padded(m, p) && delim != NUL
    ensures var o := Step(m, p, delim);
            && Tokens(text, delim) == [CStr(o.mem, o.start)] + Left(r, delim)
            && Stands(o.mem, o.next, r)
  {
    var s := SkipBlanks(text);
    var k := |UpTo(s, delim)|;
    TokenIsAllOrLess(s, delim);
    if k < |s| {
      TextCuts(m, p, text, delim);
      r := Rest(true, s[k + 1..]);
    } else {
      StepEnds(m, p, text, delim);
      r := Rest(false, "");
    }
  }

  ghost predicate CursorAt(lx: Lexer, buf: array<char>, r: Rest)
    reads lx, buf
  {
    if r.more then lx.nextToken.At? && lx.nextToken.buf == buf && Text(buf[..], lx.nextToken.off, r.text)
    else lx.nextToken.Null?
  }

  ghost predicate TokenIs(buf: array<char>, tok: Ptr, s: string)
    reads buf
  {
    tok.At? && tok.buf == buf && tok.off < buf.Length && Terminated(buf[..], tok.off) && CStr(buf[..], tok.off) == s
  }

  /** One `mystrtok` call of a loop that started on a doubly terminated buffer. */
  method TakeToken(lx: Lexer, buf: array<char>, str: Ptr, delim: char, ghost r: Rest)
    returns (tok: Ptr, ghost s: string, ghost r': Rest)
    requires delim != NUL
    requires str.At? ==> str.buf == buf && r.more && Text(buf[..], str.off, r.text)
    requires str.Null? ==> CursorAt(lx, buf, r)
    modifies lx, buf
    ensures tok.At? == r.more
    ensures r.more ==> TokenIs(buf, tok, s) && Tokens(r.text, delim) == [s] + Left(r', delim)
    ensures CursorAt(lx, buf, r')
    ensures r.more ==> tok.off >= old(lx.From(str)).off && (r'.more ==> lx.nextToken.off > tok.off)
    ensures !r.more ==> !r'.more
  {
    ghost var m := buf[..];
    ghost var p := if r.more then lx.From(str).off else 0;
    if r.more {
      TextPadded(m, p, r.text);
      StepIsSafe(m, p, delim);
    }
    tok := lx.MyStrTok(str, delim);
    s, r' := "", r;
    if r.more {
      r' := NextToken(m, p, r.text, delim);
      s := CStr(buf[..], tok.off);
    }
  }

  // ----- parse_commandline -----

  method StoreWord(alloc: array2<char>, argv: array<int>, i: nat, buf: array<char>, off: nat)
    requires i < alloc.Length0 && i < argv.Length && Terminated(buf[..], off)
    requires |CStr(buf[..], off)| < alloc.Length1
    modifies alloc, argv
    ensures RowStr(alloc, i) == CStr(buf[..], off) && Terminated(Row(alloc, i), 0) && argv[i] == i
    ensures forall k :: 0 <= k < argv.Length && k != i ==> argv[k] == old(argv[k])
    ensures forall k :: 0 <= k < alloc.Length0 && k != i ==> Row(alloc, k) == old(Row(alloc, k))
  {
    ZeroRow(alloc, i);
    CopyToRow(alloc, i, buf[..], off, alloc.Length1);
    argv[i] := i;
  }

  /** Words 0 to n-1 are in the rows of `argv_alloc`, and `argv` points to them. */
  ghost predicate Stored(alloc: array2<char>, argv: array<int>, ws: seq<string>)
    reads alloc, argv
  {
    && |ws| <= alloc.Length0 && |ws| <= argv.Length
    && forall k :: 0 <= k < |ws| ==> argv[k] == k && RowStr(alloc, k) == ws[k] && Terminated(Row(alloc, k), 0)
  }

  /** The body of the loop of `parse_commandline`; an empty token takes the index back by one. */
  method Keep(alloc: array2<char>, argv: array<int>, buf: array<char>, line: Ptr, i: int,
              ghost s: string, ghost ws: seq<string>)
    returns (j: int)
    requires alloc.Length0 == MAX_NUM_ARGS && alloc.Length1 == MAX_LINE_SIZE && argv.Length > MAX_NUM_ARGS
    requires 0 <= i < MAX_NUM_ARGS && i <= |ws| && Stored(alloc, argv, ws[..i]) && TokenIs(buf, line, s)
    requires s != [] ==> i < |ws| && ws[i] == s && |s| < MAX_LINE_SIZE
    modifies alloc, argv
    ensures j == if s == [] then i - 1 else i
    ensures Stored(alloc, argv, ws[..j + 1])
  {
    CStrHeld(buf[..], line.off);
    j := i;
    if line.buf[line.off] == NUL {
      j := j - 1;
    } else {
      StoreWord(alloc, argv, i, line.buf, line.off);
      assert ws[..i + 1] == ws[..i] + [s];
    }
  }

  /** The words still to come when `s` has just been taken, if anything has. */
  function Due(taken: bool, s: string, r: Rest): seq<string> {
    NonEmpty((if taken then [s] else []) + Left(r, ' '))
  }

  lemma DueStep(ws: seq<string>, i: nat, s: string, r: Rest)
    requires i <= |ws| && ws[i..] == Due(true, s, r)
    ensures s != [] ==> i < |ws| && ws[i] == s && ws[i + 1..] == Due(false, "", r)
    ensures s == [] ==> ws[i..] == Due(false, "", r)
  {
    assert ([s] + Left(r, ' '))[1..] == Left(r, ' ');
    assert [] + Left(r, ' ') == Left(r, ' ');
    if s != [] {
      assert ws[i..] == [s] + Due(false, "", r);
      assert ws[i..][1..] == ws[i + 1..];
      assert ([s] + Due(false, "", r))[1..] == Due(false, "", r);
    }
  }

  /** Where the loop of `parse_commandline` stands between two tokens. */
  ghost predicate AtToken(lx: Lexer, buf: array<char>, line: Ptr, s: string, r: Rest)
    reads lx, buf
  {
    && CursorAt(lx, buf, r)
    && (line.At? ==> TokenIs(buf, line, s))
    && (r.more ==> line.At? && lx.nextToken.off > line.off)
  }

  /** The same call, in terms of words. */
  method TakeWord(lx: Lexer, buf: array<char>, str: Ptr, ghost r: Rest)
    returns (line: Ptr, ghost s: string, ghost r': Rest)
    requires str.At? ==> str.buf == buf && r.more && Text(buf[..], str.off, r.text)
    requires str.Null? ==> CursorAt(lx, buf, r)
    modifies lx, buf
    ensures AtToken(lx, buf, line, s, r') && Due(line.At?, s, r') == Due(false, "", r)
    ensures r.more ==> line.At? && line.off >= old(lx.From(str)).off
    ensures !r.more ==> line.Null?
  {
    line, s, r' := TakeToken(lx, buf, str, ' ', r);
    assert [] + Left(r, ' ') == Left(r, ' ');
  }

  /** The invariant of the loop of `parse_commandline`: i words are stored, and the others are due. */
  ghost predicate Parsing(lx: Lexer, alloc: array2<char>, argv: array<int>, buf: array<char>,
                          line: Ptr, i: int, s: string, r: Rest, ws: seq<string>)
    reads lx, alloc, argv, buf
  {
    && alloc.Length0 == MAX_NUM_ARGS && alloc.Length1 == MAX_LINE_SIZE && argv.Length > MAX_NUM_ARGS
    && 0 <= i <= MAX_NUM_ARGS && i <= |ws| && Stored(alloc, argv, ws[..i])
    && AtToken(lx, buf, line, s, r) && ws[i..] == Due(line.At?, s, r)
    && forall k :: 0 <= k < |FirstArgs(ws)| ==> |FirstArgs(ws)[k]| < MAX_LINE_SIZE
  }

  lemma ShortWord(ws: seq<string>, i: nat)
    requires forall k :: 0 <= k < |FirstArgs(ws)| ==> |FirstArgs(ws)[k]| < MAX_LINE_SIZE
    requires i < |ws| && i < MAX_NUM_ARGS
    ensures |ws[i]| < MAX_LINE_SIZE
  {
    assert FirstArgs(ws)[i] == ws[i];
  }

  /** One turn of that loop: the body, then the increment. */
  method ParseWord(lx: Lexer, alloc: array2<char>, argv: array<int>, buf: array<char>,
                   line: Ptr, i: int, ghost s: string, ghost r: Rest, ghost ws: seq<string>)
    returns (line': Ptr, i': int, ghost s': string, ghost r': Rest)
    requires Parsing(lx, alloc, argv, buf, line, i, s, r, ws) && i < MAX_NUM_ARGS && line.At?
    modifies lx, alloc, argv, buf
    ensures Parsing(lx, alloc, argv, buf, line', i', s', r', ws)
    ensures line'.At? ==> line'.off > line.off
  {
    DueStep(ws, i, s, r);
    if s != [] {
      ShortWord(ws, i);
    }
    i' := Keep(alloc, argv, buf, line, i, s, ws);
    line', s', r' := TakeWord(lx, buf, Null, r);
    i' := i' + 1;
  }

  lemma AllTaken(ws: seq<string>, i: nat)
    requires i <= MAX_NUM_ARGS && i <= |ws| && (i == MAX_NUM_ARGS || ws[i..] == [])
    ensures FirstArgs(ws) == ws[..i]
  {
    assert ws[i..] == [] ==> ws[..i] == ws;
  }

  /** The NULL after the last pointer. */
  method Terminate(alloc: array2<char>, argv: array<int>, i: nat, ghost ws: seq<string>)
    requires i < argv.Length && i == |ws| && Stored(alloc, argv, ws)
    modifies argv
    ensures Stored(alloc, argv, ws) && argv[i] == NULL
  {
    argv[i] := NULL;
  }

  /** `parse_commandline` stores the first 16 words of the line, whatever the cursor and the rows
      held before. */
  method ParseCommandLine(lx: Lexer, alloc: array2<char>, argv: array<int>, buf: array<char>, ghost text: string)
    returns (argc: int)
    requires alloc.Length0 == MAX_NUM_ARGS && alloc.Length1 == MAX_LINE_SIZE && argv.Length > MAX_NUM_ARGS
    requires Text(buf[..], 0, text)
    requires forall i :: 0 <= i < |FirstArgs(Words(text))| ==> |FirstArgs(Words(text))[i]| < MAX_LINE_SIZE
    modifies lx, alloc, argv, buf
    ensures argc == |FirstArgs(Words(text))| && Stored(alloc, argv, FirstArgs(Words(text))) && argv[argc] == NULL
  {
    ghost var ws := Words(text);
    ghost var r := Rest(true, text);
    assert [] + Tokens(text, ' ') == Tokens(text, ' ');
    ghost var s: string;
    var line: Ptr;
    var i: int := 0;
    line, s, r := TakeWord(lx, buf, At(buf, 0), r);
    while i < MAX_NUM_ARGS && line.At?
      invariant Parsing(lx, alloc, argv, buf, line, i, s, r, ws)
      decreases line.At?, if line.At? then buf.Length - line.off else 0
    {
      line, i, s, r := ParseWord(lx, alloc, argv, buf, line, i, s, r, ws);
    }
    AllTaken(ws, i);
    Terminate(alloc, argv, i, FirstArgs(ws));
    argc := i;
  }

  // ----- parse_pipeline -----

  /** The pipeline array holds these commands: each argument points to its word, and a NULL
      follows the last one. */
  ghost predicate Built(args: array2<int>, argcs: array<int>, ws: seq<string>, cmds: seq<Command>, closed: nat)
    requires args.Length0 == argcs.Length == args.Length1 == MAX_NUM_ARGS && Fits(cmds) && closed <= |cmds|
    reads args, argcs
  {
    && (forall k, i :: 0 <= k < |cmds| && 0 <= i < |cmds[k]| ==>
          0 <= args[k, i] < |ws| && ws[args[k, i]] == cmds[k][i])
    && (forall k :: 0 <= k < closed ==> args[k, |cmds[k]|] == NULL)
    && (forall k :: 0 <= k < |cmds| && cmds[k] != [] ==> argcs[k] == |cmds[k]|)
  }

  /** Another argument for the last command. */
  method AddArgument(args: array2<int>, argcs: array<int>, cc: nat, ac: nat, ptr: int,
                     ghost ws: seq<string>, ghost cmds: seq<Command>)
    requires args.Length0 == argcs.Length == args.Length1 == MAX_NUM_ARGS && Fits(cmds)
    requires cc == |cmds| - 1 && ac == |cmds[cc]| && ac + 1 < MAX_NUM_ARGS
    requires Built(args, argcs, ws, cmds, cc) && 0 <= ptr < |ws|
    modifies args, argcs
    ensures Fits(cmds[cc := cmds[cc] + [ws[ptr]]]) && Built(args, argcs, ws, cmds[cc := cmds[cc] + [ws[ptr]]], cc)
    ensures forall k :: 0 <= k < MAX_NUM_ARGS && k != cc ==> argcs[k] == old(argcs[k])
  {
    args[cc, ac] := ptr;
    argcs[cc] := ac + 1;
  }

  /** The NULL after a command's last argument. */
  method CloseCommand(args: array2<int>, argcs: array<int>, cc: nat, ac: nat,
                      ghost ws: seq<string>, ghost cmds: seq<Command>)
    requires args.Length0 == argcs.Length == args.Length1 == MAX_NUM_ARGS && Fits(cmds)
    requires cc == |cmds| - 1 && ac == |cmds[cc]| && Built(args, argcs, ws, cmds, cc)
    modifies args
    ensures Built(args, argcs, ws, cmds, cc + 1)
  {
    args[cc, ac] := NULL;
  }

  /** The invariant of the loop of `parse_pipeline` after i words; `before` is what `argc` held. */
  ghost predicate Collected(args: array2<int>, argcs: array<int>, before: seq<int>, ws: seq<string>,
                            i: nat, cc: int, ac: int)
    requires args.Length0 == argcs.Length == args.Length1 == MAX_NUM_ARGS == |before| && i <= |ws|
    reads args, argcs
  {
    var cmds := Commands(ws[..i]);
    && Fits(cmds) && cc == |cmds| - 1 && ac == |cmds[cc]|
    && Built(args, argcs, ws, cmds, cc)
    && forall k :: 0 <= k < MAX_NUM_ARGS && (k >= |cmds| || cmds[k] == []) ==> argcs[k] == before[k]
  }

  lemma CommandsOfPrefix(ws: seq<string>, i: nat)
    requires i < |ws|
    ensures Commands(ws[..i + 1]) == Feed(Commands(ws[..i]), ws[i])
  {
    assert ws[..i + 1][..i] == ws[..i];
  }

  lemma CommandsStep(ws: seq<string>, i: nat)
    requires i < |ws| && Fits(Commands(ws))
    ensures Commands(ws[..i + 1]) == Feed(Commands(ws[..i]), ws[i]) && Fits(Commands(ws[..i + 1]))
  {
    CommandsOfPrefix(ws, i);
    PrefixFits(ws, i + 1);
  }

  /** One turn of that loop. */
  method ParseArgument(alloc: array2<char>, ptr: int, args: array2<int>, argcs: array<int>,
                       i: nat, cc: int, ac: int, ghost before: seq<int>, ghost ws: seq<string>)
    returns (cc': int, ac': int)
    requires args.Length0 == argcs.Length == args.Length1 == MAX_NUM_ARGS == |before|
    requires i < |ws| && Fits(Commands(ws)) && Collected(args, argcs, before, ws, i, cc, ac)
    requires ptr == i < alloc.Length0 && RowStr(alloc, i) == ws[i] && Terminated(Row(alloc, i), 0)
    modifies args, argcs
    ensures Collected(args, argcs, before, ws, i + 1, cc', ac')
  {
    var bar := [BAR[0], NUL];
    CStrIs(bar, 0, BAR);
    assert bar[1] == NUL;
    CommandsStep(ws, i);
    ghost var cmds := Commands(ws[..i]);
    var cmp := MyStrCmp(Row(alloc, ptr), 0, bar, 0);
    if cmp == 0 {
      CloseCommand(args, argcs, cc, ac, ws, cmds);
      return cc + 1, 0;
    }
    assert |Feed(cmds, ws[i])[cc]| == ac + 1;
    AddArgument(args, argcs, cc, ac, ptr, ws, cmds);
    return cc, ac + 1;
  }

  /** `parse_pipeline` cuts the words at the bars.  A command without arguments leaves its `argc` as
      it was. */
  method ParsePipeline(alloc: array2<char>, argv: array<int>, argc: nat,
                       args: array2<int>, argcs: array<int>, ghost ws: seq<string>)
    returns (ncommands: int)
    requires |ws| == argc && Stored(alloc, argv, ws) && Fits(Commands(ws))
    requires args.Length0 == argcs.Length == args.Length1 == MAX_NUM_ARGS && argcs != argv
    modifies args, argcs
    ensures ncommands == |Commands(ws)| && Built(args, argcs, ws, Commands(ws), |Commands(ws)|)
    ensures forall k :: 0 <= k < MAX_NUM_ARGS && (k >= ncommands || Commands(ws)[k] == []) ==>
              argcs[k] == old(argcs[k])
  {
    var commandCount, argumentCount := 0, 0;
    ghost var before := argcs[..];
    assert ws[..0] == [];
    for i := 0 to argc
      invariant Collected(args, argcs, before, ws, i, commandCount, argumentCount)
    {
      commandCount, argumentCount :=
        ParseArgument(alloc, argv[i], args, argcs, i, commandCount, argumentCount, before, ws);
    }
    assert ws[..argc] == ws;
    CloseCommand(args, argcs, commandCount, argumentCount, ws, Commands(ws));
    ncommands := commandCount + 1;
  }

  /** `build_pipeline`: the line's first 16 words, cut at the bars. */
  method BuildPipeline(lx: Lexer, alloc: array2<char>, args: array2<int>, argcs: array<int>,
                       readbuf: array<char>, ghost text: string)
    returns (npipes: int)
    requires alloc.Length0 == MAX_NUM_ARGS && alloc.Length1 == MAX_LINE_SIZE
    requires args.Length0 == argcs.Length == args.Length1 == MAX_NUM_ARGS
    requires Text(readbuf[..], 0, text) && Fits(Commands(FirstArgs(Words(text))))
    requires forall i :: 0 <= i < |FirstArgs(Words(text))| ==> |FirstArgs(Words(text))[i]| < MAX_LINE_SIZE
    modifies lx, alloc, readbuf, args, argcs
    ensures var ws := FirstArgs(Words(text));
            npipes == |Commands(ws)| && Built(args, argcs, ws, Commands(ws), npipes) &&
            forall k :: 0 <= k < |ws| ==> RowStr(alloc, k) == ws[k]
  {
    var argv := new int[MAX_LINE_SIZE];
    var argc := ParseCommandLine(lx, alloc, argv, readbuf, text);
    npipes := ParsePipeline(alloc, argv, argc, args, argcs, FirstArgs(Words(text)));
  }

  /** Print, then run the parser on the printed bytes: whatever the cursor and the static rows held,
      the pipeline array ends up with exactly the commands that were printed. */
  method BuildPrinted(lx: Lexer, alloc: array2<char>, args: array2<int>, argcs: array<int>,
                      readbuf: array<char>, ghost cmds: seq<Command>)
    returns (npipes: int)
    requires alloc.Length0 == MAX_NUM_ARGS && alloc.Length1 == MAX_LINE_SIZE
    requires args.Length0 == argcs.Length == args.Length1 == MAX_NUM_ARGS
    requires Printable(cmds) && |Bars(cmds)| <= MAX_NUM_ARGS && Fits(cmds)
    requires forall k, i :: 0 <= k < |cmds| && 0 <= i < |cmds[k]| ==> |cmds[k][i]| < MAX_LINE_SIZE
    requires Text(readbuf[..], 0, Print(cmds))
    modifies lx, alloc, readbuf, args, argcs
    ensures npipes == |cmds| && Built(args, argcs, Bars(cmds), cmds, npipes)
    ensures forall k :: 0 <= k < |Bars(cmds)| ==> RowStr(alloc, k) == Bars(cmds)[k]
  {
    PrintedLineFits(cmds);
    forall i | 0 <= i < |Bars(cmds)| ensures |Bars(cmds)[i]| < MAX_LINE_SIZE {
      BarsMembers(cmds, i);
      if Bars(cmds)[i] != BAR {
        var k :| 0 <= k < |cmds| && Bars(cmds)[i] in cmds[k];
      }
    }
    npipes := BuildPipeline(lx, alloc, args, argcs, readbuf, Print(cmds));
  }
}
