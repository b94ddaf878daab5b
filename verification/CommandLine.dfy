/** A command line as a list of commands: what `parse_commandline` and `parse_pipeline` compute,
    and the printer they undo. */
module CommandLine {
  import opened CStrings
  import opened Tokenizer

  const MAX_NUM_ARGS := 16
  const MAX_LINE_SIZE := 1024
  const BAR := "|"

  // ----- Words -----

  function NonEmpty(ts: seq<string>): seq<string> {
    if ts == [] then []
    else (if ts[0] != [] then [ts[0]] else []) + NonEmpty(ts[1..])
  }

  /** The words of a line: its tokens at blanks, without the empty ones. */
  function Words(text: string): seq<string> {
    NonEmpty(Tokens(text, ' '))
  }

  predicate IsWord(w: string) {
    w != [] && (forall i :: 0 <= i < |w| ==> w[i] != ' ' && w[i] != '\t') && NUL !in w
  }

  lemma {:induction false} NonEmptyConcat(a: seq<string>, b: seq<string>)
    ensures NonEmpty(a + b) == NonEmpty(a) + NonEmpty(b)
  {
    if a == [] {
      assert a + b == b;
    } else {
      assert (a + b)[1..] == a[1..] + b;
      NonEmptyConcat(a[1..], b);
    }
  }

  lemma TokensSkip(t: string, u: string)
    requires SkipBlanks(t) == SkipBlanks(u)
    ensures Tokens(t, ' ') == Tokens(u, ' ')
  {
  }

  lemma {:induction false} UpToConcat(a: string, b: string)
    ensures UpTo(a + [' '] + b, ' ') == UpTo(a, ' ')
  {
    if a != [] {
      assert (a + [' '] + b)[1..] == a[1..] + [' '] + b;
      if a[0] != ' ' {
        UpToConcat(a[1..], b);
      }
    }
  }

  /** A blank always separates: the words of two texts joined by one are those of both. */
  lemma {:induction false} WordsConcat(a: string, b: string)
    ensures Words(a + [' '] + b) == Words(a) + Words(b)
    decreases |a|
  {
    var t := a + [' '] + b;
    if a == [] {
      assert t[1..] == b;
      TokensSkip(t, b);
      assert Tokens("", ' ') == [""];
    } else if Blank(a[0]) {
      assert t[1..] == a[1..] + [' '] + b;
      TokensSkip(t, t[1..]);
      TokensSkip(a, a[1..]);
      WordsConcat(a[1..], b);
    } else {
      WordsConcatToken(a, b);
    }
  }

  lemma {:induction false} WordsConcatToken(a: string, b: string)
    requires a != [] && !Blank(a[0])
    ensures Words(a + [' '] + b) == Words(a) + Words(b)
    decreases |a|, 0
  {
    var t := a + [' '] + b;
    var tok := UpTo(a, ' ');
    UpToConcat(a, b);
    assert SkipBlanks(t) == t && SkipBlanks(a) == a;
    TokenIsAllOrLess(a, ' ');
    if |tok| < |a| {
      var rest := a[|tok| + 1..];
      assert t[|tok| + 1..] == rest + [' '] + b;
      WordsConcat(rest, b);
      NonEmptyConcat([tok], Tokens(rest, ' '));
      NonEmptyConcat([tok], Tokens(rest + [' '] + b, ' '));
    } else {
      assert t[|tok| + 1..] == b;
      NonEmptyConcat([tok], Tokens(b, ' '));
    }
  }

  lemma {:induction false} UpToNone(w: string, delim: char)
    requires delim !in w
    ensures UpTo(w, delim) == w
  {
    if w != [] {
      UpToNone(w[1..], delim);
    }
  }

  lemma WordsOfWord(w: string)
    requires IsWord(w)
    ensures Words(w) == [w]
  {
    UpToNone(w, ' ');
    assert Tokens(w, ' ') == [w];
    assert [w][1..] == [];
    assert NonEmpty([w]) == [w] + NonEmpty([]) == [w];
  }

  // ----- Nothing but blanks and tabs is lost -----

  /** A text without its blanks and tabs. */
  function Visible(t: string): string {
    if t == [] then []
    else (if t[0] == ' ' || t[0] == '\t' then [] else [t[0]]) + Visible(t[1..])
  }

  function Flatten(ws: seq<string>): string {
    if ws == [] then [] else ws[0] + Flatten(ws[1..])
  }

  lemma {:induction false} VisibleConcat(a: string, b: string)
    ensures Visible(a + b) == Visible(a) + Visible(b)
  {
    if a == [] {
      assert a + b == b;
    } else {
      assert (a + b)[1..] == a[1..] + b;
      VisibleConcat(a[1..], b);
    }
  }

  lemma {:induction false} VisibleAfterSkip(t: string)
    ensures Visible(SkipBlanks(t)) == Visible(t)
    decreases |t|
  {
    if t != [] && Blank(t[0]) {
      VisibleAfterSkip(t[1..]);
    }
  }

  lemma {:induction false} FlattenNonEmpty(ts: seq<string>)
    ensures Flatten(NonEmpty(ts)) == Flatten(ts)
  {
    if ts != [] {
      FlattenNonEmpty(ts[1..]);
      if ts[0] != [] {
        assert ([ts[0]] + NonEmpty(ts[1..]))[1..] == NonEmpty(ts[1..]);
      } else {
        assert [] + NonEmpty(ts[1..]) == NonEmpty(ts[1..]);
        assert [] + Flatten(ts[1..]) == Flatten(ts[1..]);
      }
    }
  }

  lemma FlattenFirst(tok: string, ts: seq<string>)
    ensures Flatten([tok] + ts) == tok + Flatten(ts) && [tok] + [] == [tok] && tok + [] == tok
  {
    assert ([tok] + ts)[1..] == ts;
  }

  lemma {:induction false} VisibleAt(s: string, k: nat)
    requires k < |s| && s[k] == ' '
    ensures Visible(s) == Visible(s[..k]) + Visible(s[k + 1..])
  {
    if k == 0 {
      assert [] + Visible(s[1..]) == Visible(s[1..]);
    } else {
      VisibleAt(s[1..], k - 1);
      assert s[1..][..k - 1] == s[..k][1..] && s[..k][0] == s[0];
      assert s[1..][k..] == s[k + 1..];
    }
  }

  lemma FlattenCut(s: string, tok: string, ts: seq<string>)
    requires |tok| < |s| && s[..|tok|] == tok && s[|tok|] == ' '
    requires Visible(Flatten(ts)) == Visible(s[|tok| + 1..])
    ensures Visible(Flatten([tok] + ts)) == Visible(s)
  {
    FlattenFirst(tok, ts);
    VisibleConcat(tok, Flatten(ts));
    VisibleAt(s, |tok|);
  }

  lemma {:induction false} FlattenTokens(t: string)
    ensures Visible(Flatten(Tokens(t, ' '))) == Visible(t)
    decreases |t|
  {
    var s := SkipBlanks(t);
    var tok := UpTo(s, ' ');
    SkipBlanksLength(t);
    VisibleAfterSkip(t);
    if |tok| == |s| {
      assert tok == s;
      FlattenFirst(tok, []);
    } else {
      FlattenTokens(s[|tok| + 1..]);
      FlattenCut(s, tok, Tokens(s[|tok| + 1..], ' '));
    }
  }

  /** Whatever the line, splitting it into words loses blanks and tabs and nothing else. */
  lemma WordsKeepVisible(text: string)
    ensures Visible(Flatten(Words(text))) == Visible(text)
  {
    FlattenNonEmpty(Tokens(text, ' '));
    FlattenTokens(text);
  }

  // ----- Commands -----

  type Command = seq<string>

  /** One step of `parse_pipeline`. */
  function Feed(cmds: seq<Command>, w: string): (r: seq<Command>)
    requires cmds != []
    ensures r != []
  {
    if w == BAR then cmds + [[]] else cmds[|cmds| - 1 := cmds[|cmds| - 1] + [w]]
  }

  /** The commands that a list of words stands for. */
  function Commands(ws: seq<string>): (r: seq<Command>)
    ensures r != []
  {
    if ws == [] then [[]] else Feed(Commands(ws[..|ws| - 1]), ws[|ws| - 1])
  }

  /** The words of a list of commands, with bars between them. */
  function Bars(cmds: seq<Command>): seq<string>
    requires cmds != []
  {
    if |cmds| == 1 then cmds[0] else Bars(cmds[..|cmds| - 1]) + [BAR] + cmds[|cmds| - 1]
  }

  lemma BarsFeed(cmds: seq<Command>, w: string)
    requires cmds != []
    ensures Bars(Feed(cmds, w)) == Bars(cmds) + [w]
  {
    var last := |cmds| - 1;
    if w == BAR {
      assert (cmds + [[]])[..last + 1] == cmds;
      assert Bars(cmds + [[]]) == Bars(cmds) + [BAR] + [];
    } else {
      assert cmds[last := cmds[last] + [w]][..last] == cmds[..last];
    }
  }

  /** Nothing is lost: the commands, with bars between them, are the words again. */
  lemma {:induction false} BarsOfCommands(ws: seq<string>)
    ensures Bars(Commands(ws)) == ws
  {
    if ws != [] {
      var init := ws[..|ws| - 1];
      BarsOfCommands(init);
      BarsFeed(Commands(init), ws[|ws| - 1]);
      assert init + [ws[|ws| - 1]] == ws;
    }
  }

  ghost predicate NoBars(cmds: seq<Command>) {
    forall k :: 0 <= k < |cmds| ==> BAR !in cmds[k]
  }

  lemma SplitLast(ws: seq<string>, cmd: Command)
    requires cmd != []
    ensures cmd[..|cmd| - 1] + [cmd[|cmd| - 1]] == cmd
    ensures (ws + cmd)[..|ws + cmd| - 1] == ws + cmd[..|cmd| - 1]
  {
  }

  lemma {:induction false} FeedAll(ws: seq<string>, cmd: Command)
    requires BAR !in cmd
    ensures Commands(ws + cmd) ==
            Commands(ws)[|Commands(ws)| - 1 := Commands(ws)[|Commands(ws)| - 1] + cmd]
  {
    var c := Commands(ws);
    if cmd == [] {
      assert ws + cmd == ws;
      assert c[|c| - 1] + [] == c[|c| - 1];
    } else {
      var init := cmd[..|cmd| - 1];
      FeedAll(ws, init);
      SplitLast(ws, cmd);
      assert c[|c| - 1] + init + [cmd[|cmd| - 1]] == c[|c| - 1] + cmd;
    }
  }

  lemma CommandsOfBar(ws: seq<string>)
    ensures Commands(ws + [BAR]) == Commands(ws) + [[]]
  {
    assert (ws + [BAR])[..|ws + [BAR]| - 1] == ws;
  }

  lemma LastFilled(front: seq<Command>, cmd: Command)
    ensures (front + [[]])[|front| := [] + cmd] == front + [cmd]
  {
    assert [] + cmd == cmd;
  }

  lemma {:induction false} CommandsOfBars(cmds: seq<Command>)
    requires cmds != [] && NoBars(cmds)
    ensures Commands(Bars(cmds)) == cmds
  {
    var last := |cmds| - 1;
    var cmd := cmds[last];
    if last == 0 {
      FeedAll([], cmd);
      assert [] + cmd == cmd;
      assert cmds == [cmd];
    } else {
      var front := cmds[..last];
      CommandsOfBars(front);
      CommandsOfBar(Bars(front));
      FeedAll(Bars(front) + [BAR], cmd);
      LastFilled(front, cmd);
      assert cmds == front + [cmd];
    }
  }

  // ----- The printer -----

  function PrintCommand(cmd: Command): string {
    if cmd == [] then ""
    else if |cmd| == 1 then cmd[0]
    else PrintCommand(cmd[..|cmd| - 1]) + [' '] + cmd[|cmd| - 1]
  }

  function Print(cmds: seq<Command>): string
    requires cmds != []
  {
    if |cmds| == 1 then PrintCommand(cmds[0])
    else Print(cmds[..|cmds| - 1]) + " | " + PrintCommand(cmds[|cmds| - 1])
  }

  ghost predicate Printable(cmds: seq<Command>) {
    && cmds != [] && NoBars(cmds)
    && forall k, i :: 0 <= k < |cmds| && 0 <= i < |cmds[k]| ==> IsWord(cmds[k][i])
  }

  lemma {:induction false} WordsOfCommand(cmd: Command)
    requires forall i :: 0 <= i < |cmd| ==> IsWord(cmd[i])
    ensures Words(PrintCommand(cmd)) == cmd && NUL !in PrintCommand(cmd)
  {
    if cmd == [] {
      assert Tokens("", ' ') == [""];
    } else if |cmd| == 1 {
      WordsOfWord(cmd[0]);
    } else {
      var front, w := cmd[..|cmd| - 1], cmd[|cmd| - 1];
      WordsOfCommand(front);
      WordsOfWord(w);
      WordsConcat(PrintCommand(front), w);
      assert front + [w] == cmd;
    }
  }

  lemma {:induction false} WordsOfPrint(cmds: seq<Command>)
    requires Printable(cmds)
    ensures Words(Print(cmds)) == Bars(cmds) && NUL !in Print(cmds)
  {
    var last := |cmds| - 1;
    WordsOfCommand(cmds[last]);
    if last > 0 {
      var front := cmds[..last];
      WordsOfPrint(front);
      var p, q := Print(front), PrintCommand(cmds[last]);
      assert p + " | " + q == (p + [' '] + BAR) + [' '] + q;
      WordsConcat(p + [' '] + BAR, q);
      WordsConcat(p, BAR);
      assert !Blank(BAR[0]);
      WordsOfWord(BAR);
    }
  }

  /** Printing and parsing undo each other: a printed pipeline is read back as the same commands,
      word for word, empty commands included. */
  lemma PrintThenParse(cmds: seq<Command>)
    requires Printable(cmds)
    ensures Commands(Words(Print(cmds))) == cmds
    ensures NUL !in Print(cmds)
  {
    WordsOfPrint(cmds);
    CommandsOfBars(cmds);
  }

  // ----- The sizes the arrays allow -----

  function FirstArgs(ws: seq<string>): seq<string> {
    if |ws| > MAX_NUM_ARGS then ws[..MAX_NUM_ARGS] else ws
  }

  /** What fits in 16 commands of at most 15 words and a NULL each. */
  ghost predicate Fits(cmds: seq<Command>) {
    |cmds| <= MAX_NUM_ARGS && forall k :: 0 <= k < |cmds| ==> |cmds[k]| < MAX_NUM_ARGS
  }

  lemma {:induction false} PrefixFits(ws: seq<string>, i: nat)
    requires i <= |ws| && Fits(Commands(ws))
    ensures Fits(Commands(ws[..i]))
    decreases |ws|
  {
    if i < |ws| {
      var init := ws[..|ws| - 1];
      var c := Commands(init);
      var d := Commands(ws);
      forall k | 0 <= k < |c| ensures |c[k]| < MAX_NUM_ARGS {
        assert |c[k]| <= |d[k]|;
      }
      PrefixFits(init, i);
      assert init[..i] == ws[..i];
    } else {
      assert ws[..i] == ws;
    }
  }

  function CountBars(ws: seq<string>): nat {
    if ws == [] then 0 else CountBars(ws[..|ws| - 1]) + if ws[|ws| - 1] == BAR then 1 else 0
  }

  lemma {:induction false} CommandSizes(ws: seq<string>)
    ensures |Commands(ws)| == CountBars(ws) + 1 && CountBars(ws) <= |ws|
    ensures forall k :: 0 <= k < |Commands(ws)| ==> |Commands(ws)[k]| <= |ws| - CountBars(ws)
    ensures CountBars(ws) == 0 ==> |Commands(ws)[0]| == |ws|
  {
    if ws != [] {
      CommandSizes(ws[..|ws| - 1]);
    }
  }

  lemma {:induction false} NoBarsCounted(ws: seq<string>)
    ensures CountBars(ws) == 0 <==> BAR !in ws
  {
    if ws != [] {
      var init, w := ws[..|ws| - 1], ws[|ws| - 1];
      NoBarsCounted(init);
      assert ws == init + [w];
      assert BAR in ws <==> BAR in init || w == BAR;
    }
  }

  ghost predicate AllBars(ws: seq<string>) {
    forall i :: 0 <= i < |ws| ==> ws[i] == BAR
  }

  lemma {:induction false} AllBarsCounted(ws: seq<string>)
    ensures CountBars(ws) == |ws| <==> AllBars(ws)
  {
    if ws != [] {
      var init, w := ws[..|ws| - 1], ws[|ws| - 1];
      AllBarsCounted(init);
      CommandSizes(init);
      assert AllBars(ws) <==> AllBars(init) && w == BAR;
    }
  }

  /** The words of a line that `parse_commandline` hands on fit the arrays of `parse_pipeline`, except
      when all 16 of them belong to one command and when all 16 are bars. */
  lemma FitsIff(ws: seq<string>)
    requires |ws| <= MAX_NUM_ARGS
    ensures Fits(Commands(ws)) <==>
              |ws| < MAX_NUM_ARGS || (BAR in ws && !AllBars(ws))
  {
    CommandSizes(ws);
    NoBarsCounted(ws);
    AllBarsCounted(ws);
  }

  /** A printed pipeline of at most 16 tokens is taken over whole. */
  lemma PrintedLineFits(cmds: seq<Command>)
    requires Printable(cmds) && |Bars(cmds)| <= MAX_NUM_ARGS && Fits(cmds)
    ensures FirstArgs(Words(Print(cmds))) == Bars(cmds) && Commands(Bars(cmds)) == cmds
  {
    WordsOfPrint(cmds);
    CommandsOfBars(cmds);
  }

  lemma {:induction false} BarsMembers(cmds: seq<Command>, i: nat)
    requires cmds != [] && i < |Bars(cmds)|
    ensures Bars(cmds)[i] == BAR || exists k :: 0 <= k < |cmds| && Bars(cmds)[i] in cmds[k]
  {
    var last := |cmds| - 1;
    if last > 0 {
      var front := Bars(cmds[..last]);
      if i < |front| {
        BarsMembers(cmds[..last], i);
        if Bars(cmds)[i] != BAR {
          var k :| 0 <= k < last && front[i] in cmds[..last][k];
          assert Bars(cmds)[i] in cmds[k];
        }
      } else if i > |front| {
        assert Bars(cmds)[i] in cmds[last];
      }
    } else {
      assert Bars(cmds)[i] in cmds[0];
    }
  }
}
