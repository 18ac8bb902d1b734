// The shell's parser (shell/parsing.c, shell/utils.c, shell/createcmd.c): from a line of text to a
// tree of commands.
module Parsing {
  import opened Pipeline

  // getenv, and the exit status that $? stands for, printed.
  datatype Context = Context(environ: map<string, string>, status: string)

  // parse_line: NULL, a tree, or a pipe whose left side is NULL.
  datatype Parsed = Null | Tree(cmd: Cmd) | Broken

  // ---------------------------------------------------------------- characters

  // block_contains from i on: the first c, or the length of the text.
  function IndexFrom(s: string, c: char, i: nat): (k: nat)
    requires i <= |s|
    ensures i <= k <= |s| && (k < |s| ==> s[k] == c) && forall j :: i <= j < k ==> s[j] != c
    decreases |s| - i
  {
    if i == |s| || s[i] == c then i else IndexFrom(s, c, i + 1)
  }

  // block_contains: -1 when there is none.
  function IndexOf(s: string, c: char): (k: int)
    ensures -1 <= k < |s|
    ensures k == -1 <==> c !in s
    ensures k >= 0 ==> s[k] == c && forall j :: 0 <= j < k ==> s[j] != c
  {
    var k := IndexFrom(s, c, 0);
    if k == |s| then assert forall j :: 0 <= j < |s| ==> s[j] != c; -1 else k
  }

  lemma IndexFromIs(s: string, c: char, i: nat, k: nat)
    requires i <= k <= |s| && (k < |s| ==> s[k] == c) && forall j :: i <= j < k ==> s[j] != c
    ensures IndexFrom(s, c, i) == k
  {
    hide IndexFrom;
  }

  function StripLeft(s: string): (t: string)
    ensures |t| <= |s| && (t != "" ==> t[0] != ' ')
  {
    if s != "" && s[0] == ' ' then StripLeft(s[1..]) else s
  }

  // ---------------------------------------------------------------- one command

  // expand_environ_var.
  function Expand(x: Context, tok: string): string {
    if |tok| <= 1 || tok[0] != '$' then tok
    else if tok == "$?" then x.status
    else if tok[1..] in x.environ then x.environ[tok[1..]]
    else ""
  }

  // An execcmd under construction, and whether its type has become REDIR.
  datatype Building = Building(e: Program, redir: bool)

  const EMPTY := Building(Program([], [], "", "", ""), false)

  // What parse_exec does with one token: parse_redir_flow, parse_environ_var, or an argument.
  function Token(x: Context, b: Building, tok: string): Building {
    var outIdx := IndexOf(tok, '>');
    if outIdx == 0 then Building(b.e.(outFile := tok[1..]), true)
    else if outIdx == 1 then Building(b.e.(errFile := tok[2..]), true)
    else if outIdx >= 0 then b.(redir := true)
    else if '<' in tok then Building(b.e.(inFile := tok[1..]), true)
    else if IndexOf(tok, '=') > 0 && '-' !in tok then b.(e := b.e.(eargv := b.e.eargv + [tok]))
    else if Expand(x, tok) != "" then b.(e := b.e.(argv := b.e.argv + [Expand(x, tok)]))
    else b
  }

  // The loop of parse_exec: tokens end at single blanks, so that blanks in a row give empty tokens.
  function ParseFrom(x: Context, buf: string, idx: nat, b: Building): Building
    requires idx <= |buf|
    decreases |buf| - idx
  {
    if idx == |buf| then b
    else
      var end := IndexFrom(buf, ' ', idx);
      ParseFrom(x, buf, if end < |buf| then end + 1 else end, Token(x, b, buf[idx..end]))
  }

  function Finished(b: Building): Cmd { if b.redir then Redir(b.e) else Exec(b.e) }

  function ParseExec(x: Context, buf: string): Cmd { Finished(ParseFrom(x, buf, 0, EMPTY)) }

  // Is there an '&', the first not right after a '>'?
  predicate Background(buf: string) {
    var i := IndexOf(buf, '&');
    i == 0 || (i > 0 && buf[i - 1] != '>')
  }

  // parse_cmd and parse_back.
  function ParseCmd(x: Context, buf: string): Parsed {
    if buf == "" then Null
    else if Background(buf) then Tree(Back(ParseExec(x, buf[..IndexOf(buf, '&')])))
    else Tree(ParseExec(x, buf))
  }

  // split_line at '|': what is left of it, and what is right of it without leading blanks.
  function Split(buf: string): (r: (string, string))
    ensures '|' !in r.0 && |r.1| <= |buf| && ('|' in r.1 ==> |r.1| < |buf|)
  {
    var k := IndexFrom(buf, '|', 0);
    assert forall c :: c in buf[..k] ==> c != '|';
    (buf[..k], if k == |buf| then "" else StripLeft(buf[k + 1..]))
  }

  // pipe_cmd_create.
  function PipeCmd(l: Parsed, r: Parsed): Parsed {
    if r.Null? then l
    else if l.Null? || l.Broken? || r.Broken? then Broken
    else Tree(Pipe(l.cmd, r.cmd))
  }

  // parse_line.
  function ParseLine(x: Context, buf: string): Parsed
    decreases |buf|
  {
    var (left, right) := Split(buf);
    var r := if '|' in right then ParseLine(x, right) else ParseCmd(x, right);
    PipeCmd(ParseCmd(x, left), r)
  }

  // ---------------------------------------------------------------- the C functions

  method BlockContains(buf: string, c: char) returns (k: int)
    ensures k == IndexOf(buf, c)
  {
    hide IndexFrom;
    var i := 0;
    while i < |buf|
      invariant 0 <= i <= |buf| && forall j :: 0 <= j < i ==> buf[j] != c
    {
      if buf[i] == c {
        IndexFromIs(buf, c, 0, i);
        return i;
      }
      i := i + 1;
    }
    IndexFromIs(buf, c, 0, |buf|);
    return -1;
  }

  method SplitLine(buf: string) returns (left: string, right: string)
    ensures (left, right) == Split(buf)
  {
    hide IndexFrom;
    var i := 0;
    while i < |buf| && buf[i] != '|'
      invariant 0 <= i <= |buf| && forall j :: 0 <= j < i ==> buf[j] != '|'
    {
      i := i + 1;
    }
    IndexFromIs(buf, '|', 0, i);
    left, right := buf[..i], "";
    if i == |buf| {
      return;
    }
    i := i + 1;
    ghost var rest := StripLeft(buf[i..]);
    while i < |buf| && buf[i] == ' '
      invariant 0 <= i <= |buf| && StripLeft(buf[i..]) == rest
    {
      assert buf[i..][1..] == buf[i + 1..];
      i := i + 1;
    }
    right := buf[i..];
  }

  method GetToken(buf: string, start: nat) returns (tok: string)
    requires start <= |buf|
    ensures tok == buf[start..IndexFrom(buf, ' ', start)]
  {
    hide IndexFrom;
    tok := "";
    var idx := start;
    while idx < |buf| && buf[idx] != ' '
      invariant start <= idx <= |buf| && tok == buf[start..idx]
      invariant forall j :: start <= j < idx ==> buf[j] != ' '
    {
      tok := tok + [buf[idx]];
      idx := idx + 1;
    }
    IndexFromIs(buf, ' ', start, idx);
  }

  method ParseExecLoop(x: Context, buf: string) returns (c: Cmd)
    ensures c == ParseExec(x, buf)
  {
    hide IndexFrom, Token;
    var b := EMPTY;
    var idx := 0;
    while idx < |buf|
      invariant 0 <= idx <= |buf| && ParseFrom(x, buf, idx, b) == ParseFrom(x, buf, 0, EMPTY)
    {
      var tok := GetToken(buf, idx);
      idx := idx + |tok|;
      if idx < |buf| {
        idx := idx + 1;
      }
      b := Token(x, b, tok);
    }
    c := Finished(b);
  }

  // parse_line, with parse_cmd and parse_back.
  method ParseLineLoop(x: Context, buf: string) returns (p: Parsed)
    ensures p == ParseLine(x, buf)
    decreases |buf|
  {
    hide IndexOf, Background, ParseExec;
    var left, right := SplitLine(buf);
    var idx := BlockContains(right, '|');
    var r;
    if idx < 0 {
      r := ParseCmdLoop(x, right);
    } else {
      r := ParseLineLoop(x, right);
    }
    var l := ParseCmdLoop(x, left);
    return PipeCmd(l, r);
  }

  method ParseCmdLoop(x: Context, buf: string) returns (p: Parsed)
    ensures p == ParseCmd(x, buf)
  {
    hide IndexOf, ParseExec;
    if |buf| == 0 {
      return Null;
    }
    var idx := BlockContains(buf, '&');
    if idx >= 0 && (idx == 0 || buf[idx - 1] != '>') {
      var c := ParseExecLoop(x, buf[..idx]);
      return Tree(Back(c));
    }
    var c := ParseExecLoop(x, buf);
    return Tree(c);
  }

  // ---------------------------------------------------------------- blanks do not matter

  // The words of a text: its maximal runs of characters other than blanks.
  function Words(text: string): seq<string>
    decreases |text|
  {
    if text == "" then []
    else if text[0] == ' ' then Words(text[1..])
    else
      var k := IndexFrom(text, ' ', 0);
      [text[..k]] + Words(text[k..])
  }

  function AddWords(x: Context, b: Building, words: seq<string>): Building
    decreases |words|
  {
    if words == [] then b else AddWords(x, Token(x, b, words[0]), words[1..])
  }

  lemma EmptyToken(x: Context, b: Building)
    ensures Token(x, b, "") == b
  {
  }

  lemma TailEnd(buf: string, idx: nat)
    requires idx < |buf|
    ensures IndexFrom(buf[idx..], ' ', 0) == IndexFrom(buf, ' ', idx) - idx
  {
    hide IndexFrom;
    var k := IndexFrom(buf, ' ', idx);
    IndexFromIs(buf[idx..], ' ', 0, k - idx);
  }

  lemma WordsStep(buf: string, idx: nat)
    requires idx < |buf|
    ensures var end := IndexFrom(buf, ' ', idx);
      var next := if end < |buf| then end + 1 else end;
      Words(buf[idx..]) == (if end == idx then [] else [buf[idx..end]]) + Words(buf[next..])
  {
    hide IndexFrom;
    var text, end := buf[idx..], IndexFrom(buf, ' ', idx);
    TailEnd(buf, idx);
    if end == idx {
      assert text[1..] == buf[idx + 1..];
      assert [] + Words(buf[idx + 1..]) == Words(buf[idx + 1..]);
    } else {
      assert text[..end - idx] == buf[idx..end] && text[end - idx..] == buf[end..];
      AfterWord(buf, end);
    }
  }

  lemma AfterWord(buf: string, end: nat)
    requires end <= |buf| && (end < |buf| ==> buf[end] == ' ')
    ensures Words(buf[end..]) == Words(buf[if end < |buf| then end + 1 else end..])
  {
    if end < |buf| { assert buf[end..][1..] == buf[end + 1..]; }
  }

  lemma {:induction false} ParseFromWords(x: Context, buf: string, idx: nat, b: Building)
    requires idx <= |buf|
    ensures ParseFrom(x, buf, idx, b) == AddWords(x, b, Words(buf[idx..]))
    decreases |buf| - idx
  {
    hide IndexFrom, Token, Words;
    if idx == |buf| {
      NoWords(buf[idx..]);
      return;
    }
    var end := IndexFrom(buf, ' ', idx);
    var next := if end < |buf| then end + 1 else end;
    WordsStep(buf, idx);
    if end == idx {
      EmptyToken(x, b);
      assert buf[idx..end] == "";
      assert [] + Words(buf[next..]) == Words(buf[next..]);
    } else {
      assert ([buf[idx..end]] + Words(buf[next..]))[1..] == Words(buf[next..]);
    }
    ParseFromWords(x, buf, next, Token(x, b, buf[idx..end]));
  }

  lemma NoWords(text: string)
    requires text == ""
    ensures Words(text) == []
  {
  }

  // A command is decided by its words: more blanks anywhere between them change nothing.
  lemma OnlyWordsMatter(x: Context, buf: string)
    ensures ParseExec(x, buf) == Finished(AddWords(x, EMPTY, Words(buf)))
  {
    hide AddWords, Words, ParseFrom;
    ParseFromWords(x, buf, 0, EMPTY);
    assert buf[0..] == buf;
  }

  // ---------------------------------------------------------------- whole lines

  function Join(texts: seq<string>): string
    requires texts != []
  {
    if |texts| == 1 then texts[0] else texts[0] + "|" + Join(texts[1..])
  }

  // A text that parse_line takes as one foreground command.
  predicate StageOk(text: string) { '|' !in text && !Background(text) && Words(text) != [] }

  function StageCmd(x: Context, text: string): Cmd { Finished(AddWords(x, EMPTY, Words(text))) }

  // The right-nested tree of the stages.
  function Chain(x: Context, texts: seq<string>): Cmd
    requires texts != []
  {
    if |texts| == 1 then StageCmd(x, texts[0]) else Pipe(StageCmd(x, texts[0]), Chain(x, texts[1..]))
  }

  lemma {:induction false} StripKeeps(text: string)
    ensures Words(StripLeft(text)) == Words(text)
    ensures Words(text) != [] ==> StripLeft(text) != ""
    ensures Background(StripLeft(text)) ==> Background(text)
    ensures forall c :: c in StripLeft(text) ==> c in text
  {
    hide IndexOf, IndexFrom;
    if text != "" && text[0] == ' ' {
      StripKeeps(text[1..]);
      if Background(text[1..]) { ShiftBackground(text); }
    }
  }

  lemma ShiftBackground(text: string)
    requires text != "" && text[0] == ' ' && Background(text[1..])
    ensures Background(text)
  {
    hide IndexFrom;
    var i := IndexOf(text[1..], '&');
    assert text[i + 1] == '&' && forall j :: 0 <= j < i ==> text[j + 1] == text[1..][j];
    assert forall j :: 0 <= j < i + 1 ==> text[j] != '&' by {
      forall j | 0 <= j < i + 1 ensures text[j] != '&' {
        if j > 0 { assert text[j] == text[1..][j - 1]; }
      }
    }
    assert IndexOf(text, '&') == i + 1;
  }

  lemma StripStage(text: string)
    requires StageOk(text)
    ensures StageOk(StripLeft(text)) && StripLeft(text) != ""
  {
    hide Words, Background, StripLeft;
    StripKeeps(text);
  }

  lemma {:induction false} StripPrefix(first: string, rest: string)
    ensures StripLeft(first + "|" + rest) == StripLeft(first) + "|" + rest
  {
    var s := first + "|" + rest;
    if first != "" && first[0] == ' ' {
      StripPrefix(first[1..], rest);
      assert s[1..] == first[1..] + "|" + rest;
    } else {
      assert s[0] != ' ';
    }
  }

  lemma SplitJoined(first: string, rest: string)
    requires '|' !in first
    ensures Split(first + "|" + rest) == (first, StripLeft(rest))
  {
    hide StripLeft, IndexFrom;
    var s := first + "|" + rest;
    forall j | 0 <= j < |first| ensures s[j] != '|' {
      assert s[j] == first[j];
    }
    IndexFromIs(s, '|', 0, |first|);
    assert s[..|first|] == first && s[|first| + 1..] == rest;
  }

  lemma SplitSingle(text: string)
    requires '|' !in text
    ensures Split(text) == (text, "")
  {
    hide IndexFrom;
    IndexFromIs(text, '|', 0, |text|);
    assert text[..|text|] == text;
  }

  lemma StageParses(x: Context, text: string)
    requires StageOk(text)
    ensures ParseCmd(x, text) == Tree(StageCmd(x, text)) && ParseCmd(x, StripLeft(text)) == Tree(StageCmd(x, text))
  {
    hide Background, StripLeft, AddWords, ParseExec, IndexOf;
    assert text != "";
    StripKeeps(text);
    StripStage(text);
    OnlyWordsMatter(x, text);
    OnlyWordsMatter(x, StripLeft(text));
  }

  // Any number of stages joined by '|' is parsed as the right-nested tree of their commands, in
  // order; blanks after a '|' or at the start of the line change nothing.
  lemma {:induction false} ParseLineOfJoin(x: Context, texts: seq<string>)
    requires texts != [] && forall t :: t in texts ==> StageOk(t)
    ensures ParseLine(x, Join(texts)) == Tree(Chain(x, texts))
    ensures ParseLine(x, StripLeft(Join(texts))) == Tree(Chain(x, texts))
    decreases |texts|
  {
    hide StageOk, StripLeft, StageCmd, ParseCmd, Split, Chain, Join, ParseLine;
    var first := texts[0];
    assert first in texts && StageOk(first);
    StageHasNoBar(first);
    StageParses(x, first);
    ChainIs(x, texts);
    if |texts| == 1 {
      SingleLine(x, first);
      SingleLine(x, StripLeft(first));
      return;
    }
    var rest := texts[1..];
    forall t | t in rest ensures StageOk(t) {}
    ParseLineOfJoin(x, rest);
    StripPrefix(first, Join(rest));
    BarredLine(x, first, rest);
    BarredLine(x, StripLeft(first), rest);
  }

  lemma ChainIs(x: Context, texts: seq<string>)
    requires texts != []
    ensures Chain(x, texts) ==
      if |texts| == 1 then StageCmd(x, texts[0]) else Pipe(StageCmd(x, texts[0]), Chain(x, texts[1..]))
    ensures Join(texts) == if |texts| == 1 then texts[0] else texts[0] + "|" + Join(texts[1..])
  {
  }

  lemma StageHasNoBar(text: string)
    requires StageOk(text)
    ensures '|' !in text && '|' !in StripLeft(text)
  {
    StripKeeps(text);
  }

  lemma SingleLine(x: Context, text: string)
    requires '|' !in text
    ensures ParseLine(x, text) == ParseCmd(x, text)
  {
    hide ParseCmd, Split;
    SplitSingle(text);
    assert ParseCmd(x, "") == Null by { NullCmd(x); }
  }

  lemma NullCmd(x: Context)
    ensures ParseCmd(x, "") == Null
  {
  }

  lemma BarredLine(x: Context, first: string, rest: seq<string>)
    requires '|' !in first && rest != [] && (forall t :: t in rest ==> StageOk(t))
    requires ParseCmd(x, first).Tree? && ParseLine(x, StripLeft(Join(rest))).Tree?
    ensures ParseLine(x, first + "|" + Join(rest)) ==
      Tree(Pipe(ParseCmd(x, first).cmd, ParseLine(x, StripLeft(Join(rest))).cmd))
  {
    hide ParseCmd, Split, StripLeft, Join, StageOk;
    SplitJoined(first, Join(rest));
    var right := StripLeft(Join(rest));
    if '|' !in right { SingleLine(x, right); }
  }

  // ---------------------------------------------------------------- background, and empty pieces

  // What stands before an '&' that no '>' precedes runs in the background, by its words; what stands
  // behind it is dropped.
  lemma BackgroundCmd(x: Context, before: string, after: string)
    requires '&' !in before && (before != "" ==> before[|before| - 1] != '>')
    ensures ParseCmd(x, before + "&" + after) == Tree(Back(StageCmd(x, before)))
  {
    hide IndexFrom, ParseExec, AddWords;
    var buf := before + "&" + after;
    assert buf[|before|] == '&' && forall j :: 0 <= j < |before| ==> buf[j] == before[j];
    assert IndexOf(buf, '&') == |before|;
    assert buf[..|before|] == before;
    OnlyWordsMatter(x, before);
  }

  // The first piece of a line and the rest of it: no command right of a '|' leaves the left one alone,
  // none left of it breaks the pipe, and so does a broken right side.
  lemma FirstPiece(x: Context, first: string, rest: string)
    requires '|' !in first
    ensures var line, left, right :=
        ParseLine(x, first + "|" + rest), ParseLine(x, first), ParseLine(x, StripLeft(rest));
      && ParseLine(x, "") == Null && (left == Null <==> first == "") && left != Broken
      && (right == Null ==> line == left)
      && (right == Broken ==> line == Broken)
      && (right.Tree? && first == "" ==> line == Broken)
      && (right.Tree? && first != "" ==> line == Tree(Pipe(left.cmd, right.cmd)))
  {
    hide Split, StripLeft, ParseExec, Background, IndexOf;
    var right := StripLeft(rest);
    SplitJoined(first, rest);
    SingleLine(x, first);
    SingleLine(x, "");
    if '|' !in right { SingleLine(x, right); }
  }

  // ---------------------------------------------------------------- every line

  lemma ParseCmdIsSingle(x: Context, buf: string)
    ensures ParseCmd(x, buf).Tree? ==> !HasPipe(ParseCmd(x, buf).cmd) && RightNested(ParseCmd(x, buf).cmd)
  {
    hide ParseFrom, Background, IndexOf;
  }

  // Whatever the line, no pipe of the tree is on the left of another: the trees for which the
  // processes that wait hold no write end.
  lemma {:induction false} ParseLineRightNested(x: Context, buf: string)
    ensures ParseLine(x, buf).Tree? ==> RightNested(ParseLine(x, buf).cmd)
    decreases |buf|
  {
    hide ParseCmd, HasPipe, Split;
    var (left, right) := Split(buf);
    ParseCmdIsSingle(x, left);
    ParseCmdIsSingle(x, right);
    if '|' in right { ParseLineRightNested(x, right); }
    PipeIsNested(ParseCmd(x, left), if '|' in right then ParseLine(x, right) else ParseCmd(x, right));
  }

  lemma {:induction false} PipeIsNested(l: Parsed, r: Parsed)
    requires l.Tree? ==> !HasPipe(l.cmd) && RightNested(l.cmd)
    requires r.Tree? ==> RightNested(r.cmd)
    ensures PipeCmd(l, r).Tree? ==> RightNested(PipeCmd(l, r).cmd)
  {
  }
}
