// Lines written out from lists of commands, and that the shell's parser gives the commands back.
module Rendering {
  import opened Pipeline
  import opened Parsing

  // ---------------------------------------------------------------- words and blanks

  function Blanks(n: nat): (s: string)
    ensures |s| == n && forall i :: 0 <= i < n ==> s[i] == ' '
  {
    seq(n, _ => ' ')
  }

  // Words in order: gaps[0] blanks before the first, at least one between two, any number after the last.
  function Render(words: seq<string>, gaps: seq<nat>): string
    requires |gaps| == |words| + 1
  {
    if words == [] then Blanks(gaps[0])
    else Blanks(gaps[0]) + (words[0] + ((if |words| == 1 then "" else " ") + Render(words[1..], gaps[1..])))
  }

  lemma {:induction false} WordsOfBlanks(n: nat, rest: string)
    ensures Words(Blanks(n) + rest) == Words(rest)
  {
    hide IndexFrom;
    if n == 0 {
      assert Blanks(0) + rest == rest;
    } else {
      WordsOfBlanks(n - 1, rest);
      assert (Blanks(n) + rest)[1..] == Blanks(n - 1) + rest;
    }
  }

  lemma WordsOfWord(w: string, rest: string)
    requires w != "" && ' ' !in w && (rest == "" || rest[0] == ' ')
    ensures Words(w + rest) == [w] + Words(rest)
  {
    hide IndexFrom;
    var s := w + rest;
    forall j | 0 <= j < |w| ensures s[j] != ' ' {
      assert s[j] == w[j] && w[j] in w;
    }
    IndexFromIs(s, ' ', 0, |w|);
    assert s[..|w|] == w && s[|w|..] == rest;
  }

  lemma {:induction false} WordsOfRender(words: seq<string>, gaps: seq<nat>)
    requires |gaps| == |words| + 1 && forall w :: w in words ==> w != "" && ' ' !in w
    ensures Words(Render(words, gaps)) == words
    decreases |words|
  {
    hide Words;
    if words == [] {
      WordsOfBlanks(gaps[0], "");
      assert Blanks(gaps[0]) + "" == Blanks(gaps[0]);
      NoWords("");
      return;
    }
    var rest := Render(words[1..], gaps[1..]);
    var sep := if |words| == 1 then "" else " ";
    assert words[0] in words && forall w :: w in words[1..] ==> w in words;
    WordsOfRender(words[1..], gaps[1..]);
    WordsOfBlanks(gaps[0], words[0] + (sep + rest));
    WordsOfWord(words[0], sep + rest);
    if |words| == 1 {
      assert sep + rest == rest;
    } else {
      WordsOfBlanks(1, rest);
      assert Blanks(1) == " ";
    }
  }

  // ---------------------------------------------------------------- items of a command

  // An argument, $NAME, $?, NAME=value, and redirections. Out is >file; Err is c>file, as in 2>file
  // and 2>&1, for any character c; In is <file; and two forms nobody would write on purpose: a later
  // '>' sends nothing anywhere, and what follows the first character is a file if it has a '<' in it.
  datatype Item =
    | Arg(w: string) | Ref(name: string) | Status | Var(key: string, value: string)
    | In(file: string) | Out(file: string) | Err(c: char, file: string)
    | Lost(text: string, file: string) | Inner(c: char, file: string)

  predicate Word(s: string) { ' ' !in s && '|' !in s && '&' !in s }

  // No redirection either.
  predicate Plain(s: string) { Word(s) && '<' !in s && '>' !in s }

  // NAME=value, by the test of parse_environ_var.
  predicate Assigns(s: string) { s != "" && '=' in s && s[0] != '=' && '-' !in s }

  // What each item may contain, so that it is taken for what it is.
  predicate ItemOk(item: Item) {
    match item
    case Arg(w) => Plain(w) && w != "" && (w[0] != '$' || w == "$") && !Assigns(w)
    case Ref(name) => Plain(name) && name != "" && name != "?" && !Assigns("$" + name)
    case Status => true
    case Var(key, value) => Plain(key) && Plain(value) && key != "" && '=' !in key && '-' !in key && '-' !in value
    case In(file) => Word(file) && '>' !in file
    case Out(file) => Word(file)
    case Err(c, file) => Word([c]) && c != '>' && (Word(file) || file == "&1")
    case Lost(text, file) => |text| >= 2 && Word(text) && '>' !in text && Word(file)
    case Inner(c, file) => Word([c]) && c !in "<>" && Word(file) && '<' in file && '>' !in file
  }

  function ItemText(item: Item): string {
    match item
    case Arg(w) => w
    case Ref(name) => "$" + name
    case Status => "$?"
    case Var(key, value) => key + "=" + value
    case In(file) => "<" + file
    case Out(file) => ">" + file
    case Err(c, file) => [c] + (">" + file)
    case Lost(text, file) => text + ">" + file
    case Inner(c, file) => [c] + file
  }

  // The argument that an item gives, empty for none: a variable gives its value, if it is set.
  function Argument(x: Context, item: Item): string {
    match item
    case Arg(w) => w
    case Ref(name) => if name in x.environ then x.environ[name] else ""
    case Status => x.status
    case _ => ""
  }

  // The command that a list of items describes: arguments and variables in order, the last
  // redirection of each kind.
  function Args(x: Context, items: seq<Item>): seq<string> {
    if items == [] then []
    else (if Argument(x, items[0]) != "" then [Argument(x, items[0])] else []) + Args(x, items[1..])
  }

  function Vars(items: seq<Item>): seq<string> {
    if items == [] then [] else (if items[0].Var? then [ItemText(items[0])] else []) + Vars(items[1..])
  }

  function InFileOf(items: seq<Item>, before: string): string {
    if items == [] then before
    else InFileOf(items[1..], if items[0].In? || items[0].Inner? then items[0].file else before)
  }

  function OutFileOf(items: seq<Item>, before: string): string {
    if items == [] then before else OutFileOf(items[1..], if items[0].Out? then items[0].file else before)
  }

  function ErrFileOf(items: seq<Item>, before: string): string {
    if items == [] then before else ErrFileOf(items[1..], if items[0].Err? then items[0].file else before)
  }

  predicate Redirecting(item: Item) { item.In? || item.Out? || item.Err? || item.Lost? || item.Inner? }

  predicate Redirects(items: seq<Item>) { exists i :: 0 <= i < |items| && Redirecting(items[i]) }

  function Meaning(x: Context, items: seq<Item>): Cmd {
    var e := Program(Args(x, items), Vars(items), InFileOf(items, ""), OutFileOf(items, ""), ErrFileOf(items, ""));
    if Redirects(items) then Redir(e) else Exec(e)
  }

  function AddItem(x: Context, b: Building, item: Item): Building {
    match item
    case Var(_, _) => b.(e := b.e.(eargv := b.e.eargv + [ItemText(item)]))
    case In(file) => Building(b.e.(inFile := file), true)
    case Out(file) => Building(b.e.(outFile := file), true)
    case Err(_, file) => Building(b.e.(errFile := file), true)
    case Lost(_, _) => b.(redir := true)
    case Inner(_, file) => Building(b.e.(inFile := file), true)
    case _ => if Argument(x, item) == "" then b else b.(e := b.e.(argv := b.e.argv + [Argument(x, item)]))
  }

  lemma TokenOfItem(x: Context, b: Building, item: Item)
    requires ItemOk(item)
    ensures Token(x, b, ItemText(item)) == AddItem(x, b, item)
  {
    hide IndexFrom;
    var t := ItemText(item);
    match item {
      case Arg(w) =>
      case Ref(name) =>
        assert t[0] == '$' && t[1..] == name;
      case Status =>
      case Var(key, value) =>
        assert t[|key|] == '=' && forall j :: 0 <= j < |key| ==> t[j] == key[j];
        assert IndexOf(t, '=') == |key|;
      case In(file) =>
        assert t[0] == '<' && t[1..] == file;
      case Out(file) =>
        assert t[0] == '>' && t[1..] == file;
      case Err(c, file) =>
        assert t[0] == c && t[1] == '>' && t[2..] == file;
        assert IndexOf(t, '>') == 1;
      case Lost(text, file) =>
        assert t[|text|] == '>' && forall j :: 0 <= j < |text| ==> t[j] == text[j];
        assert IndexOf(t, '>') == |text|;
      case Inner(c, file) =>
        assert t[0] == c && t[1..] == file;
    }
  }

  // Every word without '&' is the text of an item, so nothing that stands between blanks is left out.
  lemma EveryWordIsAnItem(t: string) returns (item: Item)
    requires t != "" && Word(t)
    ensures ItemOk(item) && ItemText(item) == t
  {
    hide IndexOf, ItemOk, ItemText;
    if '>' in t {
      item := OutputItem(t);
    } else if '<' in t {
      item := InputItem(t);
    } else {
      item := PlainItem(t);
    }
  }

  lemma OutputItem(t: string) returns (item: Item)
    requires t != "" && Word(t) && '>' in t
    ensures ItemOk(item) && ItemText(item) == t
  {
    hide IndexFrom;
    var k := IndexOf(t, '>');
    var text, file := t[..k], t[k + 1..];
    assert t == text + ">" + file;
    if k == 0 {
      return Out(file);
    }
    if k == 1 {
      assert t == [t[0]] + (">" + file);
      return Err(t[0], file);
    }
    return Lost(text, file);
  }

  lemma InputItem(t: string) returns (item: Item)
    requires t != "" && Word(t) && '>' !in t && '<' in t
    ensures ItemOk(item) && ItemText(item) == t
  {
    assert t == [t[0]] + t[1..];
    return if t[0] == '<' then In(t[1..]) else Inner(t[0], t[1..]);
  }

  lemma PlainItem(t: string) returns (item: Item)
    requires t != "" && Plain(t)
    ensures ItemOk(item) && ItemText(item) == t
  {
    hide IndexFrom;
    assert t == [t[0]] + t[1..];
    if Assigns(t) {
      var k := IndexOf(t, '=');
      assert t == t[..k] + "=" + t[k + 1..];
      return Var(t[..k], t[k + 1..]);
    }
    if t[0] != '$' || |t| == 1 {
      return Arg(t);
    }
    return if t == "$?" then Status else Ref(t[1..]);
  }

  ghost predicate AllOk(items: seq<Item>) { forall item :: item in items ==> ItemOk(item) }

  function Texts(items: seq<Item>): (ts: seq<string>)
    ensures |ts| == |items|
  {
    if items == [] then [] else [ItemText(items[0])] + Texts(items[1..])
  }

  function AddItems(x: Context, b: Building, items: seq<Item>): Building
    decreases |items|
  {
    if items == [] then b else AddItems(x, AddItem(x, b, items[0]), items[1..])
  }

  lemma {:induction false} WordsAddItems(x: Context, b: Building, items: seq<Item>)
    requires AllOk(items)
    ensures AddWords(x, b, Texts(items)) == AddItems(x, b, items)
    decreases |items|
  {
    hide Token, AddItem;
    if items != [] {
      assert items[0] in items;
      TokenOfItem(x, b, items[0]);
      WordsAddItems(x, AddItem(x, b, items[0]), items[1..]);
      assert ([ItemText(items[0])] + Texts(items[1..]))[1..] == Texts(items[1..]);
    }
  }

  lemma {:induction false} AddItemsMeaning(x: Context, b: Building, items: seq<Item>)
    ensures AddItems(x, b, items) == Building(
      Program(b.e.argv + Args(x, items), b.e.eargv + Vars(items), InFileOf(items, b.e.inFile),
              OutFileOf(items, b.e.outFile), ErrFileOf(items, b.e.errFile)),
      b.redir || Redirects(items))
    decreases |items|
  {
    if items == [] {
      assert b.e.argv + [] == b.e.argv && b.e.eargv + [] == b.e.eargv;
      return;
    }
    var first, rest := items[0], items[1..];
    AddItemsMeaning(x, AddItem(x, b, first), rest);
    RedirectsStep(items);
    var arg := Argument(x, first);
    assert b.e.argv + [arg] + Args(x, rest) == b.e.argv + ([arg] + Args(x, rest));
    assert b.e.eargv + [ItemText(first)] + Vars(rest) == b.e.eargv + ([ItemText(first)] + Vars(rest));
    assert [] + Args(x, rest) == Args(x, rest) && [] + Vars(rest) == Vars(rest);
    hide Redirects;
  }

  lemma RedirectsStep(items: seq<Item>)
    requires items != []
    ensures Redirects(items) <==> Redirecting(items[0]) || Redirects(items[1..])
  {
    if Redirects(items) {
      var i :| 0 <= i < |items| && Redirecting(items[i]);
      assert i > 0 ==> items[1..][i - 1] == items[i];
    }
    if Redirects(items[1..]) {
      var i :| 0 <= i < |items[1..]| && Redirecting(items[1..][i]);
      assert items[i + 1] == items[1..][i];
    }
  }

  // ---------------------------------------------------------------- stages and lines

  // No '|', and every '&' right after a '>'.
  ghost predicate Calm(s: string) {
    forall i :: 0 <= i < |s| ==> CalmAt(s, i)
  }

  predicate CalmAt(s: string, i: nat)
    requires i < |s|
  {
    s[i] != '|' && (s[i] == '&' ==> i > 0 && s[i - 1] == '>')
  }

  lemma CalmConcat(a: string, b: string)
    requires Calm(a) && Calm(b)
    ensures Calm(a + b)
  {
    var s := a + b;
    forall i | 0 <= i < |s| ensures CalmAt(s, i) {
      if i < |a| {
        assert CalmAt(a, i);
      } else {
        assert CalmAt(b, i - |a|);
      }
    }
  }

  lemma ItemIsCalm(item: Item)
    requires ItemOk(item)
    ensures Calm(ItemText(item)) && ItemText(item) != "" && ' ' !in ItemText(item)
  {
    hide IndexOf;
    WordIsCalm();
    match item {
      case Arg(_) =>
      case Var(key, value) => CalmConcat(key, "="); CalmConcat(key + "=", value);
      case In(file) => CalmConcat("<", file);
      case Out(file) => CalmConcat(">", file);
      case Err(c, file) => if file != "&1" { CalmConcat(">", file); CalmConcat([c], ">" + file); }
      case Ref(name) => CalmConcat("$", name);
      case Status =>
      case Lost(text, file) => CalmConcat(text, ">"); CalmConcat(text + ">", file);
      case Inner(c, file) => CalmConcat([c], file);
    }
  }

  lemma WordIsCalm()
    ensures forall s :: Word(s) ==> Calm(s)
  {
  }

  ghost predicate CalmWords(words: seq<string>) { forall w :: w in words ==> w != "" && ' ' !in w && Calm(w) }

  lemma {:induction false} TextsAreCalm(items: seq<Item>)
    requires AllOk(items)
    ensures CalmWords(Texts(items))
  {
    hide ItemOk, Calm;
    if items != [] {
      assert items[0] in items;
      ItemIsCalm(items[0]);
      TextsAreCalm(items[1..]);
    }
  }

  lemma {:induction false} RenderIsCalm(words: seq<string>, gaps: seq<nat>)
    requires |gaps| == |words| + 1 && CalmWords(words)
    ensures Calm(Render(words, gaps))
    decreases |words|
  {
    BlanksAreCalm(gaps[0]);
    hide Calm, Blanks;
    if words != [] {
      var sep, rest := if |words| == 1 then "" else " ", Render(words[1..], gaps[1..]);
      assert words[0] in words;
      RenderIsCalm(words[1..], gaps[1..]);
      CalmConcat(sep, rest);
      CalmConcat(words[0], sep + rest);
      CalmConcat(Blanks(gaps[0]), words[0] + (sep + rest));
    }
  }

  lemma BlanksAreCalm(n: nat)
    ensures Calm(Blanks(n)) && Calm("") && Calm(" ")
  {
  }

  lemma CalmIsForeground(s: string)
    requires Calm(s)
    ensures '|' !in s && !Background(s)
  {
    hide IndexFrom;
    var i := IndexOf(s, '&');
    assert i >= 0 ==> CalmAt(s, i);
    forall j | 0 <= j < |s| ensures s[j] != '|' {
      assert CalmAt(s, j);
    }
  }

  // A stage of a line: its items, and how many blanks stand around them.
  datatype Stage = Stage(items: seq<Item>, gaps: seq<nat>)

  ghost predicate StageWritable(s: Stage) { s.items != [] && Spaced(s) && AllOk(s.items) }

  predicate Spaced(s: Stage) { |s.gaps| == |s.items| + 1 }

  function StageText(s: Stage): string {
    if Spaced(s) then Render(Texts(s.items), s.gaps) else ""
  }

  lemma StageRoundTrip(x: Context, s: Stage)
    requires StageWritable(s)
    ensures StageOk(StageText(s)) && StageCmd(x, StageText(s)) == Meaning(x, s.items)
  {
    hide Words, Background, Render, AddWords, AddItems, AllOk, Redirects, Calm;
    var words := Texts(s.items);
    TextsAreCalm(s.items);
    WordsOfRender(words, s.gaps);
    RenderIsCalm(words, s.gaps);
    CalmIsForeground(StageText(s));
    WordsAddItems(x, EMPTY, s.items);
    AddItemsMeaning(x, EMPTY, s.items);
    assert [] + Args(x, s.items) == Args(x, s.items) && [] + Vars(s.items) == Vars(s.items);
  }

  function LineTexts(stages: seq<Stage>): (ts: seq<string>)
    ensures |ts| == |stages|
  {
    if stages == [] then [] else [StageText(stages[0])] + LineTexts(stages[1..])
  }

  function LineTree(x: Context, stages: seq<Stage>): Cmd
    requires stages != []
  {
    if |stages| == 1 then Meaning(x, stages[0].items) else Pipe(Meaning(x, stages[0].items), LineTree(x, stages[1..]))
  }

  lemma {:induction false} LineTextsOk(x: Context, stages: seq<Stage>)
    requires stages != [] && forall s :: s in stages ==> StageWritable(s)
    ensures (forall t :: t in LineTexts(stages) ==> StageOk(t)) && Chain(x, LineTexts(stages)) == LineTree(x, stages)
    decreases |stages|
  {
    hide StageOk, StageCmd, Meaning, StageText;
    assert stages[0] in stages;
    StageRoundTrip(x, stages[0]);
    var texts := LineTexts(stages);
    assert texts[0] == StageText(stages[0]) && texts[1..] == LineTexts(stages[1..]);
    ChainIs(x, texts);
    if |stages| > 1 { LineTextsOk(x, stages[1..]); }
  }

  // Any nonempty list of commands, written with any blanks, with '|' between them, is parsed as the
  // right-nested tree of exactly those commands in that order.
  lemma LineRoundTrip(x: Context, stages: seq<Stage>)
    requires stages != [] && forall s :: s in stages ==> StageWritable(s)
    ensures ParseLine(x, Join(LineTexts(stages))) == Tree(LineTree(x, stages))
  {
    hide ParseLine, Join, Chain, StageOk, LineTree;
    LineTextsOk(x, stages);
    ParseLineOfJoin(x, LineTexts(stages));
  }

  // And it is run as that many processes, stage i being command i of the pipeline.
  lemma {:induction false} LineCommands(x: Context, stages: seq<Stage>)
    requires stages != []
    ensures |Commands(LineTree(x, stages))| == |stages|
    ensures forall i :: 0 <= i < |stages| ==> Commands(LineTree(x, stages))[i] == Meaning(x, stages[i].items)
    decreases |stages|
  {
    hide Redirects, Args, Vars, InFileOf, OutFileOf, ErrFileOf;
    if |stages| > 1 {
      LineCommands(x, stages[1..]);
    }
  }

  // The comment above parse_environ_var exempts options such as -arg=value by their key; the code
  // looks for '-' in the whole token, so that NAME=some-value is passed as an argument.
  lemma DashInValue(x: Context, b: Building, key: string, value: string)
    requires Plain(key) && Plain(value) && key != "" && key[0] != '$' && '=' !in key
    ensures var tok := key + "=" + value;
      Token(x, b, tok) ==
        if '-' in key || '-' in value then b.(e := b.e.(argv := b.e.argv + [tok]))
        else b.(e := b.e.(eargv := b.e.eargv + [tok]))
  {
    hide IndexFrom;
    var tok := key + "=" + value;
    assert tok[|key|] == '=' && forall j :: 0 <= j < |key| ==> tok[j] == key[j];
    assert IndexOf(tok, '=') == |key|;
  }
}
