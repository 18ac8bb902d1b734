// The text of a fisopfs directory (fisopfs/file.c): one entry a line in a zero-filled buffer.
// A buffer is the sequence of its first `size` characters; reading at its end finds a terminator.
module DirContent {
  import opened Strings

  const NUL := '\0'
  const INITIAL_CONTENT_LENGTH := 1024

  function Zeros(n: nat): (s: string)
    ensures |s| == n && forall i :: 0 <= i < n ==> s[i] == NUL
  {
    seq(n, _ => NUL)
  }

  // strlen.
  function StrLen(s: string): (n: nat)
    ensures n <= |s| && (forall i :: 0 <= i < n ==> s[i] != NUL) && (n < |s| ==> s[n] == NUL)
  {
    if s == "" || s[0] == NUL then 0 else 1 + StrLen(s[1..])
  }

  // The C string in a buffer.
  function Text(s: string): (t: string)
    ensures NUL !in t
  {
    s[..StrLen(s)]
  }

  lemma StrLenIs(s: string, n: nat)
    requires n <= |s| && (forall i :: 0 <= i < n ==> s[i] != NUL) && (n < |s| ==> s[n] == NUL)
    ensures StrLen(s) == n
  {
    hide StrLen;
  }

  lemma TextIs(s: string, t: string)
    requires t <= s && NUL !in t && (|t| < |s| ==> s[|t|] == NUL)
    ensures Text(s) == t
  {
    StrLenIs(s, |t|);
  }

  // add_dentry_to_content. With room, strcpy leaves what follows its terminator.
  function AddDentry(content: string, dentry: string): string {
    var kept := Text(content);
    var len := |kept| + |dentry| + 1;
    if len > |content| then kept + dentry + "\n" + Zeros(|content| + |dentry| + 1 + INITIAL_CONTENT_LENGTH - len)
    else if len == |content| then kept + dentry + "\n"
    else kept + dentry + "\n" + [NUL] + content[len + 1..]
  }

  lemma AddDentryText(content: string, dentry: string)
    requires NUL !in dentry
    ensures Text(AddDentry(content, dentry)) == Text(content) + dentry + "\n"
  {
    TextIs(AddDentry(content, dentry), Text(content) + dentry + "\n");
  }

  // The buffer grows, by the entry, its newline and INITIAL_CONTENT_LENGTH, exactly if the new text
  // does not fit; otherwise it keeps its size and all but the bytes written.
  lemma AddDentrySize(content: string, dentry: string)
    requires NUL !in dentry
    ensures var len, added := |Text(content)| + |dentry| + 1, AddDentry(content, dentry);
      && |added| == (if len > |content| then |content| + |dentry| + 1 + 1024 else |content|)
      && (forall i :: |Text(content)| + |dentry| + 1 < i < |added| && len <= |content| ==> added[i] == content[i])
  {
    hide StrLen;
  }

  // ---------------------------------------------------------------- lines

  // The end of the line that starts at offset: the next newline, or the end of the text.
  function LineEnd(text: string, offset: nat): (k: nat)
    requires offset <= |text|
    ensures offset <= k <= |text| && (k < |text| ==> text[k] == '\n')
    ensures forall i :: offset <= i < k ==> text[i] != '\n'
    decreases |text| - offset
  {
    if offset == |text| || text[offset] == '\n' then offset else LineEnd(text, offset + 1)
  }

  lemma LineEndIs(text: string, offset: nat, k: nat)
    requires offset <= k <= |text| && (k < |text| ==> text[k] == '\n')
    requires forall i :: offset <= i < k ==> text[i] != '\n'
    ensures LineEnd(text, offset) == k
  {
    hide LineEnd;
  }

  // The entries from offset on; a last line without newline counts.
  function Lines(text: string, offset: nat): seq<string>
    requires offset <= |text|
    decreases |text| - offset
  {
    if offset == |text| then []
    else
      var k := LineEnd(text, offset);
      [text[offset..k]] + if k == |text| then [] else Lines(text, k + 1)
  }

  function Render(names: seq<string>): string {
    if names == [] then "" else names[0] + "\n" + Render(names[1..])
  }

  predicate OneLine(name: string) { '\n' !in name && NUL !in name }

  lemma {:induction false} RenderAppend(names: seq<string>, name: string)
    ensures Render(names + [name]) == Render(names) + name + "\n"
  {
    if names == [] {
      assert [name][1..] == [];
    } else {
      RenderAppend(names[1..], name);
      assert (names + [name])[1..] == names[1..] + [name];
    }
  }

  lemma ShiftedLine(text: string, before: string, offset: nat, k: nat)
    requires offset <= |text| && k == LineEnd(text, offset)
    ensures LineEnd(before + text, |before| + offset) == |before| + k
    ensures (before + text)[|before| + offset..|before| + k] == text[offset..k]
  {
    hide LineEnd;
    forall i | |before| + offset <= i < |before| + k ensures (before + text)[i] != '\n' {
      assert (before + text)[i] == text[i - |before|];
    }
    LineEndIs(before + text, |before| + offset, |before| + k);
  }

  lemma LinesStep(text: string, offset: nat)
    requires offset < |text|
    ensures var k := LineEnd(text, offset);
      Lines(text, offset) == [text[offset..k]] + if k == |text| then [] else Lines(text, k + 1)
  {
  }

  lemma NoLines(text: string)
    ensures Lines(text, |text|) == []
  {
  }

  lemma {:induction false} LinesOfTail(text: string, before: string, offset: nat)
    requires offset <= |text|
    ensures Lines(before + text, |before| + offset) == Lines(text, offset)
    decreases |text| - offset
  {
    hide LineEnd, Lines;
    if offset == |text| {
      NoLines(text);
      NoLines(before + text);
      return;
    }
    var k := LineEnd(text, offset);
    ShiftedLine(text, before, offset, k);
    LinesStep(text, offset);
    LinesStep(before + text, |before| + offset);
    if k < |text| { LinesOfTail(text, before, k + 1); }
  }

  lemma FirstLine(first: string, rest: string)
    requires '\n' !in first
    ensures Lines(first + "\n" + rest, 0) == [first] + Lines(rest, 0)
  {
    hide LineEnd, Lines;
    var text := first + "\n" + rest;
    LineEndIs(text, 0, |first|);
    LinesStep(text, 0);
    assert text[0..|first|] == first;
    LinesOfTail(rest, first + "\n", 0);
  }

  // Parsing a rendered list of names gives the names back.
  lemma {:induction false} LinesOfRender(names: seq<string>)
    requires forall n :: n in names ==> '\n' !in n
    ensures Lines(Render(names), 0) == names
  {
    hide LineEnd, Lines;
    if names == [] {
      NoLines("");
    } else {
      assert names[0] in names;
      LinesOfRender(names[1..]);
      FirstLine(names[0], Render(names[1..]));
    }
  }

  predicate NoRepeats(names: seq<string>) {
    forall i, j :: 0 <= i < j < |names| ==> names[i] != names[j]
  }

  // The names other than name, in order.
  function Without(names: seq<string>, name: string): (r: seq<string>)
    ensures forall n :: n in r <==> n in names && n != name
  {
    if names == [] then []
    else
      var rest := Without(names[1..], name);
      assert forall n :: n in names <==> n == names[0] || n in names[1..];
      if names[0] == name then rest else [names[0]] + rest
  }

  // Exactly one name goes and the others keep their order.
  lemma {:induction false} WithoutOne(names: seq<string>, i: nat)
    requires NoRepeats(names) && i < |names|
    ensures Without(names, names[i]) == names[..i] + names[i + 1..]
  {
    hide Without;
    var first, rest := names[0], names[1..];
    assert names == [first] + rest && NoRepeats(rest);
    WithoutStep(first, rest, names[i]);
    if i == 0 {
      assert first !in rest;
      WithoutNone(rest, first);
      assert names[..0] + names[1..] == rest;
    } else {
      WithoutOne(rest, i - 1);
      assert first != names[i] == rest[i - 1];
      assert [first] + (rest[..i - 1] + rest[i..]) == names[..i] + names[i + 1..];
    }
  }

  lemma {:induction false} WithoutNone(names: seq<string>, name: string)
    requires name !in names
    ensures Without(names, name) == names
  {
    if names != [] {
      WithoutNone(names[1..], name);
    }
  }

  lemma {:induction false} WithoutNoRepeats(names: seq<string>, name: string)
    requires NoRepeats(names)
    ensures NoRepeats(Without(names, name))
  {
    if names != [] {
      assert NoRepeats(names[1..]) && names[0] !in names[1..];
      WithoutNoRepeats(names[1..], name);
      var rest := Without(names[1..], name);
      assert names[0] !in rest;
    }
  }

  // The content after appending entries one by one.
  function AddAll(content: string, names: seq<string>): string
    decreases |names|
  {
    if names == [] then content else AddAll(AddDentry(content, names[0]), names[1..])
  }

  lemma {:induction false} AddAllText(content: string, names: seq<string>)
    requires forall n :: n in names ==> NUL !in n
    ensures Text(AddAll(content, names)) == Text(content) + Render(names)
    decreases |names|
  {
    hide AddDentry, Text;
    if names == [] {
      assert Text(content) + "" == Text(content);
      return;
    }
    assert names[0] in names;
    AddDentryText(content, names[0]);
    AddAllText(AddDentry(content, names[0]), names[1..]);
    var before, line, rest := Text(content), names[0] + "\n", Render(names[1..]);
    assert Render(names) == line + rest;
    assert before + names[0] + "\n" == before + line;
    Associates(before, line, rest);
  }

  // What remove_inode makes of its parent's content.
  function RemoveDentry(content: string, name: string): string {
    AddAll(Zeros(|content|), Without(Lines(Text(content), 0), name))
  }

  // ---------------------------------------------------------------- the C functions

  lemma NextInText(s: string, at: nat)
    requires at < |s| && at <= |Text(s)| && s[at] != NUL
    ensures at < |Text(s)| && Text(s)[at] == s[at]
  {
    hide StrLen;
  }

  lemma TextEnds(s: string, at: nat)
    requires at <= |Text(s)| && (at == |s| || s[at] == NUL)
    ensures at == |Text(s)|
  {
    hide StrLen;
  }

  lemma TextFits(s: string)
    ensures Text(s) <= s
  {
    hide StrLen;
  }

  // read_line; the characters read, and how far the offset moves.
  method ReadLine(content: string, offset: nat) returns (buffer: string, n: nat)
    requires offset <= |Text(content)|
    ensures buffer == Text(content)[offset..LineEnd(Text(content), offset)]
    ensures n == if offset == |Text(content)| then 0 else |buffer| + 1
  {
    hide Text, LineEnd;
    ghost var text := Text(content);
    TextFits(content);
    buffer := "";
    var at := offset;
    while at < |content| && content[at] != '\n' && content[at] != NUL
      invariant offset <= at <= |text| && buffer == text[offset..at]
      invariant forall i :: offset <= i < at ==> text[i] != '\n'
    {
      NextInText(content, at);
      buffer := buffer + [content[at]];
      at := at + 1;
    }
    if at < |content| && content[at] != NUL { NextInText(content, at); } else { TextEnds(content, at); }
    LineEndIs(text, offset, at);
    if (at == |content| || content[at] == NUL) && |buffer| == 0 {
      return buffer, 0;
    }
    return buffer, |buffer| + 1;
  }

  // The entries that are left at offset.
  ghost function Rest(text: string, offset: nat): seq<string> {
    if offset < |text| then Lines(text, offset) else []
  }

  lemma RestStep(text: string, offset: nat)
    requires offset < |text|
    ensures var line := text[offset..LineEnd(text, offset)];
      Rest(text, offset) == [line] + Rest(text, offset + |line| + 1)
  {
    hide LineEnd;
    var k := LineEnd(text, offset);
    var line := text[offset..k];
    var rest := if k == |text| then [] else Lines(text, k + 1);
    assert Lines(text, offset) == [line] + rest;
    assert rest == Rest(text, k + 1) by { RestIs(text, k); }
  }

  lemma RestIs(text: string, k: nat)
    requires k <= |text|
    ensures Rest(text, k + 1) == if k == |text| then [] else Lines(text, k + 1)
  {
  }

  // The loop of fisopfs_readdir over the entries of a directory.
  method ReadEntries(content: string) returns (names: seq<string>)
    ensures names == Lines(Text(content), 0)
  {
    hide Text, LineEnd, Lines;
    names := [];
    var offset := 0;
    ghost var text := Text(content);
    while offset < |Text(content)|
      invariant 0 <= offset
      invariant Rest(text, 0) == names + Rest(text, offset)
      decreases |text| - offset
    {
      RestStep(text, offset);
      var buff, n := ReadLine(content, offset);
      names := names + [buff];
      offset := offset + n;
    }
    assert Rest(text, 0) == Lines(text, 0) by { AllRests(text); }
  }

  lemma AllRests(text: string)
    ensures Rest(text, 0) == Lines(text, 0)
  {
  }

  lemma WithoutStep(first: string, rest: seq<string>, name: string)
    ensures Without([first] + rest, name) ==
      if first == name then Without(rest, name) else [first] + Without(rest, name)
  {
    assert ([first] + rest)[1..] == rest;
  }

  lemma AddAllStep(content: string, first: string, rest: seq<string>)
    ensures AddAll(content, [first] + rest) == AddAll(AddDentry(content, first), rest)
  {
    assert ([first] + rest)[1..] == rest;
  }

  // The loop of remove_inode: copy every entry but one to a cleared buffer.
  method CopyEntries(content: string, name: string) returns (copy: string)
    ensures copy == RemoveDentry(content, name)
  {
    hide Text, LineEnd, Lines, AddAll, AddDentry, Without, Rest;
    copy := Zeros(|content|);
    var offset := 0;
    ghost var text := Text(content);
    AllRests(text);
    while offset < |Text(content)|
      invariant 0 <= offset
      invariant AddAll(copy, Without(Rest(text, offset), name)) == RemoveDentry(content, name)
      decreases |text| - offset
    {
      RestStep(text, offset);
      var buff, n := ReadLine(content, offset);
      WithoutStep(buff, Rest(text, offset + n), name);
      if buff != name {
        AddAllStep(copy, buff, Without(Rest(text, offset + n), name));
        copy := AddDentry(copy, buff);
      }
      offset := offset + n;
    }
    NothingRests(text, offset, copy, name);
  }

  lemma NothingRests(text: string, offset: nat, copy: string, name: string)
    requires |text| <= offset
    ensures AddAll(copy, Without(Rest(text, offset), name)) == copy
  {
  }
}
