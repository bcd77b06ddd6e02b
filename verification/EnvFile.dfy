/** Setting one variable of an env file in place (updater/server.py). A line ends at a newline. */
module EnvFile {
  import Names
  import Normalization
  import opened Wrappers

  // ----- lines and content

  /** The length of the first line, its newline included. */
  function LineLength(content: string): (n: nat)
    ensures n <= |content| && (content != "" ==> n > 0)
  {
    if content == "" then 0 else if content[0] == '\n' then 1 else 1 + LineLength(content[1..])
  }

  /** splitlines(keepends=True) */
  function Split(content: string): seq<string> {
    if content == "" then []
    else
      var n := LineLength(content);
      [content[..n]] + Split(content[n..])
  }

  function Join(lines: seq<string>): string {
    if lines == [] then "" else lines[0] + Join(lines[1..])
  }

  predicate NoNewline(s: string) {
    forall i | 0 <= i < |s| :: s[i] != '\n'
  }

  predicate EndsLine(line: string) {
    line != "" && line[|line| - 1] == '\n'
  }

  predicate IsLine(line: string) {
    line != "" && NoNewline(line[..|line| - 1])
  }

  /** What Split gives: newlines end every line but perhaps the last, and stand nowhere else. */
  predicate AreLines(lines: seq<string>) {
    lines == [] || (IsLine(lines[0]) && (EndsLine(lines[0]) || |lines| == 1) && AreLines(lines[1..]))
  }

  lemma {:induction false} FirstLine(content: string)
    requires content != ""
    ensures var n := LineLength(content);
            IsLine(content[..n]) && (EndsLine(content[..n]) || n == |content|)
  {
    var n := LineLength(content);
    if content[0] != '\n' && |content| > 1 {
      FirstLine(content[1..]);
      var line, rest := content[..n], content[1..][..n - 1];
      assert line == [content[0]] + rest && line[..n - 1] == [content[0]] + rest[..n - 2];
    }
  }

  lemma {:induction false} JoinSplit(content: string)
    ensures Join(Split(content)) == content && AreLines(Split(content))
    decreases |content|
  {
    if content != "" {
      var n := LineLength(content);
      var line, rest := content[..n], content[n..];
      FirstLine(content);
      JoinSplit(rest);
      assert ([line] + Split(rest))[1..] == Split(rest);
      assert line + rest == content;
    }
  }

  lemma {:induction false} LineFirst(line: string, rest: string)
    requires IsLine(line) && (EndsLine(line) || rest == "")
    ensures LineLength(line + rest) == |line|
  {
    assert (line + rest)[1..] == line[1..] + rest;
    if |line| > 1 {
      assert line[0] == line[..|line| - 1][0];
      assert line[1..][..|line| - 2] == line[..|line| - 1][1..];
      LineFirst(line[1..], rest);
    }
  }

  lemma {:induction false} SplitJoin(lines: seq<string>)
    requires AreLines(lines)
    ensures Split(Join(lines)) == lines
  {
    if lines != [] {
      SplitJoin(lines[1..]);
      LineFirst(lines[0], Join(lines[1..]));
      var content := Join(lines);
      assert content[..|lines[0]|] == lines[0] && content[|lines[0]|..] == Join(lines[1..]);
      assert lines == [lines[0]] + lines[1..];
    }
  }

  // ----- the edit

  predicate IsKeyLine(line: string, key: string) {
    key + "=" <= Names.StripLeft(line)
  }

  function Terminated(line: string): string {
    if EndsLine(line) then line else line + "\n"
  }

  function SetLines(lines: seq<string>, key: string, line: string): seq<string> {
    if lines == [] then [line]
    else if IsKeyLine(lines[0], key) then [line] + lines[1..]
    else if |lines| == 1 then [Terminated(lines[0]), line]
    else [lines[0]] + SetLines(lines[1..], key, line)
  }

  function NewLine(key: string, value: string): string {
    key + "=" + value + "\n"
  }

  function SetContent(content: string, key: string, value: string): string {
    Join(SetLines(Split(content), key, NewLine(key, value)))
  }

  class EnvFile {
    var content: string

    constructor (content: string)
      ensures this.content == content
    {
      this.content := content;
    }

    method SetEnvVar(key: string, value: string)
      modifies this
      ensures content == SetContent(old(content), key, value)
    {
      var lines := Split(content);
      var newLine := key + "=" + value + "\n";
      var i := 0;
      while i < |lines| && !IsKeyLine(lines[i], key)
        invariant 0 <= i <= |lines|
        invariant forall k | 0 <= k < i :: !IsKeyLine(lines[k], key)
      {
        i := i + 1;
      }
      ghost var before := lines;
      FirstKeyLine(before, key, newLine, i);
      if i < |lines| {
        lines := lines[i := newLine];
      } else {
        if lines != [] && !EndsLine(lines[|lines| - 1]) {
          lines := lines[|lines| - 1 := lines[|lines| - 1] + "\n"];
        }
        lines := lines + [newLine];
        assert before != [] ==> before[|before| - 1 := before[|before| - 1]] == before;
      }
      assert lines == SetLines(before, key, newLine);
      content := Join(lines);
    }
  }

  /** A line is the key's if behind its white space it starts with the key and an equals sign. */
  lemma KeyLineExactly(before: string, rest: string, key: string)
    requires Normalization.AllBlank(before) && (rest == "" || !Normalization.Blank(rest[0]))
    ensures IsKeyLine(before + rest, key) <==> key + "=" <= rest
  {
    Normalization.StripLeftBlank(before, rest);
  }

  /** The first line with the key is replaced; without one, the line goes to the end. */
  lemma {:induction false} FirstKeyLine(lines: seq<string>, key: string, line: string, i: nat)
    requires i <= |lines| && forall k | 0 <= k < i :: !IsKeyLine(lines[k], key)
    requires i < |lines| ==> IsKeyLine(lines[i], key)
    ensures SetLines(lines, key, line) ==
              if i < |lines| then lines[i := line]
              else if lines == [] then [line]
              else lines[|lines| - 1 := Terminated(lines[|lines| - 1])] + [line]
  {
    if lines != [] && i > 0 {
      assert !IsKeyLine(lines[0], key);
      assert forall k | 0 <= k < |lines[1..]| :: lines[1..][k] == lines[k + 1];
      if |lines| > 1 {
        FirstKeyLine(lines[1..], key, line, i - 1);
      }
    }
  }

  // ----- reading it back

  /** Keys and values an env file can carry. */
  predicate Plain(key: string) {
    forall i | 0 <= i < |key| :: !Names.IsSpace(key[i]) && key[i] != '='
  }

  function LineValue(line: string, key: string): string
    requires IsKeyLine(line, key)
  {
    var text := Names.StripLeft(line)[|key| + 1..];
    if EndsLine(text) then text[..|text| - 1] else text
  }

  /** The value a reader takes for the key: its last line wins. */
  function Get(lines: seq<string>, key: string): Option<string> {
    if lines == [] then None
    else
      var rest := Get(lines[1..], key);
      if rest.Some? then rest
      else if IsKeyLine(lines[0], key) then Some(LineValue(lines[0], key)) else None
  }

  function KeyLines(lines: seq<string>, key: string): nat {
    if lines == [] then 0 else (if IsKeyLine(lines[0], key) then 1 else 0) + KeyLines(lines[1..], key)
  }

  lemma NewLineReads(key: string, value: string)
    requires Plain(key)
    ensures IsKeyLine(NewLine(key, value), key) && LineValue(NewLine(key, value), key) == value
  {
    var line := NewLine(key, value);
    assert line[0] == if key == "" then '=' else key[0];
    assert Names.StripLeft(line) == line;
    assert line[..|key| + 1] == key + "=";
    assert line[|key| + 1..] == value + "\n";
  }

  lemma NewLineIsLine(key: string, value: string)
    requires Plain(key) && NoNewline(value)
    ensures EndsLine(NewLine(key, value)) && IsLine(NewLine(key, value))
  {
    assert NewLine(key, value)[..|NewLine(key, value)| - 1] == key + "=" + value;
  }

  lemma TerminatedIsLine(line: string)
    requires IsLine(line)
    ensures IsLine(Terminated(line)) && EndsLine(Terminated(line))
  {
    if !EndsLine(line) {
      assert Terminated(line)[..|line|] == line == line[..|line| - 1] + [line[|line| - 1]];
    }
  }

  lemma {:induction false} SetKeepsLines(lines: seq<string>, key: string, line: string)
    requires AreLines(lines) && EndsLine(line) && IsLine(line)
    ensures AreLines(SetLines(lines, key, line)) && SetLines(lines, key, line) != []
  {
    assert [line][1..] == [];
    if lines == [] {
    } else if IsKeyLine(lines[0], key) {
      assert ([line] + lines[1..])[1..] == lines[1..];
    } else if |lines| == 1 {
      TerminatedIsLine(lines[0]);
      assert [Terminated(lines[0]), line][1..] == [line];
    } else {
      SetKeepsLines(lines[1..], key, line);
      assert ([lines[0]] + SetLines(lines[1..], key, line))[1..] == SetLines(lines[1..], key, line);
    }
  }

  lemma {:induction false} GetNone(lines: seq<string>, key: string)
    ensures Get(lines, key).None? <==> KeyLines(lines, key) == 0
  {
    if lines != [] {
      GetNone(lines[1..], key);
    }
  }

  /** Get after set: the new value is read back exactly when the key had at most one line, or its
      last line already said so. */
  lemma {:induction false} GetAfterSet(lines: seq<string>, key: string, value: string)
    requires Plain(key)
    ensures Get(SetLines(lines, key, NewLine(key, value)), key) == Some(value)
       <==> KeyLines(lines, key) <= 1 || Get(lines, key) == Some(value)
  {
    var line := NewLine(key, value);
    NewLineReads(key, value);
    if lines == [] {
      assert [line][1..] == [];
    } else if IsKeyLine(lines[0], key) {
      assert ([line] + lines[1..])[1..] == lines[1..];
      GetNone(lines[1..], key);
    } else if |lines| == 1 {
      TerminatedKey(lines[0], key);
      assert [Terminated(lines[0]), line][1..] == [line] && [line][1..] == [] && lines[1..] == [];
      assert Get([line], key) == Some(value) == Get([Terminated(lines[0]), line], key);
    } else {
      GetAfterSet(lines[1..], key, value);
      assert ([lines[0]] + SetLines(lines[1..], key, line))[1..] == SetLines(lines[1..], key, line);
    }
  }

  /** The last of two sets stands alone, so setting the same value again changes nothing. */
  lemma {:induction false} LastSetWins(lines: seq<string>, key: string, first: string, last: string)
    requires Plain(key)
    ensures SetLines(SetLines(lines, key, NewLine(key, first)), key, NewLine(key, last))
              == SetLines(lines, key, NewLine(key, last))
  {
    NewLineReads(key, first);
    var a := NewLine(key, first);
    if lines == [] || IsKeyLine(lines[0], key) {
      assert ([a] + if lines == [] then [] else lines[1..])[1..] == if lines == [] then [] else lines[1..];
    } else if |lines| == 1 {
      TerminatedKey(lines[0], key);
      assert [Terminated(lines[0]), a][1..] == [a];
    } else {
      LastSetWins(lines[1..], key, first, last);
      SetNotEmpty(lines[1..], key, a);
      assert ([lines[0]] + SetLines(lines[1..], key, a))[1..] == SetLines(lines[1..], key, a);
    }
  }

  lemma SetNotEmpty(lines: seq<string>, key: string, line: string)
    ensures SetLines(lines, key, line) != []
  {
  }

  lemma {:induction false} StripAppend(s: string)
    ensures Names.StripLeft(s + "\n") == if Names.StripLeft(s) == "" then "" else Names.StripLeft(s) + "\n"
  {
    if s == "" {
      assert s + "\n" == "\n" && "\n"[1..] == "";
    } else if Names.IsSpace(s[0]) {
      StripAppend(s[1..]);
      assert (s + "\n")[1..] == s[1..] + "\n";
    }
  }

  lemma {:induction false} StripEnds(line: string)
    requires Names.StripLeft(line) != ""
    ensures EndsLine(Names.StripLeft(line)) <==> EndsLine(line)
  {
    if Names.IsSpace(line[0]) {
      StripEnds(line[1..]);
    }
  }

  lemma PrefixBeforeNewline(s: string, text: string)
    requires NoNewline(text)
    ensures text <= s + "\n" <==> text <= s
  {
    if |text| <= |s| {
      assert (s + "\n")[..|text|] == s[..|text|];
    } else {
      assert (s + "\n")[|s|] == '\n' && text[|s|] != '\n';
    }
  }

  /** The newline added to an unfinished last line changes neither its key nor its value. */
  lemma TerminatedKey(line: string, key: string)
    requires Plain(key)
    ensures IsKeyLine(Terminated(line), key) <==> IsKeyLine(line, key)
    ensures IsKeyLine(line, key) ==> LineValue(Terminated(line), key) == LineValue(line, key)
  {
    if !EndsLine(line) {
      StripAppend(line);
      var s := Names.StripLeft(line);
      if s != "" {
        StripEnds(line);
        PrefixBeforeNewline(s, key + "=");
        if IsKeyLine(line, key) {
          assert (s + "\n")[|key| + 1..] == s[|key| + 1..] + "\n";
        }
      }
    }
  }

  // ----- the file

  function FirstEquals(s: string): (n: nat)
    ensures n <= |s|
  {
    if s == "" || s[0] == '=' then 0 else 1 + FirstEquals(s[1..])
  }

  lemma {:induction false} KeyIsHead(s: string, key: string)
    requires Plain(key) && key + "=" <= s
    ensures FirstEquals(s) == |key| && s[..FirstEquals(s)] == key
  {
    assert s[..|key| + 1] == key + "=" && s[|key|] == '=';
    if key != "" {
      assert s[0] == key[0];
      assert s[1..][..|key|] == key[1..] + "=";
      KeyIsHead(s[1..], key[1..]);
      assert key == [key[0]] + key[1..];
    }
  }

  lemma OneKeyPerLine(line: string, key: string, other: string)
    requires Plain(key) && Plain(other) && key != other
    ensures !(IsKeyLine(line, key) && IsKeyLine(line, other))
  {
    if IsKeyLine(line, key) {
      KeyIsHead(Names.StripLeft(line), key);
    }
    if IsKeyLine(line, other) {
      KeyIsHead(Names.StripLeft(line), other);
    }
  }

  /** Every other variable reads as before. */
  lemma {:induction false} OtherKeysStay(lines: seq<string>, key: string, value: string, other: string)
    requires Plain(key) && Plain(other) && key != other
    ensures Get(SetLines(lines, key, NewLine(key, value)), other) == Get(lines, other)
  {
    var line := NewLine(key, value);
    NewLineReads(key, value);
    OneKeyPerLine(line, key, other);
    assert [line][1..] == [];
    if lines == [] {
    } else if IsKeyLine(lines[0], key) {
      OneKeyPerLine(lines[0], key, other);
      assert ([line] + lines[1..])[1..] == lines[1..];
    } else if |lines| == 1 {
      TerminatedKey(lines[0], other);
      assert [Terminated(lines[0]), line][1..] == [line];
    } else {
      OtherKeysStay(lines[1..], key, value, other);
      assert ([lines[0]] + SetLines(lines[1..], key, line))[1..] == SetLines(lines[1..], key, line);
    }
  }

  function Read(content: string, key: string): Option<string> {
    Get(Split(content), key)
  }

  /** The whole edit, on any file content: when the new value is read back, that all other
      variables stay, and that the last of two sets is the only one that shows. */
  lemma EditIsSound(content: string, key: string, value: string, first: string)
    requires Plain(key) && NoNewline(value) && NoNewline(first)
    ensures Read(SetContent(content, key, value), key) == Some(value)
       <==> KeyLines(Split(content), key) <= 1 || Read(content, key) == Some(value)
    ensures forall other | Plain(other) && other != key ::
              Read(SetContent(content, key, value), other) == Read(content, other)
    ensures SetContent(SetContent(content, key, first), key, value) == SetContent(content, key, value)
  {
    var lines := Split(content);
    JoinSplit(content);
    NewLineIsLine(key, value);
    NewLineIsLine(key, first);
    SetKeepsLines(lines, key, NewLine(key, value));
    SetKeepsLines(lines, key, NewLine(key, first));
    SplitJoin(SetLines(lines, key, NewLine(key, value)));
    SplitJoin(SetLines(lines, key, NewLine(key, first)));
    GetAfterSet(lines, key, value);
    LastSetWins(lines, key, first, value);
    forall other | Plain(other) && other != key
      ensures Read(SetContent(content, key, value), other) == Read(content, other)
    {
      OtherKeysStay(lines, key, value, other);
    }
  }
}
