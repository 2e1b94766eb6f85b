/** Reading and rewriting `server.properties`. */
module Properties {
  import opened Text

  datatype Entry = Entry(key: string, value: string)

  /** What a line says: nothing for blank lines, comments and lines without `=`. */
  function ParseLine(line: string): Option<Entry> {
    var t := TrimSpace(line);
    if t == "" || "#" <= t then None
    else match Cut(t, '=')
      case None => None
      case Some(kv) => Some(Entry(TrimSpace(kv.0), TrimSpace(kv.1)))
  }

  /** Blank lines, comments and lines without `=` say nothing; any other line of a key and a
      value, with white space around them or not, says that value. */
  lemma LineMeans(line: string)
    ensures TrimSpace(line) == "" || ("#" <= TrimSpace(line)) || '=' !in TrimSpace(line) ==> ParseLine(line).None?
    ensures forall key, value: string :: (
              && TrimSpace(line) == key + ['='] + value && '=' !in key && !("#" <= key + ['='] + value)
              ==> ParseLine(line) == Some(Entry(TrimSpace(key), TrimSpace(value))))
  {
    hide TrimSpace, Cut;
    CutFinds(TrimSpace(line), '=');
    forall key, value: string | TrimSpace(line) == key + ['='] + value && '=' !in key && !("#" <= key + ['='] + value)
      ensures ParseLine(line) == Some(Entry(TrimSpace(key), TrimSpace(value)))
    {
      CutAt(key, '=', value);
    }
  }

  /** The map a file stands for; a later line for the same key wins. */
  function Parse(lines: seq<string>): map<string, string> {
    if lines == [] then map[]
    else
      var props, last := Parse(lines[..|lines| - 1]), ParseLine(lines[|lines| - 1]);
      if last.Some? then props[last.value.key := last.value.value] else props
  }

  predicate Names(line: string, key: string) {
    var e := ParseLine(line);
    e.Some? && e.value.key == key
  }

  function NewLine(key: string, value: string): string {
    key + ['='] + value
  }

  /** Every line for the key replaced, the others as they were, in order. */
  function Replaced(lines: seq<string>, key: string, value: string): (r: seq<string>)
    ensures |r| == |lines|
    ensures forall i :: 0 <= i < |lines| ==> r[i] == if Names(lines[i], key) then NewLine(key, value) else lines[i]
  {
    seq(|lines|, i requires 0 <= i < |lines| => if Names(lines[i], key) then NewLine(key, value) else lines[i])
  }

  /** The lines after the update: the key's line is added if there was none. */
  function Rewritten(lines: seq<string>, key: string, value: string): seq<string> {
    Replaced(lines, key, value)
    + if Mentions(lines, key) then [] else [NewLine(key, value)]
  }

  /** Some line is for the key. */
  predicate Mentions(lines: seq<string>, key: string) {
    lines != [] && (Names(lines[|lines| - 1], key) || Mentions(lines[..|lines| - 1], key))
  }

  function Written(data: string, key: string, value: string): string {
    Join(Rewritten(Split(data, '\n'), key, value), '\n')
  }

  /** `ReadProperties`; None when the file cannot be read. */
  method ReadProperties(file: Option<string>) returns (props: Option<map<string, string>>)
    ensures props == if file.Some? then Some(Parse(Split(file.value, '\n'))) else None
  {
    hide ParseLine;
    if file.None? { return None; }
    var lines := Split(file.value, '\n');
    var out: map<string, string> := map[];
    for i := 0 to |lines|
      invariant out == Parse(lines[..i])
    {
      assert lines[..i + 1][..i] == lines[..i];
      var e := ParseLine(lines[i]);
      if e.Some? { out := out[e.value.key := e.value.value]; }
    }
    assert lines[..|lines|] == lines;
    props := Some(out);
  }

  /** `WriteProperty`: rewrites the line slice in place. */
  method WriteProperty(file: Option<string>, key: string, value: string) returns (data: Option<string>)
    ensures data == if file.Some? then Some(Written(file.value, key, value)) else None
  {
    hide ParseLine, Split, Names;
    if file.None? { return None; }
    var original := Split(file.value, '\n');
    var lines := original;
    var replaced := false;
    for i := 0 to |original|
      invariant |lines| == |original|
      invariant forall j :: 0 <= j < i ==> lines[j] == Replaced(original, key, value)[j]
      invariant forall j :: i <= j < |original| ==> lines[j] == original[j]
      invariant replaced <==> Mentions(original[..i], key)
    {
      assert original[..i + 1][..i] == original[..i];
      if Names(lines[i], key) {
        lines := lines[i := NewLine(key, value)];
        replaced := true;
      }
    }
    assert lines == Replaced(original, key, value) && original[..|original|] == original;
    if !replaced { lines := lines + [NewLine(key, value)]; }
    assert lines == Rewritten(original, key, value);
    data := Some(Join(lines, '\n'));
  }

  // ----- reading what was written --------------------------------------------

  /** A key and a value the format can carry. */
  predicate Carries(key: string, value: string) {
    && Trimmed(key) && '=' !in key && '\n' !in key && !("#" <= key)
    && Trimmed(value) && '\n' !in value
  }

  lemma NewLineParses(key: string, value: string)
    requires Carries(key, value)
    ensures ParseLine(NewLine(key, value)) == Some(Entry(key, value))
  {
    var line := NewLine(key, value);
    assert Trimmed(line);
    TrimmedIsFixed(line);
    TrimmedIsFixed(key);
    TrimmedIsFixed(value);
    CutAt(key, '=', value);
  }

  lemma {:induction false} ParseReplaced(lines: seq<string>, key: string, value: string)
    requires Carries(key, value)
    ensures Parse(Replaced(lines, key, value)) ==
              if Mentions(lines, key) then Parse(lines)[key := value] else Parse(lines)
  {
    hide ParseLine, Carries;
    if lines == [] {
      assert Replaced(lines, key, value) == [];
    } else {
      var front := lines[..|lines| - 1];
      NewLineParses(key, value);
      ParseReplaced(front, key, value);
      var r := Replaced(lines, key, value);
      assert r[..|r| - 1] == Replaced(front, key, value);
    }
  }

  /** Reading after writing is the old map updated at the key, however many lines
      for the key there were. */
  lemma ReadAfterWrite(data: string, key: string, value: string)
    requires Carries(key, value)
    ensures Parse(Split(Written(data, key, value), '\n')) == Parse(Split(data, '\n'))[key := value]
  {
    var lines := Split(data, '\n');
    var out := Rewritten(lines, key, value);
    PartsHaveNoSeparator(data, '\n');
    hide ParseLine, Split, Join, Names;
    assert '\n' !in NewLine(key, value);
    SplitJoin(out, '\n');
    ParseReplaced(lines, key, value);
    NewLineParses(key, value);
    hide Replaced, Carries;
    if !Mentions(lines, key) {
      assert out[..|out| - 1] == Replaced(lines, key, value);
    } else {
      assert out == Replaced(lines, key, value);
    }
  }

  /** Comments and the lines of other keys keep their text and their order. */
  lemma OtherLinesKept(data: string, key: string, value: string)
    requires Carries(key, value)
    ensures var before, after := Split(data, '\n'), Split(Written(data, key, value), '\n');
            && |before| <= |after| <= |before| + 1
            && forall i :: 0 <= i < |before| && !Names(before[i], key) ==> after[i] == before[i]
  {
    PartsHaveNoSeparator(data, '\n');
    hide ParseLine, Split, Join, Names;
    assert '\n' !in NewLine(key, value);
    SplitJoin(Rewritten(Split(data, '\n'), key, value), '\n');
  }

  // ----- the world directory -------------------------------------------------

  const LEVEL_NAME := "level-name"

  predicate GoodWorld(name: string) {
    name != "" && !Contains(name, "..") && name[0] != '/'
  }

  /** Which names are good: not empty, not absolute and without two dots in a row. */
  lemma GoodWorldIff(name: string)
    ensures GoodWorld(name) <==>
            && name != "" && name[0] != '/'
            && forall i :: 0 <= i < |name| - 1 ==> !(name[i] == '.' && name[i + 1] == '.')
  {
    ContainsIff(name, "..");
    hide Contains;
    if i :| 0 <= i <= |name| && ".." <= name[i..] {
      assert name[i..][0] == name[i] == '.' && name[i..][1] == name[i + 1] == '.';
    }
    if i :| 0 <= i < |name| - 1 && name[i] == '.' && name[i + 1] == '.' {
      assert name[i..][..2] == "..";
      assert ".." <= name[i..];
    }
  }

  /** `WorldDir` of the text of a properties file. */
  function WorldDir(file: Option<string>): string {
    if file.None? then "world"
    else
      var props := Parse(Split(file.value, '\n'));
      if LEVEL_NAME in props && GoodWorld(props[LEVEL_NAME]) then props[LEVEL_NAME] else "world"
  }

  lemma {:induction false} ParsedValues(lines: seq<string>, key: string)
    requires key in Parse(lines) && forall i :: 0 <= i < |lines| ==> '\n' !in lines[i]
    ensures Trimmed(Parse(lines)[key]) && '\n' !in Parse(lines)[key]
  {
    var front, line := lines[..|lines| - 1], lines[|lines| - 1];
    if Names(line, key) {
      var t := TrimSpace(line);
      TrimSpaceTrims(line);
      CutFinds(t, '=');
      TrimSpaceTrims(Cut(t, '=').value.1);
    } else {
      ParsedValues(front, key);
    }
  }

  /** A world name can always be written as the level name. */
  lemma WorldDirCarries(file: Option<string>)
    ensures GoodWorld(WorldDir(file)) && Carries(LEVEL_NAME, WorldDir(file))
    ensures var name := WorldDir(file);
            && name != "" && name[0] != '/' && '\n' !in name
            && forall i :: 0 <= i < |name| - 1 ==> !(name[i] == '.' && name[i + 1] == '.')
  {
    NoDots("world");
    LevelNameCarries("world");
    GoodWorldIff(WorldDir(file));
    hide Contains, Carries, Parse, Split;
    if file.Some? {
      var lines := Split(file.value, '\n');
      PartsHaveNoSeparator(file.value, '\n');
      if LEVEL_NAME in Parse(lines) {
        ParsedValues(lines, LEVEL_NAME);
        LevelNameCarries(Parse(lines)[LEVEL_NAME]);
      }
    }
  }

  lemma LevelNameCarries(value: string)
    requires Trimmed(value) && '\n' !in value
    ensures Carries(LEVEL_NAME, value)
  {
  }

  lemma {:induction false} NoDots(s: string)
    requires '.' !in s
    ensures !Contains(s, "..")
  {
    if s != [] {
      assert s[0] != ".."[0];
      NoDots(s[1..]);
    }
  }

  /** A file with the level name alone names the world directory. */
  lemma LevelNameNames(name: string)
    requires GoodWorld(name) && Trimmed(name) && '\n' !in name
    ensures WorldDir(Some("level-name=" + name)) == name
  {
    LevelNameCarries(name);
    var line := NewLine(LEVEL_NAME, name);
    assert line == "level-name=" + name;
    NewLineParses(LEVEL_NAME, name);
    hide GoodWorld, ParseLine, Carries;
    SplitOfPart(line, '\n');
    OneLine(line);
  }

  /** Without a file, or with no good level name in it, the world directory is "world". */
  lemma DefaultWorld(text: string)
    ensures WorldDir(None) == "world"
    ensures var props := Parse(Split(text, '\n'));
            WorldDir(Some(text)) ==
            if "level-name" in props && GoodWorld(props["level-name"]) then props["level-name"] else "world"
  {
    hide Parse, Split, GoodWorld;
  }

  lemma OneLine(line: string)
    ensures Parse([line]) == if ParseLine(line).Some? then map[ParseLine(line).value.key := ParseLine(line).value.value]
                             else map[]
  {
    hide ParseLine;
    assert [line][..0] == [];
  }

  /** Writing a world name makes it the world directory. */
  lemma WorldDirAfterWrite(data: string, file: Option<string>)
    ensures WorldDir(Some(Written(data, LEVEL_NAME, WorldDir(file)))) == WorldDir(file)
  {
    WorldDirCarries(file);
    ReadAfterWrite(data, LEVEL_NAME, WorldDir(file));
    hide Split, Written, Parse, GoodWorld, Carries;
  }
}
