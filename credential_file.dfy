/** The AWS `config` / `credentials` file model of awsmfalogin.py: the line
    parser `get_aws_local_file` and the text built by `update_aws_creds_files`.
    A file is a map from the section name, exactly as written between the
    brackets (the config file's `profile ` prefix included), to the section's
    key/value map. */
module CredentialFile {
  import opened Results
  import opened Text
  import opened Order

  type Section = map<string, string>
  type IniFile = map<string, Section>

  /** The two exceptions the parsing loop can raise. */
  datatype ParseError =
    | MalformedEntry(line: string)       // `key, val = line.split('=')` unpacks zero or several `=`
    | EntryOutsideSection(line: string)  // `aws_config['']` does not exist before the first header

  /** The loop state of the parser: `aws_config` and `current_profile`. */
  datatype Cursor = Cursor(file: IniFile, current: string)

  const Start: Cursor := Cursor(map[], "")

  /** `re.match('^\[', line)` */
  predicate IsHeaderLine(line: string) {
    line != [] && line[0] == '['
  }

  /** `re.match('\w', line)` */
  predicate IsEntryLine(line: string) {
    line != [] && IsWordChar(line[0])
  }

  /** `line.strip()[1:-1]` */
  function HeaderName(line: string): string {
    InnerSlice(Strip(line))
  }

  /** What one iteration of the parsing loop does with one line. */
  function Step(c: Cursor, line: string): Result<Cursor, ParseError> {
    if IsHeaderLine(line) then
      var name := HeaderName(line);
      Ok(Cursor(c.file[name := map[]], name))
    else if IsEntryLine(line) then
      var parts := Split(line, '=');
      if |parts| != 2 then Err(MalformedEntry(line))
      else if c.current !in c.file then Err(EntryOutsideSection(line))
      else Ok(Cursor(c.file[c.current := c.file[c.current][Strip(parts[0]) := Strip(parts[1])]], c.current))
    else Ok(c)
  }

  /** The parsing loop run over `lines` from the state `c`; the first error stops it. */
  function Run(c: Cursor, lines: seq<string>): Result<Cursor, ParseError>
    decreases |lines|
  {
    if lines == [] then Ok(c)
    else
      match Step(c, lines[0])
      case Err(e) => Err(e)
      case Ok(next) => Run(next, lines[1..])
  }

  /** `get_aws_local_file` as a function of the file's lines. */
  function Parse(lines: seq<string>): Result<IniFile, ParseError> {
    match Run(Start, lines)
    case Err(e) => Err(e)
    case Ok(c) => Ok(c.file)
  }

  /** The parsing loop of `get_aws_local_file` (awsmfalogin.py:53-65), over
      the lines `readlines` gave. */
  method ParseLines(lines: seq<string>) returns (r: Result<IniFile, ParseError>)
    ensures r == Parse(lines)
  {
    var file: IniFile := map[];
    var current := "";
    var i := 0;
    while i < |lines|
      invariant 0 <= i <= |lines|
      invariant Run(Cursor(file, current), lines[i..]) == Run(Start, lines)
    {
      var line := lines[i];
      assert lines[i..][0] == line && lines[i..][1..] == lines[i + 1..];
      if IsHeaderLine(line) {
        current := HeaderName(line);
        file := file[current := map[]];
      }
      if IsEntryLine(line) {
        var parts := Split(line, '=');
        if |parts| != 2 {
          return Err(MalformedEntry(line));
        }
        if current !in file {
          return Err(EntryOutsideSection(line));
        }
        file := file[current := file[current][Strip(parts[0]) := Strip(parts[1])]];
      }
      i := i + 1;
    }
    return Ok(file);
  }

  // ---------------------------------------------------------------------
  // Properties of the parser

  /** Parsing a concatenation is parsing the first part and then, from the
      state it leaves, the second. */
  lemma {:induction false} RunAppend(c: Cursor, a: seq<string>, b: seq<string>)
    ensures Run(c, a + b) == match Run(c, a) case Err(e) => Err(e) case Ok(d) => Run(d, b)
    decreases |a|
  {
    if a == [] {
      assert a + b == b;
    } else {
      assert (a + b)[0] == a[0] && (a + b)[1..] == a[1..] + b;
      match Step(c, a[0])
      case Err(e) =>
      case Ok(next) => RunAppend(next, a[1..], b);
    }
  }

  /** A line that begins with neither `[` nor a word character (a blank line,
      an indented line, a `#` comment) changes nothing. */
  lemma IgnoredLine(a: seq<string>, line: string, b: seq<string>)
    requires !IsHeaderLine(line) && !IsEntryLine(line)
    ensures Parse(a + [line] + b) == Parse(a + b)
  {
    RunAppend(Start, a, [line] + b);
    RunAppend(Start, a, b);
    assert a + [line] + b == a + ([line] + b);
    assert ([line] + b)[0] == line && ([line] + b)[1..] == b;
  }

  /** A header line opens a fresh, empty section under its bracketed name:
      a repeated header throws away what that section held so far. */
  lemma HeaderOpensEmptySection(a: seq<string>, line: string, f: IniFile)
    requires Parse(a) == Ok(f)
    requires IsHeaderLine(line)
    ensures Parse(a + [line]) == Ok(f[HeaderName(line) := map[]])
  {
    RunAppend(Start, a, [line]);
  }

  /** After a successful prefix, a key/value line succeeds exactly when it
      holds one `=` and the parser is inside a section. */
  lemma EntryLineOutcome(a: seq<string>, line: string, c: Cursor)
    requires Run(Start, a) == Ok(c)
    requires IsEntryLine(line)
    ensures Parse(a + [line]).Ok? <==> Count(line, '=') == 1 && c.current in c.file
    ensures Count(line, '=') != 1 ==> Parse(a + [line]) == Err(MalformedEntry(line))
    ensures Count(line, '=') == 1 && c.current in c.file ==>
      var parts := Split(line, '=');
      Parse(a + [line]) == Ok(c.file[c.current := c.file[c.current][Strip(parts[0]) := Strip(parts[1])]])
  {
    RunAppend(Start, a, [line]);
  }

  lemma {:induction false} IgnoredLinesKeepStart(a: seq<string>)
    requires forall i :: 0 <= i < |a| ==> !IsHeaderLine(a[i]) && !IsEntryLine(a[i])
    ensures Run(Start, a) == Ok(Start)
    decreases |a|
  {
    if a != [] {
      IgnoredLinesKeepStart(a[1..]);
    }
  }

  /** A key/value line before any header fails: with zero or several `=` it
      cannot be unpacked, with one there is no current section. */
  lemma EntryBeforeAnyHeader(a: seq<string>, line: string, b: seq<string>)
    requires forall i :: 0 <= i < |a| ==> !IsHeaderLine(a[i]) && !IsEntryLine(a[i])
    requires IsEntryLine(line)
    ensures Parse(a + [line] + b) ==
      Err(if Count(line, '=') == 1 then EntryOutsideSection(line) else MalformedEntry(line))
  {
    IgnoredLinesKeepStart(a);
    assert a + [line] + b == a + ([line] + b);
    RunAppend(Start, a, [line] + b);
    assert ([line] + b)[0] == line;
  }

  /** The names of the header lines, in the order they appear. */
  function Headers(lines: seq<string>): seq<string> {
    if lines == [] then []
    else (if IsHeaderLine(lines[0]) then [HeaderName(lines[0])] else []) + Headers(lines[1..])
  }

  lemma {:induction false} HeadersAppend(a: seq<string>, b: seq<string>)
    ensures Headers(a + b) == Headers(a) + Headers(b)
    decreases |a|
  {
    if a == [] {
      assert a + b == b;
    } else {
      assert (a + b)[0] == a[0] && (a + b)[1..] == a[1..] + b;
      HeadersAppend(a[1..], b);
    }
  }

  lemma {:induction false} RunSections(c: Cursor, lines: seq<string>, d: Cursor)
    requires Run(c, lines) == Ok(d)
    ensures forall n :: n in d.file <==> n in c.file || n in Headers(lines)
    ensures d.current in d.file || (d.current == c.current && Headers(lines) == [])
    decreases |lines|
  {
    if lines != [] {
      var next := Step(c, lines[0]).value;
      RunSections(next, lines[1..], d);
    }
  }

  /** The sections of a parsed file are exactly the names of its header lines. */
  lemma ParsedSectionsAreHeaders(lines: seq<string>, f: IniFile)
    requires Parse(lines) == Ok(f)
    ensures forall n :: n in f <==> n in Headers(lines)
  {
    RunSections(Start, lines, Run(Start, lines).value);
  }

  // ---------------------------------------------------------------------
  // The serialiser

  /** `'[' + profile + ']\n'` */
  function HeaderLine(name: string): string {
    "[" + name + "]\n"
  }

  /** `val + ' = ' + content[val] + '\n'` */
  function EntryLine(key: string, value: string): string {
    key + " = " + value + "\n"
  }

  function EntryLines(keys: seq<string>, sec: Section): seq<string>
    requires forall k :: k in keys ==> k in sec
  {
    if keys == [] then [] else [EntryLine(keys[0], sec[keys[0]])] + EntryLines(keys[1..], sec)
  }

  /** One section as written: its header, its entries in sorted key order,
      a blank line. */
  function SectionLines(name: string, sec: Section): seq<string> {
    [HeaderLine(name)] + EntryLines(SortedKeys(sec.Keys), sec) + ["\n"]
  }

  function FileLines(names: seq<string>, f: IniFile): seq<string>
    requires forall n :: n in names ==> n in f
  {
    if names == [] then [] else SectionLines(names[0], f[names[0]]) + FileLines(names[1..], f)
  }

  /** The lines `update_aws_creds_files` writes: every section in sorted name order. */
  function RenderLines(f: IniFile): seq<string> {
    FileLines(SortedKeys(f.Keys), f)
  }

  /** The text `update_aws_creds_files` writes. */
  function Render(f: IniFile): (text: string)
    ensures f == map[] ==> text == ""
  {
    Concat(RenderLines(f))
  }

  lemma {:induction false} EntryLinesSnoc(keys: seq<string>, k: string, sec: Section)
    requires forall x :: x in keys ==> x in sec
    requires k in sec
    ensures EntryLines(keys + [k], sec) == EntryLines(keys, sec) + [EntryLine(k, sec[k])]
    decreases |keys|
  {
    if keys == [] {
      assert keys + [k] == [k];
    } else {
      assert (keys + [k])[0] == keys[0] && (keys + [k])[1..] == keys[1..] + [k];
      EntryLinesSnoc(keys[1..], k, sec);
    }
  }

  lemma {:induction false} FileLinesSnoc(names: seq<string>, n: string, f: IniFile)
    requires forall x :: x in names ==> x in f
    requires n in f
    ensures FileLines(names + [n], f) == FileLines(names, f) + SectionLines(n, f[n])
    decreases |names|
  {
    var last := SectionLines(n, f[n]);
    if names == [] {
      assert names + [n] == [n];
      assert FileLines([n], f) == last + FileLines([], f);
    } else {
      var first := SectionLines(names[0], f[names[0]]);
      assert (names + [n])[0] == names[0] && (names + [n])[1..] == names[1..] + [n];
      assert FileLines(names + [n], f) == first + FileLines(names[1..] + [n], f);
      FileLinesSnoc(names[1..], n, f);
      assert FileLines(names, f) == first + FileLines(names[1..], f);
    }
  }

  /** Appending the next entry line to text ending in the first `j` entries
      gives text ending in the first `j + 1`. */
  lemma EntryTextSnoc(head: string, keys: seq<string>, j: nat, sec: Section)
    requires j < |keys|
    requires forall x :: x in keys ==> x in sec
    ensures head + Concat(EntryLines(keys[..j], sec)) + EntryLine(keys[j], sec[keys[j]]) ==
      head + Concat(EntryLines(keys[..j + 1], sec))
  {
    var done, line := Concat(EntryLines(keys[..j], sec)), EntryLine(keys[j], sec[keys[j]]);
    assert head + done + line == head + (done + line);
    assert keys[..j + 1] == keys[..j] + [keys[j]];
    EntryLinesSnoc(keys[..j], keys[j], sec);
    ConcatAppend(EntryLines(keys[..j], sec), [line]);
  }

  /** The text of one section, after any text `prefix`: its header, its
      entries, a blank line. */
  lemma SectionText(prefix: string, n: string, sec: Section)
    ensures prefix + HeaderLine(n) + Concat(EntryLines(SortedKeys(sec.Keys), sec)) + "\n" ==
      prefix + Concat(SectionLines(n, sec))
  {
    var lines := EntryLines(SortedKeys(sec.Keys), sec);
    var body := Concat(lines);
    assert prefix + HeaderLine(n) + body + "\n" == prefix + (HeaderLine(n) + body + "\n");
    ConcatAppend([HeaderLine(n)], lines);
    ConcatAppend([HeaderLine(n)] + lines, ["\n"]);
    assert Concat([HeaderLine(n)]) == HeaderLine(n) + [];
    assert Concat(["\n"]) == "\n" + [];
  }

  /** The text of the first `i + 1` sections extends that of the first `i`. */
  lemma FilePrefixText(names: seq<string>, i: nat, f: IniFile)
    requires i < |names|
    requires forall x :: x in names ==> x in f
    ensures Concat(FileLines(names[..i + 1], f)) ==
      Concat(FileLines(names[..i], f)) + Concat(SectionLines(names[i], f[names[i]]))
  {
    assert names[..i + 1] == names[..i] + [names[i]];
    FileLinesSnoc(names[..i], names[i], f);
    ConcatAppend(FileLines(names[..i], f), SectionLines(names[i], f[names[i]]));
  }

  /** Closing a section with its blank line completes its text. */
  lemma SectionTextDone(names: seq<string>, i: nat, f: IniFile, acc: string)
    requires i < |names|
    requires forall x :: x in names ==> x in f
    requires acc == Concat(FileLines(names[..i], f)) + HeaderLine(names[i]) +
      Concat(EntryLines(SortedKeys(f[names[i]].Keys), f[names[i]]))
    ensures acc + "\n" == Concat(FileLines(names[..i + 1], f))
  {
    SectionText(Concat(FileLines(names[..i], f)), names[i], f[names[i]]);
    FilePrefixText(names, i, f);
  }

  /** The string-building loops of `update_aws_creds_files` (awsmfalogin.py:167-173);
      the write to the file is not modelled. */
  method Serialise(f: IniFile) returns (text: string)
    ensures text == Render(f)
  {
    var names := SortedKeys(f.Keys);
    text := "";
    for i := 0 to |names|
      invariant text == Concat(FileLines(names[..i], f))
    {
      var name := names[i];
      text := text + ("[" + name + "]\n");
      ghost var head := text;
      var content := f[name];
      var keys := SortedKeys(content.Keys);
      for j := 0 to |keys|
        invariant text == head + Concat(EntryLines(keys[..j], content))
      {
        text := text + (keys[j] + " = " + content[keys[j]] + "\n");
        EntryTextSnoc(head, keys, j, content);
      }
      assert keys[..|keys|] == keys;
      SectionTextDone(names, i, f, text);
      text := text + "\n";
    }
    assert names[..|names|] == names;
  }
}
