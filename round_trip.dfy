/** Writing a file model with `update_aws_creds_files` and reading it back
    with `get_aws_local_file` gives the same model, for every model whose
    names, keys and values the line format can carry. */
module RoundTrip {
  import opened Results
  import opened Text
  import opened Order
  import opened CredentialFile

  /** Names, keys and values fit on one line. */
  predicate SingleLine(f: IniFile) {
    forall n :: n in f ==> '\n' !in n && forall k :: k in f[n] ==> '\n' !in k && '\n' !in f[n][k]
  }

  /** A key the parser reads back: it makes its line a key/value line, holds
      no `=`, and `strip` leaves it alone. */
  predicate WellFormedKey(k: string) {
    k != [] && IsWordChar(k[0]) && '=' !in k && '\n' !in k && Trimmed(k)
  }

  predicate WellFormedValue(v: string) {
    '=' !in v && '\n' !in v && Trimmed(v)
  }

  predicate WellFormedSection(sec: Section) {
    forall k :: k in sec ==> WellFormedKey(k) && WellFormedValue(sec[k])
  }

  predicate WellFormed(f: IniFile) {
    forall n :: n in f ==> '\n' !in n && WellFormedSection(f[n])
  }

  lemma HeaderLineReads(n: string)
    ensures IsHeaderLine(HeaderLine(n)) && HeaderName(HeaderLine(n)) == n
    ensures '\n' !in n ==> IsLine(HeaderLine(n))
  {
    var s := "[" + n + "]";
    assert HeaderLine(n) == s + ['\n'];
    TrimmedThenSpaceStrips(s, '\n');
    assert InnerSlice(s) == n;
    assert HeaderLine(n)[..|HeaderLine(n)| - 1] == s;
  }

  lemma EntryLineIsLine(k: string, v: string)
    requires '\n' !in k && '\n' !in v
    ensures IsLine(EntryLine(k, v))
  {
    var line := EntryLine(k, v);
    assert line[..|line| - 1] == k + " = " + v;
  }

  lemma EntryLineSplits(k: string, v: string)
    requires '=' !in k && '=' !in v
    ensures Split(EntryLine(k, v), '=') == [k + " ", " " + v + "\n"]
  {
    assert EntryLine(k, v) == (k + " ") + ['='] + (" " + v + "\n");
    SplitAround(k + " ", " " + v + "\n", '=');
  }

  /** A value holding `=` is written, but its line cannot be read back:
      `line.split('=')` gives more than two pieces and the reader stops with
      the unpacking error. */
  lemma ValueWithEqualsRejected(a: seq<string>, k: string, v: string, b: seq<string>)
    requires Run(Start, a).Ok?
    requires k != [] && IsWordChar(k[0]) && '=' in v
    ensures Parse(a + [EntryLine(k, v)] + b) == Err(MalformedEntry(EntryLine(k, v)))
  {
    var line := EntryLine(k, v);
    var head, sep, tail := k + " ", "= ", v + "\n";
    assert line == (head + sep) + tail;
    CountAppend(head + sep, tail, '=');
    CountAppend(head, sep, '=');
    CountAppend(v, "\n", '=');
    CountPresent(v, '=');
    assert Count(sep, '=') >= 1;
    assert Count(line, '=') >= 2;
    assert line[0] == k[0];
    var c := Run(Start, a).value;
    assert Step(c, line) == Err(MalformedEntry(line));
    assert ([line] + b)[0] == line;
    assert Run(c, [line] + b) == Err(MalformedEntry(line));
    assert a + [line] + b == a + ([line] + b);
    RunAppend(Start, a, [line] + b);
  }

  lemma EntryLineReads(k: string, v: string)
    requires WellFormedKey(k) && WellFormedValue(v)
    ensures IsLine(EntryLine(k, v)) && IsEntryLine(EntryLine(k, v)) && !IsHeaderLine(EntryLine(k, v))
    ensures Split(EntryLine(k, v), '=') == [k + " ", " " + v + "\n"]
    ensures Strip(k + " ") == k && Strip(" " + v + "\n") == v
  {
    EntryLineIsLine(k, v);
    EntryLineSplits(k, v);
    TrimmedThenSpaceStrips(k, ' ');
    PaddedValueStrips(v);
    assert EntryLine(k, v)[0] == k[0];
  }

  lemma OverlayCons<V>(m: map<string, V>, src: map<string, V>, x: string, xs: seq<string>)
    requires x in src && forall k :: k in xs ==> k in src
    ensures m[x := src[x]] + (map k | k in xs :: src[k]) == m + (map k | k in [x] + xs :: src[k])
  {
  }

  /** The parser reads a well-formed entry line into the current section. */
  lemma EntryStep(g: IniFile, n: string, k: string, v: string)
    requires n in g
    requires WellFormedKey(k) && WellFormedValue(v)
    ensures Step(Cursor(g, n), EntryLine(k, v)) == Ok(Cursor(g[n := g[n][k := v]], n))
  {
    EntryLineReads(k, v);
  }

  lemma RunCons(c: Cursor, line: string, rest: seq<string>)
    requires Step(c, line).Ok?
    ensures Run(c, [line] + rest) == Run(Step(c, line).value, rest)
  {
    assert ([line] + rest)[0] == line && ([line] + rest)[1..] == rest;
  }

  /** `m` with the entries of `src` under `keys` written over it, one key at a time. */
  function Overlay(m: Section, keys: seq<string>, src: Section): Section
    requires forall k :: k in keys ==> k in src
    decreases |keys|
  {
    if keys == [] then m else Overlay(m[keys[0] := src[keys[0]]], keys[1..], src)
  }

  lemma {:induction false} OverlayAt(m: Section, keys: seq<string>, src: Section)
    requires forall k :: k in keys ==> k in src
    ensures forall x :: x in Overlay(m, keys, src) <==> x in m || x in keys
    ensures forall x :: x in keys ==> Overlay(m, keys, src)[x] == src[x]
    ensures forall x :: x in m && x !in keys ==> Overlay(m, keys, src)[x] == m[x]
    decreases |keys|
  {
    if keys != [] {
      OverlayAt(m[keys[0] := src[keys[0]]], keys[1..], src);
      assert forall x :: x in keys <==> x == keys[0] || x in keys[1..];
    }
  }

  /** Writing every entry of a section, in sorted key order, over an empty
      section rebuilds it. */
  lemma OverlayAll(sec: Section)
    ensures Overlay(map[], SortedKeys(sec.Keys), sec) == sec
  {
    OverlayAt(map[], SortedKeys(sec.Keys), sec);
  }

  lemma UpdateTwice(g: IniFile, n: string, a: Section, b: Section)
    ensures g[n := a][n := b] == g[n := b]
  {
  }

  lemma {:induction false} EntriesRun(g: IniFile, n: string, keys: seq<string>, sec: Section)
    requires n in g
    requires forall k :: k in keys ==> k in sec
    requires WellFormedSection(sec)
    ensures Run(Cursor(g, n), EntryLines(keys, sec)) == Ok(Cursor(g[n := Overlay(g[n], keys, sec)], n))
    decreases |keys|
  {
    if keys == [] {
      assert g[n := g[n]] == g;
    } else {
      var k, v := keys[0], sec[keys[0]];
      var g' := g[n := g[n][k := v]];
      assert EntryLines(keys, sec) == [EntryLine(k, v)] + EntryLines(keys[1..], sec);
      EntryStep(g, n, k, v);
      RunCons(Cursor(g, n), EntryLine(k, v), EntryLines(keys[1..], sec));
      assert Run(Cursor(g, n), EntryLines(keys, sec)) == Run(Cursor(g', n), EntryLines(keys[1..], sec));
      EntriesRun(g', n, keys[1..], sec);
      assert Overlay(g[n], keys, sec) == Overlay(g'[n], keys[1..], sec);
      UpdateTwice(g, n, g[n][k := v], Overlay(g[n], keys, sec));
    }
  }

  lemma RunThen(c: Cursor, a: seq<string>, b: seq<string>, d: Cursor)
    requires Run(c, a) == Ok(d)
    ensures Run(c, a + b) == Run(d, b)
  {
    RunAppend(c, a, b);
  }

  lemma HeaderRun(c: Cursor, n: string)
    ensures Run(c, [HeaderLine(n)]) == Ok(Cursor(c.file[n := map[]], n))
  {
    HeaderLineReads(n);
  }

  lemma BlankRun(c: Cursor)
    ensures Run(c, ["\n"]) == Ok(c)
  {
  }

  /** A written section reads back as exactly that section. */
  lemma SectionRun(c: Cursor, n: string, sec: Section)
    requires WellFormedSection(sec)
    ensures Run(c, SectionLines(n, sec)) == Ok(Cursor(c.file[n := sec], n))
  {
    var keys := SortedKeys(sec.Keys);
    var g := c.file[n := map[]];
    var body := EntryLines(keys, sec);
    var d := Cursor(c.file[n := sec], n);
    HeaderRun(c, n);
    EntriesRun(g, n, keys, sec);
    OverlayAll(sec);
    UpdateTwice(c.file, n, map[], sec);
    assert Run(Cursor(g, n), body) == Ok(d);
    var lines := SectionLines(n, sec);
    assert lines == [HeaderLine(n)] + (body + ["\n"]);
    RunThen(c, [HeaderLine(n)], body + ["\n"], Cursor(g, n));
    RunThen(Cursor(g, n), body, ["\n"], d);
    BlankRun(d);
  }

  lemma {:induction false} FileRun(c: Cursor, names: seq<string>, f: IniFile)
    requires forall n :: n in names ==> n in f
    requires WellFormed(f)
    ensures Run(c, FileLines(names, f)).Ok?
    ensures Run(c, FileLines(names, f)).value.file == c.file + (map n | n in names :: f[n])
    decreases |names|
  {
    if names == [] {
      assert c.file + (map n | n in names :: f[n]) == c.file;
    } else {
      var n := names[0];
      SectionRun(c, n, f[n]);
      RunAppend(c, SectionLines(n, f[n]), FileLines(names[1..], f));
      FileRun(Cursor(c.file[n := f[n]], n), names[1..], f);
      OverlayCons(c.file, f, n, names[1..]);
      assert [n] + names[1..] == names;
    }
  }

  predicate AllLines(ls: seq<string>) {
    forall i :: 0 <= i < |ls| ==> IsLine(ls[i])
  }

  lemma AllLinesAppend(a: seq<string>, b: seq<string>)
    requires AllLines(a) && AllLines(b)
    ensures AllLines(a + b)
  {
    forall i | 0 <= i < |a + b|
      ensures IsLine((a + b)[i])
    {
      if i < |a| {
        assert (a + b)[i] == a[i];
      } else {
        assert (a + b)[i] == b[i - |a|];
      }
    }
  }

  lemma {:induction false} EntryLinesAreLines(keys: seq<string>, sec: Section)
    requires forall k :: k in keys ==> k in sec && '\n' !in k && '\n' !in sec[k]
    ensures AllLines(EntryLines(keys, sec))
    decreases |keys|
  {
    if keys != [] {
      EntryLineIsLine(keys[0], sec[keys[0]]);
      EntryLinesAreLines(keys[1..], sec);
      AllLinesAppend([EntryLine(keys[0], sec[keys[0]])], EntryLines(keys[1..], sec));
    }
  }

  lemma SectionLinesAreLines(n: string, sec: Section)
    requires '\n' !in n
    requires forall k :: k in sec ==> '\n' !in k && '\n' !in sec[k]
    ensures AllLines(SectionLines(n, sec))
  {
    var body := EntryLines(SortedKeys(sec.Keys), sec);
    HeaderLineReads(n);
    EntryLinesAreLines(SortedKeys(sec.Keys), sec);
    AllLinesAppend([HeaderLine(n)], body);
    AllLinesAppend([HeaderLine(n)] + body, ["\n"]);
  }

  lemma {:induction false} FileLinesAreLines(names: seq<string>, f: IniFile)
    requires forall n :: n in names ==> n in f
    requires SingleLine(f)
    ensures AllLines(FileLines(names, f))
    decreases |names|
  {
    if names != [] {
      var n := names[0];
      SectionLinesAreLines(n, f[n]);
      FileLinesAreLines(names[1..], f);
      AllLinesAppend(SectionLines(n, f[n]), FileLines(names[1..], f));
    }
  }

  /** Read back with `readlines`, the written text gives exactly the lines
      the serialiser emitted. */
  lemma ReadBackLines(f: IniFile)
    requires SingleLine(f)
    ensures ReadLines(Render(f)) == RenderLines(f)
  {
    FileLinesAreLines(SortedKeys(f.Keys), f);
    ReadLinesOfLines(RenderLines(f));
  }

  lemma RebuildFile(f: IniFile)
    ensures map[] + (map n | n in SortedKeys(f.Keys) :: f[n]) == f
  {
  }

  /** The round trip: parsing the lines of the serialised text gives the model back. */
  lemma RoundTrip(f: IniFile)
    requires WellFormed(f)
    ensures Parse(ReadLines(Render(f))) == Ok(f)
  {
    var names := SortedKeys(f.Keys);
    ReadBackLines(f);
    FileRun(Start, names, f);
    RebuildFile(f);
    assert Run(Start, RenderLines(f)).value.file == f;
  }

  lemma {:induction false} EntryLinesHaveNoHeaders(keys: seq<string>, sec: Section)
    requires forall k :: k in keys ==> k in sec && !StartsWith(k, "[")
    ensures Headers(EntryLines(keys, sec)) == []
    decreases |keys|
  {
    if keys != [] {
      var l := EntryLine(keys[0], sec[keys[0]]);
      assert keys[0] != [] ==> keys[0][..1] == [l[0]];
      EntryLinesHaveNoHeaders(keys[1..], sec);
    }
  }

  lemma SectionHeaders(n: string, sec: Section)
    requires forall k :: k in sec ==> !StartsWith(k, "[")
    ensures Headers(SectionLines(n, sec)) == [n]
  {
    var body := EntryLines(SortedKeys(sec.Keys), sec);
    HeaderLineReads(n);
    EntryLinesHaveNoHeaders(SortedKeys(sec.Keys), sec);
    HeadersAppend([HeaderLine(n)], body);
    HeadersAppend([HeaderLine(n)] + body, ["\n"]);
    assert Headers([HeaderLine(n)]) == [n];
    assert Headers(["\n"]) == [];
  }

  lemma {:induction false} FileHeaders(names: seq<string>, f: IniFile)
    requires forall n :: n in names ==> n in f
    requires forall n, k :: n in f && k in f[n] ==> !StartsWith(k, "[")
    ensures Headers(FileLines(names, f)) == names
    decreases |names|
  {
    if names != [] {
      var n := names[0];
      SectionHeaders(n, f[n]);
      HeadersAppend(SectionLines(n, f[n]), FileLines(names[1..], f));
      FileHeaders(names[1..], f);
      assert [n] + names[1..] == names;
    }
  }

  /** The sections are written in ascending name order, each name once. */
  lemma SectionsInSortedOrder(f: IniFile)
    requires forall n, k :: n in f && k in f[n] ==> !StartsWith(k, "[")
    ensures Headers(RenderLines(f)) == SortedKeys(f.Keys)
    ensures StrictlySorted(Headers(RenderLines(f)))
  {
    FileHeaders(SortedKeys(f.Keys), f);
    SortedKeysAscending(f.Keys);
  }
}
