/** Profile selection of awsmfalogin.py (`get_profiles_names`): which
    profiles may be chosen, and what one answer to the prompt selects. */
module Selection {
  import opened Text

  /** `re.match('^mfa-', name)`: a derived profile that holds temporary
      session credentials. */
  predicate IsDerived(name: string) {
    StartsWith(name, "mfa-")
  }

  /** `profiles_wo_mfa`: the profiles that are not derived, in their order. */
  function Selectable(profiles: seq<string>): (r: seq<string>)
    ensures forall x :: x in r <==> x in profiles && !IsDerived(x)
    decreases |profiles|
  {
    if profiles == [] then []
    else (if IsDerived(profiles[0]) then [] else [profiles[0]]) + Selectable(profiles[1..])
  }

  /** `a` is `b` with some elements left out, the rest kept in order. */
  predicate IsSubsequence(a: seq<string>, b: seq<string>)
    decreases |b|
  {
    if a == [] then true
    else if b == [] then false
    else (a[0] == b[0] && IsSubsequence(a[1..], b[1..])) || IsSubsequence(a, b[1..])
  }

  /** The selectable list keeps the relative order of the profiles and every
      occurrence of a profile that is not derived. */
  lemma {:induction false} SelectableKeepsOrder(profiles: seq<string>)
    ensures IsSubsequence(Selectable(profiles), profiles)
    ensures forall x :: !IsDerived(x) ==> multiset(Selectable(profiles))[x] == multiset(profiles)[x]
    decreases |profiles|
  {
    if profiles != [] {
      var p := profiles[0];
      var rest := Selectable(profiles[1..]);
      SelectableKeepsOrder(profiles[1..]);
      assert profiles == [p] + profiles[1..];
      if IsDerived(p) {
        assert Selectable(profiles) == rest;
      } else {
        assert Selectable(profiles) == [p] + rest;
        assert ([p] + rest)[1..] == rest;
      }
    }
  }

  lemma SelectableExample()
    ensures Selectable(["a", "mfa-a", "b"]) == ["a", "b"]
  {
    assert IsDerived("mfa-a");
    assert !IsDerived("a") && !IsDerived("b");
    var ps := ["a", "mfa-a", "b"];
    assert ps[1..] == ["mfa-a", "b"] && ps[1..][1..] == ["b"] && ps[1..][1..][1..] == [];
  }

  // ---------------------------------------------------------------------
  // Reading the answer

  /** The length of the run of digits `s` starts with. */
  function LeadingDigits(s: string): (n: nat)
    ensures n <= |s| && AllDigits(s[..n])
    ensures n < |s| ==> !IsDigit(s[n])
    decreases |s|
  {
    if s != [] && IsDigit(s[0]) then
      var n := 1 + LeadingDigits(s[1..]);
      assert s[..n] == [s[0]] + s[1..][..n - 1];
      n
    else 0
  }

  /** `re.findall(r"\d+", s)`: the maximal runs of digits, left to right;
      every run is a non-empty string of digits. */
  function DigitRuns(s: string): (runs: seq<string>)
    ensures forall i :: 0 <= i < |runs| ==> runs[i] != [] && AllDigits(runs[i])
    decreases |s|
  {
    if s == [] then []
    else if !IsDigit(s[0]) then DigitRuns(s[1..])
    else
      var n := LeadingDigits(s);
      [s[..n]] + DigitRuns(s[n..])
  }

  lemma {:induction false} DigitRunsPrefix(d: string, t: string)
    requires d != [] && AllDigits(d)
    requires t == [] || !IsDigit(t[0])
    ensures DigitRuns(d + t) == [d] + DigitRuns(t)
    decreases |d|
  {
    LeadingDigitsOfRun(d, t);
    assert (d + t)[0] == d[0];
    assert (d + t)[..|d|] == d && (d + t)[|d|..] == t;
  }

  lemma {:induction false} LeadingDigitsOfRun(d: string, t: string)
    requires AllDigits(d)
    requires t == [] || !IsDigit(t[0])
    ensures LeadingDigits(d + t) == |d|
    decreases |d|
  {
    if d == [] {
      assert d + t == t;
    } else {
      assert (d + t)[0] == d[0] && (d + t)[1..] == d[1..] + t;
      LeadingDigitsOfRun(d[1..], t);
    }
  }

  /** A single run of digits is found as itself. */
  lemma DigitRunsOfRun(d: string)
    requires d != [] && AllDigits(d)
    ensures DigitRuns(d) == [d]
  {
    DigitRunsPrefix(d, []);
    assert d + [] == d;
  }

  /** A character that is not a digit ends every run: the runs of the text
      around it are those of each side, in order. With `DigitRunsOfRun` and
      `DigitRuns([]) == []` this fixes the result on every input. */
  lemma {:induction false} DigitRunsSplit(a: string, c: char, b: string)
    requires !IsDigit(c)
    ensures DigitRuns(a + [c] + b) == DigitRuns(a) + DigitRuns(b)
    decreases |a|
  {
    var s := a + [c] + b;
    if a == [] {
      assert s == [c] + b && s[1..] == b;
    } else if !IsDigit(a[0]) {
      assert s[0] == a[0] && s[1..] == a[1..] + [c] + b;
      DigitRunsSplit(a[1..], c, b);
    } else {
      var n := LeadingDigits(a);
      var d, t := a[..n], a[n..];
      assert a == d + t;
      assert s == d + (t + [c] + b);
      assert (t + [c] + b)[0] == (if t == [] then c else t[0]);
      DigitRunsPrefix(d, t + [c] + b);
      DigitRunsSplit(t, c, b);
      if t == [] {
        assert DigitRuns(a) == [d] + DigitRuns(t) by {
          DigitRunsOfRun(d);
          assert a == d;
        }
      } else {
        DigitRunsPrefix(d, t);
      }
    }
  }

  /** Numbers typed with single spaces between them are read back as typed. */
  lemma {:induction false} DigitRunsOfSpaced(ds: seq<string>)
    requires ds != []
    requires forall i :: 0 <= i < |ds| ==> ds[i] != [] && AllDigits(ds[i])
    ensures DigitRuns(Join(ds, ' ')) == ds
    decreases |ds|
  {
    if |ds| == 1 {
      DigitRunsPrefix(ds[0], []);
      assert ds[0] + [] == ds[0];
    } else {
      var rest := Join(ds[1..], ' ');
      DigitRunsOfSpaced(ds[1..]);
      assert ds[0] + [' '] + rest == ds[0] + ([' '] + rest);
      DigitRunsPrefix(ds[0], [' '] + rest);
      assert ([' '] + rest)[1..] == rest;
      assert ds == [ds[0]] + ds[1..];
    }
  }

  /** The value of a digit character. */
  function DigitValue(c: char): nat
    requires IsDigit(c)
  {
    c as int - '0' as int
  }

  /** `int(run)` for a string of decimal digits (leading zeros allowed). */
  function DecimalValue(s: string): nat
    requires AllDigits(s)
    decreases |s|
  {
    if s == [] then 0 else 10 * DecimalValue(s[..|s| - 1]) + DigitValue(s[|s| - 1])
  }

  /** `str(n)`: the decimal numeral of `n` as the menu prints it. */
  function Decimal(n: nat): (s: string)
    ensures s != [] && AllDigits(s)
    decreases n
  {
    var last := [('0' as int + n % 10) as char];
    if n < 10 then last else Decimal(n / 10) + last
  }

  /** Reading back a printed index gives the index. */
  lemma {:induction false} DecimalValueOfDecimal(n: nat)
    ensures DecimalValue(Decimal(n)) == n
    decreases n
  {
    var s := Decimal(n);
    var last := [('0' as int + n % 10) as char];
    if n >= 10 {
      DecimalValueOfDecimal(n / 10);
      assert s[..|s| - 1] == Decimal(n / 10);
    }
  }

  /** A trimmed, case-insensitive `all`. */
  predicate IsAll(input: string) {
    Lower(Strip(input)) == "all"
  }

  /** What one answer to the prompt leads to. */
  datatype Selection = Reprompt | Chosen(profiles: seq<string>)

  /** `int(option)` for every run found. */
  function Values(runs: seq<string>): (vs: seq<nat>)
    requires forall i :: 0 <= i < |runs| ==> AllDigits(runs[i])
  {
    seq(|runs|, i requires 0 <= i < |runs| => DecimalValue(runs[i]))
  }

  /** The profiles the typed indices name, in typed order: an index of
      `selectable` names its profile, any other number names nothing. */
  function Picked(selectable: seq<string>, indices: seq<nat>): seq<string>
    decreases |indices|
  {
    if indices == [] then []
    else
      var v := indices[0];
      (if v < |selectable| then [selectable[v]] else []) + Picked(selectable, indices[1..])
  }

  /** Picking from typed text is picking from each of its parts in turn. */
  lemma {:induction false} PickedAppend(selectable: seq<string>, a: seq<nat>, b: seq<nat>)
    ensures Picked(selectable, a + b) == Picked(selectable, a) + Picked(selectable, b)
    decreases |a|
  {
    if a == [] {
      assert a + b == b;
    } else {
      assert (a + b)[0] == a[0] && (a + b)[1..] == a[1..] + b;
      PickedAppend(selectable, a[1..], b);
    }
  }

  /** Only profiles of the selectable list are picked, and never more than
      there are numbers. */
  lemma {:induction false} PickedFromSelectable(selectable: seq<string>, indices: seq<nat>)
    ensures |Picked(selectable, indices)| <= |indices|
    ensures forall x :: x in Picked(selectable, indices) ==> x in selectable
    decreases |indices|
  {
    if indices != [] {
      PickedFromSelectable(selectable, indices[1..]);
    }
  }

  /** When every number is a valid index, each one picks its profile,
      duplicates included. */
  lemma {:induction false} PickedAllValid(selectable: seq<string>, indices: seq<nat>)
    requires forall i :: 0 <= i < |indices| ==> indices[i] < |selectable|
    ensures |Picked(selectable, indices)| == |indices|
    ensures forall i :: 0 <= i < |indices| ==> Picked(selectable, indices)[i] == selectable[indices[i]]
    decreases |indices|
  {
    if indices != [] {
      PickedAllValid(selectable, indices[1..]);
    }
  }

  lemma PickedCons(selectable: seq<string>, v: nat, b: seq<nat>)
    ensures Picked(selectable, [v] + b) == (if v < |selectable| then [selectable[v]] else []) + Picked(selectable, b)
  {
    assert ([v] + b)[0] == v && ([v] + b)[1..] == b;
  }

  /** A number that is not an index is dropped without a trace. */
  lemma OutOfRangeDropped(selectable: seq<string>, a: seq<nat>, v: nat, b: seq<nat>)
    requires v >= |selectable|
    ensures Picked(selectable, a + ([v] + b)) == Picked(selectable, a + b)
  {
    PickedAppend(selectable, a, [v] + b);
    PickedAppend(selectable, a, b);
    PickedCons(selectable, v, b);
    assert [] + Picked(selectable, b) == Picked(selectable, b);
  }

  /** Typing the index the menu shows for a profile selects that profile. */
  lemma TypedIndexPicks(selectable: seq<string>, i: nat)
    requires i < |selectable|
    ensures DigitRuns(Decimal(i)) == [Decimal(i)]
    ensures Picked(selectable, Values(DigitRuns(Decimal(i)))) == [selectable[i]]
  {
    DigitRunsPrefix(Decimal(i), []);
    assert Decimal(i) + [] == Decimal(i);
    DecimalValueOfDecimal(i);
    assert Values([Decimal(i)]) == [i];
  }

  /** The answer `0 1` for the menu `a`, `b` picks both profiles. */
  lemma ChooseTwoIndices()
    ensures !IsAll("0 1") && Picked(["a", "b"], Values(DigitRuns("0 1"))) == ["a", "b"]
  {
    TrimmedStrips("0 1");
    assert Lower("0 1")[0] == '0';
    assert Join(["0", "1"], ' ') == "0 1";
    DigitRunsOfSpaced(["0", "1"]);
    assert DecimalValue("0") == 0 && DecimalValue("1") == 1;
    assert Values(["0", "1"]) == [0, 1];
    PickedAllValid(["a", "b"], [0, 1]);
  }

  /** The answer `5` for the same menu picks no profile, and is still
      accepted. */
  lemma ChooseOutOfRange()
    ensures !IsAll("5") && Picked(["a", "b"], Values(DigitRuns("5"))) == []
  {
    TrimmedStrips("5");
    assert Lower("5") == "5";
    DigitRunsPrefix("5", []);
    assert "5" + [] == "5";
    assert DecimalValue("5") == 5;
    assert Values(["5"]) == [5];
  }

  /** The answer ` 0` is not taken: the menu is shown again. */
  lemma ChooseLeadingSpace()
    ensures !IsAll(" 0") && IsSpace(" 0"[0])
  {
    assert Strip(" 0") == "0" by {
      assert TrimLeft(" 0") == TrimLeft("0");
    }
    assert Lower("0") == "0";
  }

  /** One pass of the prompt loop of `get_profiles_names`
      (awsmfalogin.py:85-96) for the answer `input`. */
  method Choose(selectable: seq<string>, input: string) returns (out: Selection)
    ensures IsAll(input) ==> out == Chosen(selectable)
    ensures !IsAll(input) && (input == [] || IsSpace(input[0])) ==> out == Reprompt
    ensures !IsAll(input) && input != [] && !IsSpace(input[0]) ==>
      out == Chosen(Picked(selectable, Values(DigitRuns(input))))
  {
    if !IsAll(input) && input != [] && !IsSpace(input[0]) {
      var options := DigitRuns(input);
      var selected: seq<string> := [];
      for k := 0 to |options|
        invariant selected == Picked(selectable, Values(options[..k]))
      {
        var v := DecimalValue(options[k]);
        assert Values(options[..k + 1]) == Values(options[..k]) + [v];
        PickedAppend(selectable, Values(options[..k]), [v]);
        if v < |selectable| {
          selected := selected + [selectable[v]];
        }
      }
      assert options[..|options|] == options;
      return Chosen(selected);
    } else if IsAll(input) {
      return Chosen(selectable);
    } else {
      return Reprompt;
    }
  }
}
