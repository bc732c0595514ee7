/** Python's ordering of byte strings and `sorted(d.keys())`. */
module Order {

  /** `a < b` on Python byte strings: lexicographic by character code, a
      proper prefix before any of its extensions. */
  predicate Less(a: string, b: string)
    decreases |a|
  {
    if a == [] then b != []
    else b != [] && (a[0] < b[0] || (a[0] == b[0] && Less(a[1..], b[1..])))
  }

  lemma {:induction false} LessIrreflexive(a: string)
    ensures !Less(a, a)
    decreases |a|
  {
    if a != [] {
      LessIrreflexive(a[1..]);
    }
  }

  lemma {:induction false} LessTransitive(a: string, b: string, c: string)
    requires Less(a, b) && Less(b, c)
    ensures Less(a, c)
    decreases |a|
  {
    if a != [] && a[0] == b[0] && b[0] == c[0] {
      LessTransitive(a[1..], b[1..], c[1..]);
    }
  }

  lemma {:induction false} LessTotal(a: string, b: string)
    ensures Less(a, b) || a == b || Less(b, a)
    decreases |a|
  {
    if a != [] && b != [] && a[0] == b[0] {
      LessTotal(a[1..], b[1..]);
      assert a == [a[0]] + a[1..] && b == [b[0]] + b[1..];
    }
  }

  /** `m` is the smallest string of `s`. */
  predicate IsLeast(m: string, s: set<string>) {
    m in s && forall x :: x in s ==> !Less(x, m)
  }

  lemma {:induction false} LeastExists(s: set<string>)
    requires s != {}
    ensures exists m :: IsLeast(m, s)
    decreases |s|
  {
    var y :| y in s;
    if s == {y} {
      LessIrreflexive(y);
      assert IsLeast(y, s);
    } else {
      LeastExists(s - {y});
      var m :| IsLeast(m, s - {y});
      if Less(y, m) {
        LessIrreflexive(y);
        forall x | x in s
          ensures !Less(x, y)
        {
          if x != y && Less(x, y) {
            LessTransitive(x, y, m);
          }
        }
        assert IsLeast(y, s);
      } else {
        assert IsLeast(m, s);
      }
    }
  }

  lemma LeastUnique(s: set<string>, m: string, n: string)
    requires IsLeast(m, s) && IsLeast(n, s)
    ensures m == n
  {
    LessTotal(m, n);
  }

  predicate StrictlySorted(xs: seq<string>) {
    forall i, j :: 0 <= i < j < |xs| ==> Less(xs[i], xs[j])
  }

  /** `sorted(keys)`: the strings of `keys`, smallest first. */
  function SortedKeys(keys: set<string>): (r: seq<string>)
    ensures forall x :: x in r <==> x in keys
    decreases |keys|
  {
    if keys == {} then []
    else
      LeastExists(keys);
      assert forall m, n :: IsLeast(m, keys) && IsLeast(n, keys) ==> m == n by {
        forall m, n | IsLeast(m, keys) && IsLeast(n, keys) ensures m == n {
          LeastUnique(keys, m, n);
        }
      }
      var m :| IsLeast(m, keys);
      [m] + SortedKeys(keys - {m})
  }

  /** `sorted` lists every key once, in strictly ascending order. */
  lemma {:induction false} SortedKeysAscending(keys: set<string>)
    ensures StrictlySorted(SortedKeys(keys))
    ensures |SortedKeys(keys)| == |keys|
    decreases |keys|
  {
    if keys != {} {
      var r := SortedKeys(keys);
      var m := r[0];
      assert IsLeast(m, keys);
      var rest := SortedKeys(keys - {m});
      assert r == [m] + rest;
      SortedKeysAscending(keys - {m});
      forall x | x in rest
        ensures Less(m, x)
      {
        LessTotal(m, x);
      }
    }
  }
}
