/** Strings in code-point order, and the sorted enumeration of a set of strings. */
module Text {
  /** Python's `<` on `str`. */
  predicate Less(a: string, b: string) {
    b != [] && (a == [] || a[0] < b[0] || (a[0] == b[0] && Less(a[1..], b[1..])))
  }

  lemma {:induction false} LessTotal(a: string, b: string)
    ensures a == b || Less(a, b) || Less(b, a)
  {
    if a != [] && b != [] && a[0] == b[0] {
      LessTotal(a[1..], b[1..]);
      assert a == [a[0]] + a[1..] && b == [b[0]] + b[1..];
    }
  }

  lemma {:induction false} LessIrreflexive(a: string)
    ensures !Less(a, a)
  {
    if a != [] { LessIrreflexive(a[1..]); }
  }

  lemma {:induction false} LessTransitive(a: string, b: string, c: string)
    requires Less(a, b) && Less(b, c)
    ensures Less(a, c)
  {
    if a != [] && a[0] == b[0] && b[0] == c[0] { LessTransitive(a[1..], b[1..], c[1..]); }
  }

  /** At the first place where two texts differ the smaller character decides, and an end comes first. */
  lemma {:induction false} LessMeans(a: string, b: string)
    ensures Less(a, b) <==>
            exists k :: 0 <= k <= |a| && k < |b| && a[..k] == b[..k] && (k == |a| || a[k] < b[k])
    decreases |a|
  {
    if a == [] {
      if b != [] { assert a[..0] == b[..0]; }
    } else if b != [] && a[0] == b[0] {
      LessMeans(a[1..], b[1..]);
      if k :| 0 <= k <= |a[1..]| && k < |b[1..]| && a[1..][..k] == b[1..][..k] && (k == |a[1..]| || a[1..][k] < b[1..][k]) {
        assert a[..k + 1] == [a[0]] + a[1..][..k] && b[..k + 1] == [b[0]] + b[1..][..k];
      }
      if k :| 0 <= k <= |a| && k < |b| && a[..k] == b[..k] && (k == |a| || a[k] < b[k]) {
        assert k > 0;
        assert a[1..][..k - 1] == a[..k][1..] && b[1..][..k - 1] == b[..k][1..];
      }
    } else if b != [] {
      forall k | 0 < k <= |a| && k < |b| ensures a[..k] != b[..k] {
        assert a[..k][0] == a[0] && b[..k][0] == b[0];
      }
      if a[0] < b[0] { assert a[..0] == b[..0]; }
    }
  }

  predicate IsLeast(m: string, s: set<string>) {
    m in s && forall x {:trigger Less(m, x)} :: x in s && x != m ==> Less(m, x)
  }

  lemma {:induction false} LeastExists(s: set<string>)
    requires s != {}
    ensures exists m :: IsLeast(m, s)
  {
    var x :| x in s;
    var rest := s - {x};
    assert s == rest + {x};
    if rest == {} {
      assert IsLeast(x, s);
    } else {
      LeastExists(rest);
      var m :| IsLeast(m, rest);
      LessTotal(m, x);
      if Less(m, x) {
        assert IsLeast(m, s);
      } else {
        forall y | y in s && y != x ensures Less(x, y) {
          if y != m { LessTransitive(x, m, y); }
        }
        assert IsLeast(x, s);
      }
    }
  }

  lemma {:induction false} LeastUnique(a: string, b: string, s: set<string>)
    requires IsLeast(a, s) && IsLeast(b, s)
    ensures a == b
  {
    if a != b {
      LessTransitive(a, b, a);
      LessIrreflexive(a);
    }
  }

  function Least(s: set<string>): (m: string)
    requires s != {}
    ensures IsLeast(m, s)
  {
    LeastExists(s);
    assert forall a, b :: IsLeast(a, s) && IsLeast(b, s) ==> a == b by {
      forall a, b | IsLeast(a, s) && IsLeast(b, s) ensures a == b { LeastUnique(a, b, s); }
    }
    var m :| IsLeast(m, s);
    m
  }

  predicate StrictlySorted(xs: seq<string>) {
    forall i, j :: 0 <= i < j < |xs| ==> Less(xs[i], xs[j])
  }

  function Elements<T>(xs: seq<T>): set<T> {
    set x | x in xs
  }

  lemma {:induction false} SortedCons(m: string, rest: seq<string>, s: set<string>)
    requires IsLeast(m, s) && Elements(rest) == s - {m} && StrictlySorted(rest)
    ensures Elements([m] + rest) == s && StrictlySorted([m] + rest)
  {
    var xs := [m] + rest;
    forall i, j | 0 <= i < j < |xs| ensures Less(xs[i], xs[j]) {
      assert rest[j - 1] in Elements(rest);
      if i > 0 { assert Less(rest[i - 1], rest[j - 1]); }
    }
    forall x ensures x in Elements(xs) <==> x in s {
      if x in s && x != m {
        assert x in Elements(rest);
        var i :| 0 <= i < |rest| && rest[i] == x;
        assert xs[i + 1] == x;
      }
      if x in Elements(xs) && x != m {
        var i :| 0 <= i < |xs| && xs[i] == x;
        assert rest[i - 1] == x && x in Elements(rest);
      }
      assert xs[0] == m;
    }
  }

  /** Python's `sorted` applied to a set. */
  function Sorted(s: set<string>): seq<string> {
    if s == {} then [] else [Least(s)] + Sorted(s - {Least(s)})
  }

  lemma {:induction false} SortedIsSorted(s: set<string>)
    ensures Elements(Sorted(s)) == s && StrictlySorted(Sorted(s))
  {
    if s != {} {
      SortedIsSorted(s - {Least(s)});
      SortedCons(Least(s), Sorted(s - {Least(s)}), s);
    }
  }

  /** Whatever order the members are visited in, there is one sorted enumeration. */
  lemma {:induction false} SortedUnique(xs: seq<string>, s: set<string>)
    requires StrictlySorted(xs) && Elements(xs) == s
    ensures xs == Sorted(s)
    decreases |xs|
  {
    if xs != [] {
      var m, rest := xs[0], xs[1..];
      assert xs[0] in Elements(xs);
      assert IsLeast(m, s);
      LeastUnique(m, Least(s), s);
      forall x ensures x in Elements(rest) <==> x in s - {m} {
        if x in s - {m} {
          var i :| 0 <= i < |xs| && xs[i] == x;
          assert rest[i - 1] == x;
        }
        if x in Elements(rest) {
          var i :| 0 <= i < |rest| && rest[i] == x;
          assert xs[i + 1] == x;
          LessIrreflexive(m);
        }
      }
      assert Elements(rest) == s - {m};
      SortedUnique(rest, s - {m});
      assert xs == [m] + rest;
    }
  }
}
