/**
  The order in which `Array.prototype.sort` without a comparator arranges
  strings (lexicographic by code unit, a proper prefix first), and the
  sorted listing of a set of strings that `Array.from(set).sort()` yields.
*/
module StringOrder {

  /** `a` sorts strictly before `b`. */
  predicate Less(a: string, b: string)
    decreases |a|
  {
    |b| > 0 && (|a| == 0 || a[0] < b[0] || (a[0] == b[0] && Less(a[1..], b[1..])))
  }

  lemma {:induction false} LessIrreflexive(a: string)
    ensures !Less(a, a)
    decreases |a|
  {
    if |a| > 0 {
      LessIrreflexive(a[1..]);
    }
  }

  lemma {:induction false} LessTransitive(a: string, b: string, c: string)
    requires Less(a, b) && Less(b, c)
    ensures Less(a, c)
    decreases |a|
  {
    if |a| > 0 && a[0] == b[0] && b[0] == c[0] {
      LessTransitive(a[1..], b[1..], c[1..]);
    }
  }

  /** Any two distinct strings are ordered one way or the other. */
  lemma {:induction false} LessTotal(a: string, b: string)
    ensures a == b || Less(a, b) || Less(b, a)
    decreases |a|
  {
    if |a| > 0 && |b| > 0 && a[0] == b[0] {
      LessTotal(a[1..], b[1..]);
      if a[1..] == b[1..] {
        assert a == [a[0]] + a[1..];
        assert b == [b[0]] + b[1..];
      }
    }
  }

  lemma LessAsymmetric()
    ensures forall a, b :: Less(a, b) ==> !Less(b, a)
  {
    forall a, b | Less(a, b) ensures !Less(b, a) {
      if Less(b, a) {
        LessTransitive(a, b, a);
        LessIrreflexive(a);
      }
    }
  }

  /** `m` is the element of `s` that sorts before every other one. */
  predicate IsLeast(m: string, s: set<string>) {
    m in s && forall y :: y in s && y != m ==> Less(m, y)
  }

  lemma {:induction false} LeastExists(s: set<string>)
    requires s != {}
    ensures exists m :: IsLeast(m, s)
    decreases |s|
  {
    var x :| x in s;
    if s == {x} {
      assert IsLeast(x, s);
    } else {
      var rest := s - {x};
      LeastExists(rest);
      var m :| IsLeast(m, rest);
      LessTotal(x, m);
      if Less(x, m) {
        forall y | y in s && y != x ensures Less(x, y) {
          if y != m {
            LessTransitive(x, m, y);
          }
        }
        assert IsLeast(x, s);
      } else {
        assert IsLeast(m, s);
      }
    }
  }

  /** The least element of a non-empty set of strings. */
  function Least(s: set<string>): (m: string)
    requires s != {}
    ensures IsLeast(m, s)
  {
    LeastExists(s);
    LessAsymmetric();
    var m :| IsLeast(m, s);
    m
  }

  predicate StrictlySorted(r: seq<string>) {
    forall i, j :: 0 <= i < j < |r| ==> Less(r[i], r[j])
  }

  /** `Array.from(s).sort()`: the elements of `s`, each once, in ascending order. */
  function SortedStrings(s: set<string>): (r: seq<string>)
    ensures |r| == |s|
    ensures forall x :: x in r <==> x in s
    ensures StrictlySorted(r)
    decreases |s|
  {
    if s == {} then []
    else
      var m := Least(s);
      var rest := SortedStrings(s - {m});
      var r := [m] + rest;
      assert forall j :: 0 < j < |r| ==> r[j] == rest[j - 1];
      r
  }

  /** Sorting a set has exactly one outcome: every strictly ascending listing of
      the elements of `s` is `SortedStrings(s)`, whatever order the set was
      enumerated in. */
  lemma {:induction false} SortedUnique(r: seq<string>, s: set<string>)
    requires StrictlySorted(r)
    requires forall x :: x in r <==> x in s
    ensures r == SortedStrings(s)
    decreases |s|
  {
    if r == [] {
      assert s == {};
    } else {
      assert r[0] in s;
      var m := Least(s);
      SortedHead(r, s);
      SortedTail(r, s, m);
      SortedUnique(r[1..], s - {m});
      SortedStringsCons(s);
      HeadAndTail(r, [m] + SortedStrings(s - {m}));
    }
  }

  /** The listing of a non-empty set is its least element, then the rest. */
  lemma SortedStringsCons(s: set<string>)
    requires s != {}
    ensures SortedStrings(s) == [Least(s)] + SortedStrings(s - {Least(s)})
  {
  }

  lemma HeadAndTail<T>(r: seq<T>, q: seq<T>)
    requires r != [] && q != [] && r[0] == q[0] && r[1..] == q[1..]
    ensures r == q
  {
    assert r == [r[0]] + r[1..];
    assert q == [q[0]] + q[1..];
  }

  /** A strictly ascending listing of `s` starts with its least element. */
  lemma SortedHead(r: seq<string>, s: set<string>)
    requires StrictlySorted(r) && r != []
    requires forall x :: x in r <==> x in s
    ensures s != {} && r[0] == Least(s)
  {
    assert r[0] in s;
    forall y | y in s && y != r[0] ensures Less(r[0], y) {
      var j :| 0 <= j < |r| && r[j] == y;
      assert j != 0;
    }
    assert IsLeast(r[0], s);
    LessAsymmetric();
  }

  /** Without its head, such a listing is one of the rest of `s`. */
  lemma SortedTail(r: seq<string>, s: set<string>, m: string)
    requires StrictlySorted(r) && r != [] && r[0] == m
    requires forall x :: x in r <==> x in s
    ensures StrictlySorted(r[1..])
    ensures forall x :: x in r[1..] <==> x in s - {m}
  {
    var tail := r[1..];
    forall j | 0 <= j < |tail| ensures tail[j] != m {
      assert Less(r[0], r[j + 1]);
      LessIrreflexive(m);
    }
    forall x ensures x in tail <==> x in s - {m} {
      if x in s - {m} {
        var j :| 0 <= j < |r| && r[j] == x;
        assert j != 0;
        assert tail[j - 1] == x;
      }
      if x in tail {
        var j :| 0 <= j < |tail| && tail[j] == x;
        assert r[j + 1] == x;
      }
    }
    forall i, j | 0 <= i < j < |tail| ensures Less(tail[i], tail[j]) {
      assert tail[i] == r[i + 1] && tail[j] == r[j + 1];
    }
  }
}
