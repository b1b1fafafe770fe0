/** `sorted(s)` for a set of file paths: the paths listed once each, in
    Python's string order. */
module Sorting {
  import opened Text

  /** Strictly increasing in Python's string order (so also free of repeats). */
  predicate Ascending(xs: seq<string>)
  {
    forall i, j :: 0 <= i < j < |xs| ==> Below(xs[i], xs[j]) && xs[i] != xs[j]
  }

  /** `m` is the smallest path of `s`. */
  predicate IsLeast(m: string, s: set<string>)
  {
    m in s && forall x :: x in s ==> Below(m, x)
  }

  lemma {:induction false} LeastExists(s: set<string>)
    requires s != {}
    ensures exists m :: IsLeast(m, s)
  {
    var x :| x in s;
    BelowReflexive(x);
    if s != {x} {
      LeastExists(s - {x});
      var m :| IsLeast(m, s - {x});
      BelowTotal(m, x);
      if !Below(m, x) {
        forall y | y in s
          ensures Below(x, y)
        {
          if y != x {
            BelowTransitive(x, m, y);
          }
        }
        assert IsLeast(x, s);
      } else {
        assert IsLeast(m, s);
      }
    } else {
      assert IsLeast(x, s);
    }
  }

  lemma LeastUnique(s: set<string>)
    ensures forall a, b :: IsLeast(a, s) && IsLeast(b, s) ==> a == b
  {
    forall a, b | IsLeast(a, s) && IsLeast(b, s)
      ensures a == b
    {
      BelowAntisymmetric(a, b);
    }
  }

  /** Python's `sorted(s)` on a set of strings. */
  function Sorted(s: set<string>): (r: seq<string>)
    ensures |r| == |s|
    ensures forall x :: x in r <==> x in s
    decreases |s|
  {
    if s == {} then []
    else
      LeastExists(s);
      LeastUnique(s);
      var m :| IsLeast(m, s);
      [m] + Sorted(s - {m})
  }

  /** Unfolds `Sorted` one step at its least element. */
  lemma SortedCons(s: set<string>, m: string)
    requires IsLeast(m, s)
    ensures Sorted(s) == [m] + Sorted(s - {m})
  {
    LeastUnique(s);
  }

  /** Putting a strictly smaller path in front keeps a listing ascending. */
  lemma AscendingCons(m: string, rest: seq<string>)
    requires Ascending(rest)
    requires forall k :: 0 <= k < |rest| ==> Below(m, rest[k]) && m != rest[k]
    ensures Ascending([m] + rest)
  {
    var r := [m] + rest;
    forall i, j | 0 <= i < j < |r|
      ensures Below(r[i], r[j]) && r[i] != r[j]
    {
      if i > 0 {
        assert r[i] == rest[i - 1];
      }
      assert r[j] == rest[j - 1];
    }
  }

  /** `sorted` lists the paths in strictly increasing order. */
  lemma {:induction false} SortedAscending(s: set<string>)
    ensures Ascending(Sorted(s))
    decreases |s|
  {
    if s != {} {
      LeastExists(s);
      var m :| IsLeast(m, s);
      var rest := Sorted(s - {m});
      assert Sorted(s) == [m] + rest by {
        SortedCons(s, m);
      }
      SortedAscending(s - {m});
      LeastBelowOthers(s, m, rest);
      AscendingCons(m, rest);
    }
  }

  /** The least path is strictly below every other path of the set. */
  lemma LeastBelowOthers(s: set<string>, m: string, rest: seq<string>)
    requires IsLeast(m, s)
    requires forall x :: x in rest ==> x in s - {m}
    ensures forall k :: 0 <= k < |rest| ==> Below(m, rest[k]) && m != rest[k]
  {
    forall k | 0 <= k < |rest|
      ensures Below(m, rest[k]) && m != rest[k]
    {
      assert rest[k] in s - {m};
    }
  }

  lemma AscendingHeadLeast(s: set<string>, xs: seq<string>)
    requires |xs| > 0 && Ascending(xs)
    requires forall x :: x in xs <==> x in s
    ensures IsLeast(xs[0], s)
  {
    BelowReflexive(xs[0]);
    forall y | y in s
      ensures Below(xs[0], y)
    {
      var k :| 0 <= k < |xs| && xs[k] == y;
    }
  }

  lemma AscendingTail(s: set<string>, xs: seq<string>)
    requires |xs| > 0 && Ascending(xs)
    requires forall x :: x in xs <==> x in s
    ensures Ascending(xs[1..])
    ensures forall x :: x in xs[1..] <==> x in s - {xs[0]}
  {
    forall x
      ensures x in xs[1..] <==> x in s - {xs[0]}
    {
      if x in xs[1..] {
        var k :| 1 <= k < |xs| && xs[k] == x;
      }
      if x in s - {xs[0]} {
        assert x in xs;
      }
    }
  }

  /** The sorted listing is the only ascending enumeration of the set: any
      strictly increasing sequence holding exactly the paths of `s` is it. */
  lemma {:induction false} SortedUnique(s: set<string>, xs: seq<string>)
    requires Ascending(xs)
    requires forall x :: x in xs <==> x in s
    ensures xs == Sorted(s)
    decreases |xs|
  {
    if xs == [] {
      assert s == {};
    } else {
      var m, tail := xs[0], xs[1..];
      assert xs == [m] + tail;
      AscendingTail(s, xs);
      SortedUnique(s - {m}, tail);
      assert Sorted(s) == [m] + tail by {
        AscendingHeadLeast(s, xs);
        SortedCons(s, m);
      }
    }
  }
}
