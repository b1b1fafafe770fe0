/** File-overlap similarity between two commits (core.py:170-179).

    Python computes the ratio in floating point; here it is an exact rational
    (`real`), so ties at the threshold are decided exactly. */
module Similarity {

  /** The Jaccard index of two sets of changed paths, with the source's
      conventions for empty sets: two empty sets are fully similar, an empty
      set is not similar at all to a non-empty one. */
  function Jaccard(a: set<string>, b: set<string>): (r: real)
    ensures 0.0 <= r <= 1.0
    ensures a == {} && b == {} ==> r == 1.0
    ensures (a == {}) != (b == {}) ==> r == 0.0
  {
    if a == {} && b == {} then 1.0
    else if a == {} || b == {} then 0.0
    else
      var intersection := |a * b|;
      var union := |a + b|;
      assert union > 0 by {
        var x :| x in a;
        assert x in a + b;
      }
      CardinalityOfSubset(a * b, a + b);
      if union > 0 then intersection as real / union as real else 0.0
  }

  lemma {:induction false} CardinalityOfSubset(small: set<string>, big: set<string>)
    requires small <= big
    ensures |small| <= |big|
    ensures |small| == |big| ==> small == big
    decreases |big|
  {
    if small != {} {
      var x :| x in small;
      CardinalityOfSubset(small - {x}, big - {x});
      assert small == (small - {x}) + {x};
      assert big == (big - {x}) + {x};
    } else if big != {} {
      var y :| y in big;
      assert |big| >= 1 by {
        assert y in big;
      }
    }
  }

  /** Similarity does not depend on the order of the two commits. */
  lemma JaccardSymmetric(a: set<string>, b: set<string>)
    ensures Jaccard(a, b) == Jaccard(b, a)
  {
    assert a + b == b + a;
    assert a * b == b * a;
  }

  /** Similarity is 1 exactly when the two commits touch the same paths. */
  lemma JaccardOneIffEqual(a: set<string>, b: set<string>)
    ensures Jaccard(a, b) == 1.0 <==> a == b
  {
    if a != {} && b != {} {
      var r := Jaccard(a, b);
      var u := |a + b| as real;
      assert u > 0.0 by {
        var x :| x in a;
        assert x in a + b;
      }
      if r == 1.0 {
        assert |a * b| == |a + b|;
        CardinalityOfSubset(a * b, a + b);
        assert a == b by {
          assert a <= a + b && a * b <= a;
        }
      }
      if a == b {
        assert a * b == a + b;
      }
    }
  }

  /** Similarity is 0 exactly when at least one commit touches something and
      the two commits share no path. */
  lemma JaccardZeroIffDisjoint(a: set<string>, b: set<string>)
    ensures Jaccard(a, b) == 0.0 <==> (a != {} || b != {}) && a * b == {}
  {
    if a != {} && b != {} {
      var u := |a + b| as real;
      assert u > 0.0 by {
        var x :| x in a;
        assert x in a + b;
      }
      if a * b != {} {
        var x :| x in a * b;
        assert |a * b| > 0;
      }
    }
  }
}
