/** Greedy grouping of commits by file similarity (`group_commits`,
    core.py:181-216).

    The algorithm is modelled on positions `0 .. n-1` of the oldest-first
    commit list, and is stated for any similarity measure `sim` between two
    positions: a group is a list of positions. `GroupCommits` instantiates
    `sim` with the Jaccard similarity of the commits' changed paths and lifts
    the result back to commits. */
module Grouping {
  import opened Seqs
  import opened Similarity
  import opened Commits

  // ---------------------------------------------------------------------------
  // Shapes of a grouping
  // ---------------------------------------------------------------------------

  /** Strictly increasing positions. */
  predicate Increasing(g: seq<nat>)
  {
    forall a, b :: 0 <= a < b < |g| ==> g[a] < g[b]
  }

  /** No position occurs twice. */
  predicate Distinct(xs: seq<nat>)
  {
    forall a, b :: 0 <= a < b < |xs| ==> xs[a] != xs[b]
  }

  /** All positions of all groups are below `n`. */
  predicate InRange(groups: seq<seq<nat>>, n: nat)
  {
    forall g, k :: 0 <= g < |groups| && 0 <= k < |groups[g]| ==> groups[g][k] < n
  }

  /** Every position below `n` is in exactly one group, and no group is empty. */
  ghost predicate Partition(groups: seq<seq<nat>>, n: nat)
  {
    && (forall g :: 0 <= g < |groups| ==> |groups[g]| > 0)
    && Distinct(Flatten(groups))
    && (forall x: nat :: x in Flatten(groups) <==> x < n)
  }

  /** Within every group the original commit order is kept. */
  predicate Stable(groups: seq<seq<nat>>)
  {
    forall g :: 0 <= g < |groups| ==> Increasing(groups[g])
  }

  /** Each group starts at the smallest position not taken by an earlier group:
      its head is no larger than anything in it or in any later group. */
  predicate HeadsMinimal(groups: seq<seq<nat>>)
  {
    forall g, h, k :: 0 <= g <= h < |groups| && 0 <= k < |groups[h]| && 0 < |groups[g]| ==>
      groups[g][0] <= groups[h][k]
  }

  /** Commit `y` is similar enough to commit `x` to join its group: the
      comparison with the threshold is inclusive (core.py:210). */
  predicate Similar(sim: (nat, nat) -> real, t: real, x: nat, y: nat)
  {
    sim(x, y) >= t
  }

  /** Every member of `group` after its head is similar enough to some member
      that precedes it. */
  predicate JoinedGroup(sim: (nat, nat) -> real, t: real, group: seq<nat>)
  {
    forall k :: 0 < k < |group| ==> exists m :: 0 <= m < k && Similar(sim, t, group[m], group[k])
  }

  /** Every group was built by similarity joins. */
  predicate JoinedBySimilarity(sim: (nat, nat) -> real, t: real, groups: seq<seq<nat>>)
  {
    forall g :: 0 <= g < |groups| ==> JoinedGroup(sim, t, groups[g])
  }

  /** A commit left to a later group was, when the earlier group scanned it,
      not similar enough to any member that group had by then (its members
      at smaller positions). */
  predicate RejectedByDissimilarity(sim: (nat, nat) -> real, t: real, groups: seq<seq<nat>>)
  {
    forall g, h, m, k ::
      (0 <= g < h < |groups| && 0 <= m < |groups[g]| && 0 <= k < |groups[h]| && groups[g][m] < groups[h][k]) ==>
      !Similar(sim, t, groups[g][m], groups[h][k])
  }

  // ---------------------------------------------------------------------------
  // The algorithm
  // ---------------------------------------------------------------------------

  /** `max(calculate_similarity(m, commits[j]) for m in group)`: the largest
      similarity between commit `j` and a member of the group. */
  function MaxSimilarity(sim: (nat, nat) -> real, group: seq<nat>, j: nat): (r: real)
    requires |group| > 0
    ensures exists k :: 0 <= k < |group| && r == sim(group[k], j)
    ensures forall k :: 0 <= k < |group| ==> sim(group[k], j) <= r
  {
    var first := sim(group[0], j);
    if |group| == 1 then first
    else
      var rest := MaxSimilarity(sim, group[1..], j);
      assert forall k :: 1 <= k < |group| ==> group[k] == group[1..][k - 1];
      if first >= rest then first else rest
  }

  /** The inner loop (core.py:200-212): scans positions `j, j+1, …, n-1` and
      appends each one that is not yet used and whose best similarity to the
      growing group reaches the threshold. Returns the grown group and the
      grown used set. */
  function Grow(n: nat, sim: (nat, nat) -> real, t: real, group: seq<nat>, used: set<nat>, j: nat)
    : (res: (seq<nat>, set<nat>))
    requires |group| > 0 && j <= n
    ensures group <= res.0
    decreases n - j
  {
    if j == n then (group, used)
    else if j in used then Grow(n, sim, t, group, used, j + 1)
    else if MaxSimilarity(sim, group, j) >= t then
      Grow(n, sim, t, group + [j], used + {j}, j + 1)
    else
      Grow(n, sim, t, group, used, j + 1)
  }

  /** The outer loop (core.py:191-214) from position `i` on: each position not
      yet used starts a group, which `Grow` completes. */
  function GroupFrom(n: nat, sim: (nat, nat) -> real, t: real, i: nat, used: set<nat>): seq<seq<nat>>
    decreases n - i
  {
    if i >= n then []
    else if i in used then GroupFrom(n, sim, t, i + 1, used)
    else
      var (group, used') := Grow(n, sim, t, [i], used + {i}, i + 1);
      [group] + GroupFrom(n, sim, t, i + 1, used')
  }

  /** `group_commits` on the positions `0 .. n-1`. */
  function GroupWith(n: nat, sim: (nat, nat) -> real, t: real): seq<seq<nat>>
  {
    if n == 0 then [] else GroupFrom(n, sim, t, 0, {})
  }

  /** `calculate_similarity` between the commits at two positions. */
  function FileSimilarity(commits: seq<Commit>): (nat, nat) -> real
  {
    (x: nat, y: nat) =>
      if x < |commits| && y < |commits| then Jaccard(commits[x].files, commits[y].files) else 0.0
  }

  /** `group_commits` as positions into `commits`. */
  function GroupPositions(commits: seq<Commit>, t: real): seq<seq<nat>>
  {
    GroupWith(|commits|, FileSimilarity(commits), t)
  }

  /** `group_commits`: the groups of commits, in formation order. */
  function GroupCommits(commits: seq<Commit>, t: real): (groups: seq<seq<Commit>>)
    ensures InRange(GroupPositions(commits, t), |commits|)
    ensures |groups| == |GroupPositions(commits, t)|
    ensures forall g :: 0 <= g < |groups| ==> |groups[g]| == |GroupPositions(commits, t)[g]|
    ensures forall g, k :: 0 <= g < |groups| && 0 <= k < |groups[g]| ==>
      groups[g][k] == commits[GroupPositions(commits, t)[g][k]]
  {
    var positions := GroupPositions(commits, t);
    GroupFromShape(|commits|, FileSimilarity(commits), t, 0, {});
    seq(|positions|, g requires 0 <= g < |positions| =>
      seq(|positions[g]|, k requires 0 <= k < |positions[g]| => commits[positions[g][k]]))
  }

  // ---------------------------------------------------------------------------
  // Facts about the inner loop
  // ---------------------------------------------------------------------------

  /** The best similarity reaches the threshold exactly when some member is
      similar enough. */
  lemma MaxSimilarityReaches(sim: (nat, nat) -> real, t: real, group: seq<nat>, j: nat)
    requires |group| > 0
    ensures MaxSimilarity(sim, group, j) >= t <==> exists m :: 0 <= m < |group| && Similar(sim, t, group[m], j)
  {
  }

  /** The group and used set after the inner loop has looked at position `j`. */
  function Scan(n: nat, sim: (nat, nat) -> real, t: real, group: seq<nat>, used: set<nat>, j: nat)
    : (res: (seq<nat>, set<nat>))
    requires |group| > 0
    ensures res.0 == group || res.0 == group + [j]
  {
    if j !in used && MaxSimilarity(sim, group, j) >= t then (group + [j], used + {j}) else (group, used)
  }

  /** The inner loop is one `Scan` step after another. */
  lemma GrowUnfold(n: nat, sim: (nat, nat) -> real, t: real, group: seq<nat>, used: set<nat>, j: nat)
    requires |group| > 0 && j < n
    ensures var next := Scan(n, sim, t, group, used, j);
      Grow(n, sim, t, group, used, j) == Grow(n, sim, t, next.0, next.1, j + 1)
  {
  }

  /** The inner loop keeps the group in increasing position order. */
  lemma {:induction false} GrowIncreasing(n: nat, sim: (nat, nat) -> real, t: real, group: seq<nat>, used: set<nat>, j: nat)
    requires |group| > 0 && j <= n && Increasing(group)
    requires forall k :: 0 <= k < |group| ==> group[k] < j
    ensures Increasing(Grow(n, sim, t, group, used, j).0)
    decreases n - j
  {
    if j < n {
      var next := Scan(n, sim, t, group, used, j);
      IncreasingSnoc(group, j, group + [j]);
      GrowIncreasing(n, sim, t, next.0, next.1, j + 1);
      GrowUnfold(n, sim, t, group, used, j);
    }
  }

  /** Appending a position above every member keeps a group increasing. */
  lemma IncreasingSnoc(group: seq<nat>, j: nat, group': seq<nat>)
    requires Increasing(group) && group' == group + [j]
    requires forall k :: 0 <= k < |group| ==> group[k] < j
    ensures Increasing(group')
    ensures forall k :: 0 <= k < |group'| ==> group'[k] < j + 1
  {
  }

  /** The inner loop only appends positions in `j .. n-1` that were not yet used. */
  lemma GrowFresh(n: nat, sim: (nat, nat) -> real, t: real, group: seq<nat>, used: set<nat>, j: nat)
    requires |group| > 0 && j <= n
    ensures var res := Grow(n, sim, t, group, used, j);
      forall k :: |group| <= k < |res.0| ==> j <= res.0[k] < n && res.0[k] !in used
  {
    var res := Grow(n, sim, t, group, used, j);
    forall k | |group| <= k < |res.0|
      ensures j <= res.0[k] < n && res.0[k] !in used
    {
      GrowFreshAt(n, sim, t, group, used, j, k);
    }
  }

  /** One appended member at a time: member `k` of the grown group, past the
      starting group, lies in `j .. n-1` and was not yet used. */
  lemma {:induction false} GrowFreshAt(n: nat, sim: (nat, nat) -> real, t: real, group: seq<nat>, used: set<nat>,
                                       j: nat, k: nat)
    requires |group| > 0 && j <= n
    requires |group| <= k < |Grow(n, sim, t, group, used, j).0|
    ensures var x := Grow(n, sim, t, group, used, j).0[k];
      j <= x < n && x !in used
    decreases n - j
  {
    if j < n {
      var next := Scan(n, sim, t, group, used, j);
      GrowUnfold(n, sim, t, group, used, j);
      if k < |next.0| {
        assert next.0 <= Grow(n, sim, t, next.0, next.1, j + 1).0;
        assert next.0[k] == j;
      } else {
        GrowFreshAt(n, sim, t, next.0, next.1, j + 1, k);
      }
    }
  }

  /** The used set grows by exactly the appended positions. */
  lemma {:induction false} GrowUsed(n: nat, sim: (nat, nat) -> real, t: real, group: seq<nat>, used: set<nat>, j: nat)
    requires |group| > 0 && j <= n
    requires forall k :: 0 <= k < |group| ==> group[k] in used
    ensures var res := Grow(n, sim, t, group, used, j);
      forall x :: x in res.1 <==> x in used || x in res.0
    decreases n - j
  {
    var res := Grow(n, sim, t, group, used, j);
    if j == n {
    } else if j in used {
      assert res == Grow(n, sim, t, group, used, j + 1);
      GrowUsed(n, sim, t, group, used, j + 1);
    } else if MaxSimilarity(sim, group, j) >= t {
      var group' := group + [j];
      assert res == Grow(n, sim, t, group', used + {j}, j + 1);
      GrowUsed(n, sim, t, group', used + {j}, j + 1);
      assert group' <= res.0;
      assert res.0[|group|] == j;
    } else {
      assert res == Grow(n, sim, t, group, used, j + 1);
      GrowUsed(n, sim, t, group, used, j + 1);
    }
  }

  /** Every position the inner loop appends is similar enough to a member
      that precedes it. */
  lemma {:induction false} GrowJoins(n: nat, sim: (nat, nat) -> real, t: real, group: seq<nat>, used: set<nat>, j: nat)
    requires |group| > 0 && j <= n
    ensures var res := Grow(n, sim, t, group, used, j);
      forall k :: |group| <= k < |res.0| ==>
        exists m :: 0 <= m < k && Similar(sim, t, res.0[m], res.0[k])
    decreases n - j
  {
    var res := Grow(n, sim, t, group, used, j);
    if j == n {
    } else if j in used {
      assert res == Grow(n, sim, t, group, used, j + 1);
      GrowJoins(n, sim, t, group, used, j + 1);
    } else if MaxSimilarity(sim, group, j) >= t {
      var group' := group + [j];
      assert res == Grow(n, sim, t, group', used + {j}, j + 1);
      GrowJoins(n, sim, t, group', used + {j}, j + 1);
      assert group' <= res.0;
      var m :| 0 <= m < |group| && MaxSimilarity(sim, group, j) == sim(group[m], j);
      assert res.0[m] == group[m] && res.0[|group|] == j;
    } else {
      assert res == Grow(n, sim, t, group, used, j + 1);
      GrowJoins(n, sim, t, group, used, j + 1);
    }
  }

  /** No member of `group` at a position below `x` is similar enough to `x`. */
  predicate NoneSimilarBelow(sim: (nat, nat) -> real, t: real, group: seq<nat>, x: nat)
  {
    forall m :: 0 <= m < |group| && group[m] < x ==> !Similar(sim, t, group[m], x)
  }

  /** A position `x` from `j` on that the inner loop leaves unused was not
      similar enough to any member the group had when the scan reached it. */
  lemma {:induction false} GrowRejectsAt(n: nat, sim: (nat, nat) -> real, t: real, group: seq<nat>, used: set<nat>, j: nat, x: nat)
    requires |group| > 0 && j <= x < n
    requires forall k :: 0 <= k < |group| ==> group[k] < j
    requires forall k :: 0 <= k < |group| ==> group[k] in used
    requires x !in Grow(n, sim, t, group, used, j).1
    ensures NoneSimilarBelow(sim, t, Grow(n, sim, t, group, used, j).0, x)
    decreases n - j
  {
    var res := Grow(n, sim, t, group, used, j);
    GrowFresh(n, sim, t, group, used, j);
    GrowUsed(n, sim, t, group, used, j);
    if j in used {
      assert res == Grow(n, sim, t, group, used, j + 1);
      assert x != j;
      GrowRejectsAt(n, sim, t, group, used, j + 1, x);
    } else if MaxSimilarity(sim, group, j) >= t {
      var group' := group + [j];
      assert res == Grow(n, sim, t, group', used + {j}, j + 1);
      assert res.0[|group|] == group'[|group|] == j;
      assert x != j;
      GrowRejectsAt(n, sim, t, group', used + {j}, j + 1, x);
    } else {
      assert res == Grow(n, sim, t, group, used, j + 1);
      if x == j {
        // The members below `j` are exactly the original group.
        forall m | 0 <= m < |res.0| && res.0[m] < j
          ensures !Similar(sim, t, res.0[m], j)
        {
          assert m < |group|;
          assert res.0[m] == group[m];
        }
      } else {
        GrowRejectsAt(n, sim, t, group, used, j + 1, x);
      }
    }
  }

  // ---------------------------------------------------------------------------
  // Facts about the outer loop
  // ---------------------------------------------------------------------------

  /** One step of the outer loop at an unused position `i`: the group `Grow`
      builds from `[i]`, its members, and what they have in common. */
  lemma GroupFromStep(n: nat, sim: (nat, nat) -> real, t: real, i: nat, used: set<nat>)
    requires i < n && i !in used
    ensures var (group, used') := Grow(n, sim, t, [i], used + {i}, i + 1);
      && GroupFrom(n, sim, t, i, used) == [group] + GroupFrom(n, sim, t, i + 1, used')
      && |group| > 0 && group[0] == i && Increasing(group)
      && (forall k :: 1 <= k < |group| ==> i < group[k] < n && group[k] !in used)
      && (forall x :: x in used' <==> x in used || x in group)
  {
    GrowIncreasing(n, sim, t, [i], used + {i}, i + 1);
    GrowFresh(n, sim, t, [i], used + {i}, i + 1);
    GrowUsed(n, sim, t, [i], used + {i}, i + 1);
  }

  /** The groups from position `i` on are non-empty, in range, increasing,
      and start at or after `i`. */
  lemma {:induction false} GroupFromShape(n: nat, sim: (nat, nat) -> real, t: real, i: nat, used: set<nat>)
    ensures var groups := GroupFrom(n, sim, t, i, used);
      && InRange(groups, n)
      && Stable(groups)
      && (forall g :: 0 <= g < |groups| ==> |groups[g]| > 0 && i <= groups[g][0])
    decreases n - i
  {
    if i >= n {
    } else if i in used {
      GroupFromShape(n, sim, t, i + 1, used);
    } else {
      GroupFromStep(n, sim, t, i, used);
      var (group, used') := Grow(n, sim, t, [i], used + {i}, i + 1);
      GroupFromShape(n, sim, t, i + 1, used');
      var rest := GroupFrom(n, sim, t, i + 1, used');
      var groups := [group] + rest;
      assert forall g :: 1 <= g < |groups| ==> groups[g] == rest[g - 1];
    }
  }

  /** The groups from position `i` on hold exactly the unused positions
      `i .. n-1`. */
  lemma {:induction false} GroupFromCover(n: nat, sim: (nat, nat) -> real, t: real, i: nat, used: set<nat>)
    ensures forall x: nat :: x in Flatten(GroupFrom(n, sim, t, i, used)) <==> i <= x < n && x !in used
    decreases n - i
  {
    if i >= n {
    } else if i in used {
      GroupFromCover(n, sim, t, i + 1, used);
    } else {
      GroupFromStep(n, sim, t, i, used);
      var (group, used') := Grow(n, sim, t, [i], used + {i}, i + 1);
      GroupFromCover(n, sim, t, i + 1, used');
      var rest := GroupFrom(n, sim, t, i + 1, used');
      assert Flatten([group] + rest) == group + Flatten(rest) by {
        assert ([group] + rest)[1..] == rest;
      }
      forall x: nat
        ensures x in group + Flatten(rest) <==> i <= x < n && x !in used
      {
        if x in group {
          var k :| 0 <= k < |group| && group[k] == x;
        }
      }
    }
  }

  /** No position is placed twice. */
  lemma {:induction false} GroupFromDistinct(n: nat, sim: (nat, nat) -> real, t: real, i: nat, used: set<nat>)
    ensures Distinct(Flatten(GroupFrom(n, sim, t, i, used)))
    decreases n - i
  {
    if i >= n {
    } else if i in used {
      GroupFromDistinct(n, sim, t, i + 1, used);
    } else {
      GroupFromStep(n, sim, t, i, used);
      var (group, used') := Grow(n, sim, t, [i], used + {i}, i + 1);
      GroupFromDistinct(n, sim, t, i + 1, used');
      GroupFromCover(n, sim, t, i + 1, used');
      var rest := GroupFrom(n, sim, t, i + 1, used');
      assert Flatten([group] + rest) == group + Flatten(rest) by {
        assert ([group] + rest)[1..] == rest;
      }
      DistinctConcat(group, Flatten(rest));
    }
  }

  lemma DistinctConcat(a: seq<nat>, b: seq<nat>)
    requires Increasing(a) && Distinct(b)
    requires forall x :: x in a ==> x !in b
    ensures Distinct(a + b)
  {
    forall p, q | 0 <= p < q < |a + b|
      ensures (a + b)[p] != (a + b)[q]
    {
      if p < |a| && q >= |a| {
        assert (a + b)[p] in a;
        assert (a + b)[q] == b[q - |a|];
      }
    }
  }

  /** Each group's head is no larger than any later position placed. */
  lemma {:induction false} GroupFromHeads(n: nat, sim: (nat, nat) -> real, t: real, i: nat, used: set<nat>)
    ensures HeadsMinimal(GroupFrom(n, sim, t, i, used))
    decreases n - i
  {
    if i >= n {
    } else if i in used {
      GroupFromHeads(n, sim, t, i + 1, used);
    } else {
      GroupFromStep(n, sim, t, i, used);
      var (group, used') := Grow(n, sim, t, [i], used + {i}, i + 1);
      GroupFromHeads(n, sim, t, i + 1, used');
      GroupFromShape(n, sim, t, i + 1, used');
      var rest := GroupFrom(n, sim, t, i + 1, used');
      var groups := [group] + rest;
      forall g, h, k | 0 <= g <= h < |groups| && 0 <= k < |groups[h]| && 0 < |groups[g]|
        ensures groups[g][0] <= groups[h][k]
      {
        if g == 0 && h == 0 {
          if k > 0 {
            assert group[0] < group[k];
          }
        } else if g == 0 {
          assert groups[h] == rest[h - 1];
          assert rest[h - 1][0] <= rest[h - 1][k];
        } else {
          assert groups[g] == rest[g - 1] && groups[h] == rest[h - 1];
        }
      }
    }
  }

  /** Every non-head member joined through a similar earlier member. */
  lemma {:induction false} GroupFromJoins(n: nat, sim: (nat, nat) -> real, t: real, i: nat, used: set<nat>)
    ensures JoinedBySimilarity(sim, t, GroupFrom(n, sim, t, i, used))
    decreases n - i
  {
    if i >= n {
    } else if i in used {
      GroupFromJoins(n, sim, t, i + 1, used);
    } else {
      GroupFromStep(n, sim, t, i, used);
      GrowJoins(n, sim, t, [i], used + {i}, i + 1);
      var (group, used') := Grow(n, sim, t, [i], used + {i}, i + 1);
      GroupFromJoins(n, sim, t, i + 1, used');
      JoinedCons(sim, t, group, GroupFrom(n, sim, t, i + 1, used'));
    }
  }

  /** Putting a group built by similarity joins in front of others keeps the
      list built by similarity joins. */
  lemma JoinedCons(sim: (nat, nat) -> real, t: real, group: seq<nat>, rest: seq<seq<nat>>)
    requires JoinedGroup(sim, t, group) && JoinedBySimilarity(sim, t, rest)
    ensures JoinedBySimilarity(sim, t, [group] + rest)
  {
    var groups := [group] + rest;
    forall g | 0 <= g < |groups|
      ensures JoinedGroup(sim, t, groups[g])
    {
      if g > 0 {
        assert groups[g] == rest[g - 1];
      }
    }
  }

  /** A group placed in front of others whose positions it rejected keeps the
      list rejected by dissimilarity. */
  lemma RejectedCons(sim: (nat, nat) -> real, t: real, group: seq<nat>, rest: seq<seq<nat>>)
    requires RejectedByDissimilarity(sim, t, rest)
    requires forall x :: x in Flatten(rest) ==> NoneSimilarBelow(sim, t, group, x)
    ensures RejectedByDissimilarity(sim, t, [group] + rest)
  {
    var groups := [group] + rest;
    forall g, h, m, k | 0 <= g < h < |groups| && 0 <= m < |groups[g]| && 0 <= k < |groups[h]|
      && groups[g][m] < groups[h][k]
      ensures !Similar(sim, t, groups[g][m], groups[h][k])
    {
      if g == 0 {
        var x := rest[h - 1][k];
        assert groups[h][k] == x;
        FlattenMember(rest, x);
        assert x in Flatten(rest);
      } else {
        assert groups[g] == rest[g - 1] && groups[h] == rest[h - 1];
      }
    }
  }

  /** A position placed in a later group was dissimilar to every smaller
      member of each earlier group. */
  lemma {:induction false} GroupFromRejects(n: nat, sim: (nat, nat) -> real, t: real, i: nat, used: set<nat>)
    ensures RejectedByDissimilarity(sim, t, GroupFrom(n, sim, t, i, used))
    decreases n - i
  {
    if i >= n {
    } else if i in used {
      GroupFromRejects(n, sim, t, i + 1, used);
    } else {
      GroupFromStep(n, sim, t, i, used);
      var (group, used') := Grow(n, sim, t, [i], used + {i}, i + 1);
      GroupFromRejects(n, sim, t, i + 1, used');
      GroupFromCover(n, sim, t, i + 1, used');
      var rest := GroupFrom(n, sim, t, i + 1, used');
      forall x | x in Flatten(rest)
        ensures NoneSimilarBelow(sim, t, group, x)
      {
        GrowRejectsAt(n, sim, t, [i], used + {i}, i + 1, x);
      }
      RejectedCons(sim, t, group, rest);
    }
  }

  // ---------------------------------------------------------------------------
  // The whole grouping
  // ---------------------------------------------------------------------------

  /** `range(n)`. */
  function Range(n: nat): (r: seq<nat>)
    ensures |r| == n
    ensures forall k :: 0 <= k < n ==> r[k] == k
  {
    seq(n, k => k)
  }

  /** `group_commits` meets its declarative description: there are no groups
      exactly when there are no commits, the groups partition
      the positions, keep the original order inside each group, are formed
      in order of their smallest position, every member joined through a
      similar earlier member, and every commit left for a later group was
      dissimilar to what the earlier group held below it. */
  lemma GroupWithFacts(n: nat, sim: (nat, nat) -> real, t: real)
    ensures var groups := GroupWith(n, sim, t);
      && (groups == [] <==> n == 0)
      && InRange(groups, n)
      && Partition(groups, n)
      && Stable(groups)
      && HeadsMinimal(groups)
      && JoinedBySimilarity(sim, t, groups)
      && RejectedByDissimilarity(sim, t, groups)
  {
    if n > 0 {
      GroupFromShape(n, sim, t, 0, {});
      GroupFromCover(n, sim, t, 0, {});
      GroupFromDistinct(n, sim, t, 0, {});
      GroupFromHeads(n, sim, t, 0, {});
      GroupFromJoins(n, sim, t, 0, {});
      GroupFromRejects(n, sim, t, 0, {});
    }
  }

  lemma {:induction false} DistinctCount(xs: seq<nat>, x: nat)
    requires Distinct(xs)
    ensures multiset(xs)[x] == if x in xs then 1 else 0
  {
    if |xs| > 0 {
      assert xs == [xs[0]] + xs[1..];
      DistinctCount(xs[1..], x);
    }
  }

  /** Every position appears exactly once across the groups. */
  lemma GroupWithPermutation(n: nat, sim: (nat, nat) -> real, t: real)
    ensures multiset(Flatten(GroupWith(n, sim, t))) == multiset(Range(n))
  {
    var f: seq<nat> := Flatten(GroupWith(n, sim, t));
    if n > 0 {
      GroupFromCover(n, sim, t, 0, {});
      GroupFromDistinct(n, sim, t, 0, {});
    }
    forall x: nat
      ensures multiset(f)[x] == multiset(Range(n))[x]
    {
      DistinctCount(f, x);
      DistinctCount(Range(n), x);
      if x < n {
        assert Range(n)[x] == x;
      }
    }
    assert multiset(f) == multiset(Range(n));
  }

  // ---------------------------------------------------------------------------
  // Lifting positions to commits
  // ---------------------------------------------------------------------------

  /** The commits at the given positions, in that order. */
  function At(commits: seq<Commit>, ps: seq<nat>): (r: seq<Commit>)
    requires forall k :: 0 <= k < |ps| ==> ps[k] < |commits|
    ensures |r| == |ps|
    ensures forall k :: 0 <= k < |ps| ==> r[k] == commits[ps[k]]
  {
    seq(|ps|, k requires 0 <= k < |ps| => commits[ps[k]])
  }

  lemma AtRange(commits: seq<Commit>)
    ensures At(commits, Range(|commits|)) == commits
  {
  }

  lemma AtConcat(commits: seq<Commit>, a: seq<nat>, b: seq<nat>)
    requires forall k :: 0 <= k < |a| ==> a[k] < |commits|
    requires forall k :: 0 <= k < |b| ==> b[k] < |commits|
    ensures At(commits, a + b) == At(commits, a) + At(commits, b)
  {
  }

  lemma MultisetRemove(b: seq<nat>, i: nat)
    requires i < |b|
    ensures multiset(b[..i] + b[i + 1..]) == multiset(b) - multiset{b[i]}
  {
    assert b == b[..i] + [b[i]] + b[i + 1..];
  }

  lemma AtRemove(commits: seq<Commit>, b: seq<nat>, i: nat)
    requires i < |b|
    requires forall k :: 0 <= k < |b| ==> b[k] < |commits|
    ensures multiset(At(commits, b)) == multiset(At(commits, b[..i] + b[i + 1..])) + multiset{commits[b[i]]}
  {
    var r := At(commits, b);
    assert r == r[..i] + [r[i]] + r[i + 1..];
    assert At(commits, b[..i] + b[i + 1..]) == r[..i] + r[i + 1..];
  }

  /** Removing the first position of `a` and one occurrence of it from `b`
      keeps the two rearrangements of each other. */
  lemma PermutationStep(a: seq<nat>, b: seq<nat>, i: nat)
    requires |a| > 0 && i < |b| && b[i] == a[0]
    requires multiset(a) == multiset(b)
    ensures multiset(a[1..]) == multiset(b[..i] + b[i + 1..])
  {
    assert multiset(a[1..]) == multiset(a) - multiset{a[0]} by {
      assert a == [a[0]] + a[1..];
    }
    MultisetRemove(b, i);
  }

  /** Rearranging the positions rearranges the commits the same way. */
  lemma {:induction false} AtPermutation(commits: seq<Commit>, a: seq<nat>, b: seq<nat>)
    requires forall k :: 0 <= k < |a| ==> a[k] < |commits|
    requires forall k :: 0 <= k < |b| ==> b[k] < |commits|
    requires multiset(a) == multiset(b)
    ensures multiset(At(commits, a)) == multiset(At(commits, b))
    decreases |a|
  {
    if |a| == 0 {
      assert |multiset(b)| == 0;
    } else {
      assert a[0] in multiset(b);
      var i :| 0 <= i < |b| && b[i] == a[0];
      var a', b' := a[1..], b[..i] + b[i + 1..];
      assert a[..0] + a[1..] == a';
      RemoveInRange(a, 0, |commits|, a');
      RemoveInRange(b, i, |commits|, b');
      PermutationStep(a, b, i);
      AtPermutation(commits, a', b');
      AtRemove(commits, b, i);
      AtRemove(commits, a, 0);
    }
  }

  /** Removing one position keeps every position in range. */
  lemma RemoveInRange(b: seq<nat>, i: nat, n: nat, b': seq<nat>)
    requires i < |b| && b' == b[..i] + b[i + 1..]
    requires forall k :: 0 <= k < |b| ==> b[k] < n
    ensures forall k :: 0 <= k < |b'| ==> b'[k] < n
  {
    forall k | 0 <= k < |b'|
      ensures b'[k] < n
    {
      if k < i {
        assert b'[k] == b[k];
      } else {
        assert b'[k] == b[k + 1];
      }
    }
  }

  lemma {:induction false} FlattenInRange(positions: seq<seq<nat>>, n: nat)
    requires InRange(positions, n)
    ensures forall k :: 0 <= k < |Flatten<nat>(positions)| ==> Flatten<nat>(positions)[k] < n
  {
    if |positions| > 0 {
      FlattenInRange(positions[1..], n);
      var f := Flatten<nat>(positions);
      assert f == positions[0] + Flatten<nat>(positions[1..]);
      forall k | 0 <= k < |f|
        ensures f[k] < n
      {
        if k < |positions[0]| {
          assert f[k] == positions[0][k];
        } else {
          assert f[k] == Flatten<nat>(positions[1..])[k - |positions[0]|];
        }
      }
    }
  }

  /** Concatenating lifted groups lifts the concatenated positions. */
  lemma {:induction false} FlattenAt(commits: seq<Commit>, groups: seq<seq<Commit>>, positions: seq<seq<nat>>)
    requires |groups| == |positions| && InRange(positions, |commits|)
    requires forall g :: 0 <= g < |groups| ==> groups[g] == At(commits, positions[g])
    ensures (forall k :: 0 <= k < |Flatten<nat>(positions)| ==> Flatten<nat>(positions)[k] < |commits|) &&
      Flatten(groups) == At(commits, Flatten<nat>(positions))
  {
    FlattenInRange(positions, |commits|);
    if |groups| > 0 {
      FlattenInRange(positions[1..], |commits|);
      FlattenAt(commits, groups[1..], positions[1..]);
      AtConcat(commits, positions[0], Flatten<nat>(positions[1..]));
    }
  }

  /** `group_commits` returns every commit exactly once: the concatenated
      groups are a rearrangement of the input. */
  lemma GroupCommitsPermutation(commits: seq<Commit>, t: real)
    ensures multiset(Flatten(GroupCommits(commits, t))) == multiset(commits)
  {
    var positions := GroupPositions(commits, t);
    var groups := GroupCommits(commits, t);
    FlattenAt(commits, groups, positions);
    FlattenInRange(positions, |commits|);
    GroupWithPermutation(|commits|, FileSimilarity(commits), t);
    AtPermutation(commits, Flatten(positions), Range(|commits|));
    AtRange(commits);
  }

  // ---------------------------------------------------------------------------
  // Extreme thresholds
  // ---------------------------------------------------------------------------

  /** When every pair is similar enough, the inner loop takes every unused
      position it scans, in order. */
  lemma {:induction false} GrowAll(n: nat, sim: (nat, nat) -> real, t: real, group: seq<nat>, used: set<nat>, j: nat)
    requires |group| > 0 && j <= n
    requires forall x: nat, y: nat :: Similar(sim, t, x, y)
    requires forall y :: j <= y < n ==> y !in used
    ensures var res := Grow(n, sim, t, group, used, j);
      && |res.0| == |group| + (n - j)
      && (forall k :: |group| <= k < |res.0| ==> res.0[k] == j + (k - |group|))
    decreases n - j
  {
    if j < n {
      var group' := group + [j];
      var res := Grow(n, sim, t, group', used + {j}, j + 1);
      assert Grow(n, sim, t, group, used, j) == res by {
        MaxSimilarityReaches(sim, t, group, j);
        assert Similar(sim, t, group[0], j);
      }
      GrowAll(n, sim, t, group', used + {j}, j + 1);
      forall k | |group| <= k < |res.0|
        ensures res.0[k] == j + (k - |group|)
      {
        if k == |group| {
          assert res.0[k] == group'[k];
        }
      }
    }
  }

  /** The inner loop never forgets a used position. */
  lemma {:induction false} GrowKeepsUsed(n: nat, sim: (nat, nat) -> real, t: real, group: seq<nat>, used: set<nat>, j: nat)
    requires |group| > 0 && j <= n
    ensures used <= Grow(n, sim, t, group, used, j).1
    decreases n - j
  {
    if j < n {
      GrowKeepsUsed(n, sim, t, group, used, j + 1);
      GrowKeepsUsed(n, sim, t, group + [j], used + {j}, j + 1);
    }
  }

  /** When nothing is similar enough, the inner loop adds nothing. */
  lemma {:induction false} GrowNone(n: nat, sim: (nat, nat) -> real, t: real, group: seq<nat>, used: set<nat>, j: nat)
    requires |group| > 0 && j <= n
    requires forall x: nat, y: nat :: !Similar(sim, t, x, y)
    ensures Grow(n, sim, t, group, used, j) == (group, used)
    decreases n - j
  {
    if j < n {
      MaxSimilarityReaches(sim, t, group, j);
      GrowNone(n, sim, t, group, used, j + 1);
    }
  }

  /** The outer loop starts no group once every remaining position is used. */
  lemma {:induction false} GroupFromAllUsed(n: nat, sim: (nat, nat) -> real, t: real, i: nat, used: set<nat>)
    requires forall y :: i <= y < n ==> y in used
    ensures GroupFrom(n, sim, t, i, used) == []
    decreases n - i
  {
    if i < n {
      GroupFromAllUsed(n, sim, t, i + 1, used);
    }
  }

  /** When nothing is similar enough, every unused position is its own group. */
  lemma {:induction false} GroupFromNone(n: nat, sim: (nat, nat) -> real, t: real, i: nat, used: set<nat>)
    requires forall x: nat, y: nat :: !Similar(sim, t, x, y)
    requires i <= n
    requires forall y :: i <= y < n ==> y !in used
    ensures GroupFrom(n, sim, t, i, used) == seq(n - i, k => [i + k])
    decreases n - i
  {
    if i < n {
      GrowNone(n, sim, t, [i], used + {i}, i + 1);
      GroupFromNone(n, sim, t, i + 1, used + {i});
      assert GroupFrom(n, sim, t, i, used) == [[i]] + GroupFrom(n, sim, t, i + 1, used + {i});
    }
  }

  /** If every pair of positions is similar enough, all commits form one group. */
  lemma GroupWithAllSimilar(n: nat, sim: (nat, nat) -> real, t: real)
    requires forall x: nat, y: nat :: Similar(sim, t, x, y)
    ensures GroupWith(n, sim, t) == if n == 0 then [] else [Range(n)]
  {
    if n > 0 {
      GrowAll(n, sim, t, [0], {0}, 1);
      GrowUsed(n, sim, t, [0], {0}, 1);
      var res := Grow(n, sim, t, [0], {0}, 1);
      assert [0] <= res.0;
      assert res.0 == Range(n);
      forall y | 1 <= y < n
        ensures y in res.1
      {
        assert res.0[y] == y;
      }
      GroupFromAllUsed(n, sim, t, 1, res.1);
      var none: set<nat> := {};
      assert none + {0} == {0};
      assert GroupFrom(n, sim, t, 0, {}) == [res.0] + GroupFrom(n, sim, t, 1, res.1);
    }
  }

  /** If no pair of positions is similar enough, every commit is alone. */
  lemma GroupWithNoneSimilar(n: nat, sim: (nat, nat) -> real, t: real)
    requires forall x: nat, y: nat :: !Similar(sim, t, x, y)
    ensures GroupWith(n, sim, t) == seq(n, k => [k])
  {
    if n > 0 {
      GroupFromNone(n, sim, t, 0, {});
    }
  }

  /** A threshold of 0 or below puts all commits into one group, because the
      similarity is never negative. */
  lemma GroupCommitsLowThreshold(commits: seq<Commit>, t: real)
    requires t <= 0.0
    ensures GroupCommits(commits, t) == if |commits| == 0 then [] else [commits]
  {
    var sim := FileSimilarity(commits);
    forall x: nat, y: nat
      ensures Similar(sim, t, x, y)
    {
      if x < |commits| && y < |commits| {
        var _ := Jaccard(commits[x].files, commits[y].files);
      }
    }
    GroupWithAllSimilar(|commits|, sim, t);
    AtRange(commits);
  }

  /** A threshold above 1 leaves every commit in a group of its own, because
      the similarity never exceeds 1. */
  lemma GroupCommitsHighThreshold(commits: seq<Commit>, t: real)
    requires t > 1.0
    ensures GroupCommits(commits, t) == seq(|commits|, k requires 0 <= k < |commits| => [commits[k]])
  {
    var sim := FileSimilarity(commits);
    forall x: nat, y: nat
      ensures !Similar(sim, t, x, y)
    {
      if x < |commits| && y < |commits| {
        var _ := Jaccard(commits[x].files, commits[y].files);
      }
    }
    GroupWithNoneSimilar(|commits|, sim, t);
    var groups := GroupCommits(commits, t);
    forall g | 0 <= g < |groups|
      ensures groups[g] == [commits[g]]
    {
      assert GroupPositions(commits, t)[g] == [g];
    }
  }
}
