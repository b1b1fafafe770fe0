/** The one-line description of a group of commits (`describe_group`,
    core.py:234-244). */
module Describe {
  import opened Text
  import opened Sorting
  import opened Commits
  import opened Wrappers

  /** The union of the paths the commits of the group touch. */
  function AllFiles(group: seq<Commit>): (r: set<string>)
    ensures forall f :: f in r <==> exists k :: 0 <= k < |group| && f in group[k].files
  {
    if |group| == 0 then {}
    else
      var rest := AllFiles(group[1..]);
      assert forall k :: 1 <= k < |group| ==> group[k] == group[1..][k - 1];
      group[0].files + rest
  }

  /** How many paths the description names before it summarises the rest. */
  const Shown: nat := 3

  /** `describe_group`: "Files: " and the sorted paths joined by ", ", cut
      after three names with " and N more" for the remaining count. */
  function DescribeGroup(group: seq<Commit>): (r: string)
    ensures StartsWith(r, "Files: ")
  {
    var all := AllFiles(group);
    var names := Sorted(all);
    if |all| <= Shown then "Files: " + Join(names, ", ")
    else "Files: " + Join(names[..Shown], ", ") + " and " + NatToString(|all| - Shown) + " more"
  }

  /** `p` occurs in `s` starting at index `i`. */
  predicate OccursAt(s: string, p: string, i: nat)
  {
    i + |p| <= |s| && s[i..i + |p|] == p
  }

  /** Python's `p in s` for strings. */
  ghost predicate Contains(s: string, p: string)
  {
    exists i: nat :: OccursAt(s, p, i)
  }

  lemma ContainsAt(s: string, p: string, i: nat)
    requires OccursAt(s, p, i)
    ensures Contains(s, p)
  {
  }

  lemma ContainsInSuffix(a: string, b: string, p: string)
    requires Contains(b, p)
    ensures Contains(a + b, p)
  {
    var i: nat :| OccursAt(b, p, i);
    assert (a + b)[|a| + i..|a| + i + |p|] == p;
    ContainsAt(a + b, p, |a| + i);
  }

  lemma ContainsInPrefix(a: string, b: string, p: string)
    requires Contains(a, p)
    ensures Contains(a + b, p)
  {
    var i: nat :| OccursAt(a, p, i);
    assert (a + b)[i..i + |p|] == p;
    ContainsAt(a + b, p, i);
  }

  /** Every piece of a joined list can be found in the joined text. */
  lemma {:induction false} JoinContains(xs: seq<string>, sep: string, k: nat)
    requires k < |xs|
    ensures Contains(Join(xs, sep), xs[k])
  {
    if |xs| == 1 {
      ContainsAt(xs[0], xs[0], 0);
    } else if k == 0 {
      ContainsAt(xs[0], xs[0], 0);
      ContainsInPrefix(xs[0], sep + Join(xs[1..], sep), xs[0]);
      assert Join(xs, sep) == xs[0] + (sep + Join(xs[1..], sep));
    } else {
      JoinContains(xs[1..], sep, k - 1);
      ContainsInSuffix(xs[0] + sep, Join(xs[1..], sep), xs[k]);
    }
  }

  /** With at most three paths, the description lists the paths in ascending
      order: it is "Files: " and any ascending enumeration of the union
      joined by ", " (there is only one). */
  lemma DescribeSmall(group: seq<Commit>, xs: seq<string>)
    requires |AllFiles(group)| <= 3
    requires Ascending(xs) && forall x :: x in xs <==> x in AllFiles(group)
    ensures DescribeGroup(group) == "Files: " + Join(xs, ", ")
  {
    SortedUnique(AllFiles(group), xs);
  }

  /** With more than three paths, the description names the three smallest
      in ascending order and then the count of the others. */
  lemma DescribeLarge(group: seq<Commit>, xs: seq<string>)
    requires |AllFiles(group)| > 3
    requires Ascending(xs) && forall x :: x in xs <==> x in AllFiles(group)
    ensures |xs| == |AllFiles(group)|
    ensures DescribeGroup(group) ==
      "Files: " + Join(xs[..3], ", ") + " and " + NatToString(|xs| - 3) + " more"
  {
    SortedUnique(AllFiles(group), xs);
  }

  /** With at most three paths, every path the group touches is named. */
  lemma {:induction false} DescribeNamesAll(group: seq<Commit>, f: string)
    requires |AllFiles(group)| <= 3 && f in AllFiles(group)
    ensures Contains(DescribeGroup(group), f)
  {
    var names := Sorted(AllFiles(group));
    var k :| 0 <= k < |names| && names[k] == f;
    JoinContains(names, ", ", k);
    ContainsInSuffix("Files: ", Join(names, ", "), f);
  }

  /** With more than three paths, the description ends by counting the paths
      it leaves out, and that count reads back as the number of paths beyond
      the third. */
  lemma DescribeCountsRest(group: seq<Commit>)
    requires |AllFiles(group)| > 3
    ensures var r := DescribeGroup(group);
      var count := NatToString(|AllFiles(group)| - 3);
      && |r| >= |count| + 5
      && r[|r| - 5..] == " more"
      && r[|r| - 5 - |count|..|r| - 5] == count
      && ParseNat(r[|r| - 5 - |count|..|r| - 5]) == Some(|AllFiles(group)| - 3)
  {
    ParseNatToString(|AllFiles(group)| - 3);
  }

  /** With more than three paths, the description says "more". */
  lemma DescribeMentionsMore(group: seq<Commit>)
    requires |AllFiles(group)| > 3
    ensures Contains(DescribeGroup(group), "more")
  {
    var r := DescribeGroup(group);
    assert |r| >= 5 && r[|r| - 5..] == " more" by {
      DescribeCountsRest(group);
    }
    assert r[|r| - 4..] == "more";
    ContainsAt(r, "more", |r| - 4);
  }
}
