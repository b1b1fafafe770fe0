/** The concrete examples the tool's own tests check, stated about the
    model: tests/test_core.py:6-71 and tests/test_integration.py:53-126 and
    246-259. */
module Scenarios {
  import opened Similarity
  import opened Commits
  import opened Grouping
  import opened Seqs
  import opened Describe
  import opened Todo
  import opened Git
  import opened Wrappers
  import Backup
  import Base

  /** Two commits sharing one of three paths are one-third similar. */
  lemma JaccardPartial()
    ensures Jaccard({"file1.py", "file2.py"}, {"file1.py", "file3.py"}) == 1.0 / 3.0
  {
    var a: set<string> := {"file1.py", "file2.py"};
    var b: set<string> := {"file1.py", "file3.py"};
    assert a * b == {"file1.py"};
    assert a + b == {"file1.py", "file2.py", "file3.py"};
  }

  /** The three commits of the grouping test. */
  function Sample(): seq<Commit>
  {
    [ Commit("abc123", "Fix bug 1", {"file1.py", "file2.py"}),
      Commit("def456", "Fix bug 2", {"file3.py", "file4.py"}),
      Commit("ghi789", "Fix bug 3", {"file1.py", "file5.py"}) ]
  }

  /** The similarities between the three sample commits. */
  lemma SampleSimilarities()
    ensures FileSimilarity(Sample())(0, 1) == 0.0
    ensures FileSimilarity(Sample())(0, 2) == 1.0 / 3.0
    ensures FileSimilarity(Sample())(1, 2) == 0.0
  {
    var c := Sample();
    assert c[0].files * c[1].files == {};
    assert c[1].files * c[2].files == {};
    assert c[0].files * c[2].files == {"file1.py"};
    assert c[0].files + c[2].files == {"file1.py", "file2.py", "file5.py"};
  }

  /** Three commits where only the first and the last are similar enough. */
  lemma GroupThreeJoinOuter(sim: (nat, nat) -> real, t: real)
    requires sim(0, 1) < t && sim(0, 2) >= t
    ensures GroupWith(3, sim, t) == [[0, 2], [1]]
  {
    assert MaxSimilarity(sim, [0], 1) == sim(0, 1);
    assert MaxSimilarity(sim, [0], 2) == sim(0, 2);
    assert Grow(3, sim, t, [0, 2], {0, 2}, 3) == ([0, 2], {0, 2});
    assert [0] + [2] == [0, 2] && {0} + {2} == {0, 2};
    assert Grow(3, sim, t, [0], {0}, 2) == ([0, 2], {0, 2});
    assert Grow(3, sim, t, [0], {0}, 1) == ([0, 2], {0, 2});
    assert {0, 2} + {1} == {0, 1, 2};
    assert Grow(3, sim, t, [1], {0, 2} + {1}, 2) == ([1], {0, 1, 2});
    assert GroupFrom(3, sim, t, 2, {0, 1, 2}) == [];
    assert GroupFrom(3, sim, t, 1, {0, 2}) == [[1]];
    var none: set<nat> := {};
    assert none + {0} == {0};
    assert GroupFrom(3, sim, t, 0, {}) == [[0, 2], [1]];
  }

  /** Three commits none of which is similar enough to an earlier one. */
  lemma GroupThreeApart(sim: (nat, nat) -> real, t: real)
    requires sim(0, 1) < t && sim(0, 2) < t && sim(1, 2) < t
    ensures GroupWith(3, sim, t) == [[0], [1], [2]]
  {
    assert MaxSimilarity(sim, [0], 1) == sim(0, 1);
    assert MaxSimilarity(sim, [0], 2) == sim(0, 2);
    assert MaxSimilarity(sim, [1], 2) == sim(1, 2);
    assert Grow(3, sim, t, [0], {0}, 1) == ([0], {0});
    assert Grow(3, sim, t, [1], {0, 1}, 2) == ([1], {0, 1});
    assert Grow(3, sim, t, [2], {0, 1, 2}, 3) == ([2], {0, 1, 2});
    assert GroupFrom(3, sim, t, 2, {0, 1}) == [[2]];
    assert GroupFrom(3, sim, t, 1, {0}) == [[1], [2]];
    var none: set<nat> := {};
    assert none + {0} == {0};
    assert GroupFrom(3, sim, t, 0, {}) == [[0], [1], [2]];
  }

  /** At threshold 0.1 the first and third commits share a group. */
  lemma SampleLow()
    ensures GroupPositions(Sample(), 0.1) == [[0, 2], [1]]
  {
    SampleSimilarities();
    GroupThreeJoinOuter(FileSimilarity(Sample()), 0.1);
  }

  /** At threshold 0.8 every commit stays on its own. */
  lemma SampleHigh()
    ensures GroupPositions(Sample(), 0.8) == [[0], [1], [2]]
  {
    SampleSimilarities();
    GroupThreeApart(FileSimilarity(Sample()), 0.8);
  }

  /** The grouping test's assertions on group sizes at 0.1. */
  lemma SampleLowCommits()
    ensures var groups := GroupCommits(Sample(), 0.1);
      |groups| == 2 && |groups[0]| == 2 && |groups[1]| == 1
  {
    SampleLow();
  }

  /** The grouping test's assertion at 0.8: three groups. */
  lemma SampleHighCommits()
    ensures |GroupCommits(Sample(), 0.8)| == 3
  {
    SampleHigh();
  }

  /** The two-commit group of the description test. */
  function SmallGroup(): seq<Commit>
  {
    [Commit("", "", {"file1.py", "file2.py"}), Commit("", "", {"file1.py", "file3.py"})]
  }

  /** The description of the small group names all three paths. */
  lemma DescribeSmallGroup()
    ensures Contains(DescribeGroup(SmallGroup()), "file1.py")
    ensures Contains(DescribeGroup(SmallGroup()), "file2.py")
    ensures Contains(DescribeGroup(SmallGroup()), "file3.py")
  {
    var all := AllFiles(SmallGroup());
    assert all == {"file1.py", "file2.py", "file3.py"} by {
      assert SmallGroup()[0].files <= all && SmallGroup()[1].files <= all;
    }
    DescribeNamesAll(SmallGroup(), "file1.py");
    DescribeNamesAll(SmallGroup(), "file2.py");
    DescribeNamesAll(SmallGroup(), "file3.py");
  }

  /** Rebasing no groups, or a single group, succeeds without calling git. */
  lemma RebaseNothingToDo(response: string, parent: Reply, rebase: Reply)
    ensures PerformRebase([], false, response, parent, rebase).outcome == Returned(true, [])
    ensures PerformRebase([[Commit("abc123", "Fix bug 1", {"file1.py"})]], false, response, parent, rebase).outcome
      == Returned(true, [])
  {
  }

  /** The parent lookup names the first commit of the first group. */
  lemma QueryOfFirst(groups: seq<seq<Commit>>)
    requires |groups| > 0 && |groups[0]| > 0 && groups[0][0].sha == "abc123"
    ensures ParentQuery(groups) == ["rev-parse", "abc123^"]
  {
    assert "abc123" + "^" == "abc123^";
  }

  /** Answering "n" to the prompt for two or more groups makes only the
      parent lookup and returns false. */
  lemma RebaseAnsweredNo(groups: seq<seq<Commit>>, rebase: Reply)
    requires |groups| > 1 && |groups[0]| > 0 && groups[0][0].sha == "abc123"
    ensures PerformRebase(groups, false, "n", Reply(0, "base123"), rebase).outcome
      == Returned(false, [["rev-parse", "abc123^"]])
  {
    RebaseCancelled(groups, "n", Reply(0, "base123"), rebase);
    QueryOfFirst(groups);
  }

  /** A failing `rebase -i` makes the run return false after the parent
      lookup and the rebase itself. */
  lemma RebaseFails(groups: seq<seq<Commit>>)
    requires |groups| > 1 && |groups[0]| > 0 && groups[0][0].sha == "abc123"
    ensures PerformRebase(groups, false, "y", Reply(0, "base123"), Reply(1, "")).outcome
      == Returned(false, [["rev-parse", "abc123^"], ["rebase", "-i", "base123"]])
  {
    var query: Command := ["rev-parse", "abc123^"];
    var start: Command := ["rebase", "-i", "base123"];
    assert ParentQuery(groups) == query by {
      QueryOfFirst(groups);
    }
    assert Text.Strip("base123") == "base123" by {
      Text.StripUnpadded("base123");
    }
    RebaseProceeds(groups, false, "y", Reply(0, "base123"), Reply(1, ""));
  }

  /** Restore with only the head known, or only the backup name, calls no
      git (tests/test_integration.py:246-259). */
  lemma RestoreMissingInfo(status: Reply, inProgress: bool, reset: Reply)
    ensures Backup.RestoreFromBackup(Backup.Session(None, Some("abc123"), None), status, inProgress, reset).log == []
    ensures Backup.RestoreFromBackup(Backup.Session(None, None, Some("backup-abc123")), status, inProgress, reset).log == []
  {
  }

  /** Twenty-five commits on a mainline branch: the last ten are tidied. */
  lemma ManyCommits()
    ensures Base.BaseFromCount(25) == "HEAD~9"
  {
    assert Text.NatToString(9) == "9";
  }
}
