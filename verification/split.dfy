/** The plan of `perform_split_rebase` (core.py:299-377): every commit that
    touches several paths is replaced by one commit per path, in sorted path
    order; the others are recommitted unchanged. */
module Split {
  import opened Text
  import opened Sorting
  import opened Seqs
  import opened Commits
  import opened Git

  /** Python's `any(len(commit["files"]) > 1 for commit in commits)`. */
  predicate NeedsSplitting(commits: seq<Commit>)
  {
    |commits| > 0 && (|commits[0].files| > 1 || NeedsSplitting(commits[1..]))
  }

  lemma {:induction false} NeedsSplittingIff(commits: seq<Commit>)
    ensures NeedsSplitting(commits) <==> exists k :: 0 <= k < |commits| && |commits[k].files| > 1
  {
    if |commits| > 0 {
      NeedsSplittingIff(commits[1..]);
      if exists k :: 1 <= k < |commits| && |commits[k].files| > 1 {
        var k :| 1 <= k < |commits| && |commits[k].files| > 1;
        assert commits[1..][k - 1] == commits[k];
      }
      if exists k :: 0 <= k < |commits[1..]| && |commits[1..][k].files| > 1 {
        var k :| 0 <= k < |commits[1..]| && |commits[1..][k].files| > 1;
        assert commits[1..][k] == commits[k + 1];
      }
    }
  }

  /** The message of the commit that carries only path `f` of a commit whose
      message is `msg`. */
  function SplitMessage(f: string, msg: string): (r: string)
    ensures StartsWith(r, "split off ")
  {
    "split off " + f + "\n\n" + msg
  }

  /** The first line of a split message names the path, and the original
      message follows after a blank line. */
  lemma SplitMessageParts(f: string, msg: string)
    requires '\n' !in f
    ensures var m := SplitMessage(f, msg);
      && Split(m, '\n')[0] == "split off " + f
      && m[|m| - |msg|..] == msg
      && m[..|m| - |msg|] == "split off " + f + "\n\n"
  {
    var head := "split off " + f;
    assert '\n' !in head;
    assert SplitMessage(f, msg) == head + ['\n'] + ("\n" + msg);
    SplitAtFirst(head, '\n', "\n" + msg);
  }

  /** The messages that replace one commit whose message is `msg`. */
  function CommitMessages(c: Commit, msg: string): (r: seq<string>)
    ensures |r| == if |c.files| <= 1 then 1 else |c.files|
  {
    if |c.files| <= 1 then [msg]
    else
      var files := Sorted(c.files);
      seq(|files|, k requires 0 <= k < |files| => SplitMessage(files[k], msg))
  }

  /** A commit keeps its message, as a single commit, exactly when it touches
      at most one path; otherwise there is one message per path, in sorted
      path order. */
  lemma CommitMessagesShape(c: Commit, msg: string)
    ensures |c.files| <= 1 <==> CommitMessages(c, msg) == [msg]
    ensures |c.files| > 1 ==>
      var files := Sorted(c.files);
      && Ascending(files)
      && (forall f :: f in files <==> f in c.files)
      && |CommitMessages(c, msg)| == |c.files|
      && forall k :: 0 <= k < |files| ==> CommitMessages(c, msg)[k] == SplitMessage(files[k], msg)
  {
    SortedAscending(c.files);
    if |c.files| > 1 {
      var files := Sorted(c.files);
      assert |CommitMessages(c, msg)| > 1;
    }
  }

  // ---------------------------------------------------------------------------
  // The git calls
  // ---------------------------------------------------------------------------

  /** `show --pretty=format:%B --no-patch <sha>`: reads the full message. */
  function ShowMessage(c: Commit): (r: Command)
    ensures |r| == 4 && r[0] == "show" && r[3] == c.sha
  {
    ["show", "--pretty=format:%B", "--no-patch", c.sha]
  }

  /** Re-applies commit `sha`, stages only path `f` and commits it as `msg`. */
  function PickFile(sha: string, f: string, msg: string): (r: seq<Command>)
    ensures |r| == 4
  {
    [["cherry-pick", "--no-commit", sha], ["reset", "HEAD"], ["add", f], ["commit", "-m", msg]]
  }

  /** One `PickFile` per path, each with its split message. */
  function SplitOffCommands(sha: string, files: seq<string>, msg: string): (r: seq<Command>)
    ensures |r| == 4 * |files|
  {
    if |files| == 0 then []
    else PickFile(sha, files[0], SplitMessage(files[0], msg)) + SplitOffCommands(sha, files[1..], msg)
  }

  /** The calls that recommit one commit whose message is `msg`. */
  function CommitCommands(c: Commit, msg: string): seq<Command>
  {
    var files := Sorted(c.files);
    if |files| == 0 then [["commit", "--allow-empty", "-m", msg]]
    else if |files| == 1 then PickFile(c.sha, files[0], msg)
    else SplitOffCommands(c.sha, files, msg)
  }

  /** The message git reports for a commit, as `get_commit_message` trims it. */
  function MessageOf(message: string -> string, c: Commit): string
  {
    Strip(message(c.sha))
  }

  /** The calls that rebuild every commit, oldest first: read its message,
      then recommit it. `message` is what git prints for a hash. */
  function RewriteLog(commits: seq<Commit>, message: string -> string): seq<Command>
  {
    if |commits| == 0 then []
    else
      var own := [ShowMessage(commits[0])] + CommitCommands(commits[0], MessageOf(message, commits[0]));
      own + RewriteLog(commits[1..], message)
  }

  /** `new_commits`: the messages of the commits created, in order. */
  function Created(commits: seq<Commit>, message: string -> string): seq<string>
  {
    if |commits| == 0 then []
    else CommitMessages(commits[0], MessageOf(message, commits[0])) + Created(commits[1..], message)
  }

  // ---------------------------------------------------------------------------
  // Reading the log back
  // ---------------------------------------------------------------------------

  /** The messages of the `commit` calls of a log, in order. */
  function Committed(log: seq<Command>): (r: seq<string>)
    ensures |r| <= |log|
  {
    if |log| == 0 then []
    else
      var own := if |log[0]| >= 3 && log[0][0] == "commit" then [log[0][|log[0]| - 1]] else [];
      own + Committed(log[1..])
  }

  /** The paths of the `add` calls of a log, in order. */
  function Added(log: seq<Command>): (r: seq<string>)
    ensures |r| <= |log|
  {
    if |log| == 0 then []
    else (if |log[0]| == 2 && log[0][0] == "add" then [log[0][1]] else []) + Added(log[1..])
  }

  lemma {:induction false} ReadBackAppend(a: seq<Command>, b: seq<Command>)
    ensures Committed(a + b) == Committed(a) + Committed(b)
    ensures Added(a + b) == Added(a) + Added(b)
  {
    if |a| > 0 {
      ReadBackAppend(a[1..], b);
      assert (a + b)[1..] == a[1..] + b;
    } else {
      assert a + b == b;
    }
  }

  lemma PickFileReadBack(sha: string, f: string, msg: string)
    ensures Committed(PickFile(sha, f, msg)) == [msg]
    ensures Added(PickFile(sha, f, msg)) == [f]
  {
    var p := PickFile(sha, f, msg);
    assert Committed(p[3..]) == [msg] && Added(p[3..]) == [];
    assert Committed(p[2..]) == [msg] && Added(p[2..]) == [f];
    assert Committed(p[1..]) == [msg] && Added(p[1..]) == [f];
  }

  lemma {:induction false} SplitOffReadBack(sha: string, files: seq<string>, msg: string)
    ensures Committed(SplitOffCommands(sha, files, msg)) ==
      seq(|files|, k requires 0 <= k < |files| => SplitMessage(files[k], msg))
    ensures Added(SplitOffCommands(sha, files, msg)) == files
  {
    if |files| > 0 {
      SplitOffReadBack(sha, files[1..], msg);
      PickFileReadBack(sha, files[0], SplitMessage(files[0], msg));
      ReadBackAppend(PickFile(sha, files[0], SplitMessage(files[0], msg)), SplitOffCommands(sha, files[1..], msg));
      assert files == [files[0]] + files[1..];
    }
  }

  /** Recommitting one commit creates exactly its planned messages and
      stages exactly its paths, in sorted order. */
  lemma CommitReadBack(c: Commit, msg: string)
    ensures Committed(CommitCommands(c, msg)) == CommitMessages(c, msg)
    ensures Added(CommitCommands(c, msg)) == Sorted(c.files)
  {
    var files := Sorted(c.files);
    if |files| == 0 {
      var only: seq<Command> := [["commit", "--allow-empty", "-m", msg]];
      assert only[1..] == [];
    } else if |files| == 1 {
      PickFileReadBack(c.sha, files[0], msg);
      assert files == [files[0]];
    } else {
      SplitOffReadBack(c.sha, files, msg);
    }
  }

  /** The sorted paths of each commit, in commit order. */
  function SortedFiles(commits: seq<Commit>): (r: seq<seq<string>>)
    ensures |r| == |commits|
  {
    if |commits| == 0 then [] else [Sorted(commits[0].files)] + SortedFiles(commits[1..])
  }

  /** How many commits replace a commit: one per path, at least one. */
  function Pieces(c: Commit): (r: nat)
    ensures r >= 1 && r >= |c.files|
  {
    if |c.files| <= 1 then 1 else |c.files|
  }

  function TotalPieces(commits: seq<Commit>): nat
  {
    if |commits| == 0 then 0 else Pieces(commits[0]) + TotalPieces(commits[1..])
  }

  /** One commit's share of the rebuild log: its message lookup, then its
      recommit calls. */
  lemma OwnReadBack(c: Commit, msg: string)
    ensures Committed([ShowMessage(c)] + CommitCommands(c, msg)) == CommitMessages(c, msg)
    ensures Added([ShowMessage(c)] + CommitCommands(c, msg)) == Sorted(c.files)
  {
    CommitReadBack(c, msg);
    ReadBackAppend([ShowMessage(c)], CommitCommands(c, msg));
  }

  /** The rebuild commits exactly the created messages and stages every path
      of every commit once, in sorted order per commit. */
  lemma {:induction false} RewriteReadBack(commits: seq<Commit>, message: string -> string)
    ensures Committed(RewriteLog(commits, message)) == Created(commits, message)
    ensures Added(RewriteLog(commits, message)) == Flatten(SortedFiles(commits))
  {
    if |commits| > 0 {
      var c := commits[0];
      var msg := MessageOf(message, c);
      var own := [ShowMessage(c)] + CommitCommands(c, msg);
      RewriteReadBack(commits[1..], message);
      OwnReadBack(c, msg);
      ReadBackAppend(own, RewriteLog(commits[1..], message));
      assert RewriteLog(commits, message) == own + RewriteLog(commits[1..], message);
      assert Created(commits, message) == CommitMessages(c, msg) + Created(commits[1..], message);
    }
  }

  /** One commit per path of each multi-path commit and one per other
      commit. */
  lemma {:induction false} CreatedCount(commits: seq<Commit>, message: string -> string)
    ensures |Created(commits, message)| == TotalPieces(commits)
  {
    if |commits| > 0 {
      CreatedCount(commits[1..], message);
    }
  }

  // ---------------------------------------------------------------------------
  // perform_split_rebase
  // ---------------------------------------------------------------------------

  /** A run of `perform_split_rebase`: how it ends, and the messages of the
      commits it created. */
  datatype SplitRun = SplitRun(outcome: Outcome, created: seq<string>)

  /** `perform_split_rebase`. The console prompt, the reply to `rev-parse`
      and what git prints as each commit's message are inputs; the calls
      after the parent lookup are taken to succeed. */
  function PerformSplitRebase(commits: seq<Commit>, noPrompt: bool, response: string,
                              parent: Reply, message: string -> string): (r: SplitRun)
    ensures r.created != [] ==> r.outcome.Returned? && r.outcome.value
    ensures r.outcome.Raised? ==> |commits| > 0 && r.outcome.log == [["rev-parse", commits[0].sha + "^"]]
  {
    if !NeedsSplitting(commits) then SplitRun(Returned(true, []), [])
    else
      var query: Command := ["rev-parse", commits[0].sha + "^"];
      if !parent.Succeeded() then SplitRun(Raised([query]), [])
      else if !noPrompt && !Confirms(response) then SplitRun(Returned(false, [query]), [])
      else
        var reset: Command := ["reset", "--soft", Strip(parent.stdout)];
        SplitRun(Returned(true, [query, reset] + RewriteLog(commits, message)), Created(commits, message))
  }

  /** When no commit touches more than one path, the run succeeds without
      calling git; otherwise it calls git. */
  lemma SplitNotNeeded(commits: seq<Commit>, noPrompt: bool, response: string, parent: Reply, message: string -> string)
    ensures var r := PerformSplitRebase(commits, noPrompt, response, parent, message);
      (forall k :: 0 <= k < |commits| ==> |commits[k].files| <= 1) <==> r == SplitRun(Returned(true, []), [])
  {
    NeedsSplittingIff(commits);
  }

  /** Declining the prompt ends the run after the parent lookup, before the
      branch is reset. */
  lemma SplitCancelled(commits: seq<Commit>, response: string, parent: Reply, message: string -> string)
    requires NeedsSplitting(commits) && parent.Succeeded()
    ensures var r := PerformSplitRebase(commits, false, response, parent, message);
      !Confirms(response) <==> r.outcome == Returned(false, [["rev-parse", commits[0].sha + "^"]])
  {
  }

  /** Once it goes ahead, the run resets softly to the parent of the oldest
      commit, commits exactly the messages it reports, stages each commit's
      paths in sorted order, and creates one commit per path of each
      multi-path commit and one per other commit. */
  lemma SplitRewrites(commits: seq<Commit>, noPrompt: bool, response: string, parent: Reply, message: string -> string)
    requires NeedsSplitting(commits) && parent.Succeeded() && (noPrompt || Confirms(response))
    ensures var r := PerformSplitRebase(commits, noPrompt, response, parent, message);
      && r.outcome.Returned? && r.outcome.value
      && r.outcome.log[..2] == [["rev-parse", commits[0].sha + "^"], ["reset", "--soft", Strip(parent.stdout)]]
      && Committed(r.outcome.log) == r.created
      && Added(r.outcome.log) == Flatten(SortedFiles(commits))
      && |r.created| == TotalPieces(commits)
  {
    var query: Command := ["rev-parse", commits[0].sha + "^"];
    var reset: Command := ["reset", "--soft", Strip(parent.stdout)];
    RewriteReadBack(commits, message);
    CreatedCount(commits, message);
    ReadBackAppend([query, reset], RewriteLog(commits, message));
    var head: seq<Command> := [query, reset];
    assert head[1..][1..] == [];
  }
}
