# git-tidy in Dafny

git-tidy reorders and splits the commits of a branch. It groups commits that
touch similar files, writes an interactive-rebase todo list that puts each
group together, and can split every commit that touches several files into
one commit per file. Around each rewrite it keeps a backup branch, so that a
failed run can be rolled back.

This project models the decision logic of `src/git_tidy/core.py` as pure
Dafny functions and proves what the code promises:

- `calculate_similarity`: Jaccard similarity of two sets of changed paths.
  It is computed in exact rationals (`real`).
- `group_commits`: the greedy grouping. It is modelled on the positions
  `0 .. n-1`, for any similarity measure between two positions. It is then
  instantiated with the Jaccard similarity and lifted back to commits.
- `describe_group`: the one-line description of a group. Python's `sorted`
  on a set of strings is modelled with a hand-written string order.
- `create_rebase_todo` and `perform_rebase`: the todo text, and the plan of a
  rebase run.
- `perform_split_rebase`: the split plan and the git calls it makes.
- `create_backup`, `restore_from_backup` and `cleanup_backup`: a state
  machine over the three remembered fields.
- Smaller helpers:
  - the base commit choice of `_determine_base_commit`;
  - the parse of `git cherry -v` output;
  - the batching of replayed commits into chunks;
  - the argument lists of `smart_merge` and `smart_revert`.

git is never run. Each git call the code would make is appended to a command
log. Its reply (exit code and standard output) is an input:

- a `Reply` value per call, for the operations that make a fixed number of
  calls;
- a function from the call's arguments to its reply, for
  `_determine_base_commit`.

A call that would raise `GitError` ends the run with `Raised(log)`. A normal
return is `Returned(value, log)`. The answer typed at a `(y/N)` prompt is a
string parameter: it confirms when it lowers to `"y"`, which means `"y"` or
`"Y"`.

The modules:

| file | module | what it holds |
|---|---|---|
| wrappers.dfy | Wrappers | `Option` |
| text.dfy | Text | Python string helpers: code-point order, `str(n)`, `int(s)`, `join`, `split`, `strip`, `s[:n]` |
| sorting.dfy | Sorting | `sorted` of a set of strings, and its uniqueness |
| seqs.dfy | Seqs | concatenation of a list of lists |
| commits.dfy | Commits | the commit record |
| similarity.dfy | Similarity | `calculate_similarity` |
| grouping.dfy | Grouping | `group_commits` |
| describe.dfy | Describe | `describe_group` |
| git.dfy | Git | commands, replies, outcomes, the prompt answer |
| todo.dfy | Todo | `create_rebase_todo`, `perform_rebase` |
| split.dfy | Split | `perform_split_rebase` |
| backup.dfy | Backup | the backup state machine |
| base.dfy | Base | `_determine_base_commit` |
| cherry.dfy | Cherry | the `git cherry -v` parse |
| chunks.dfy | Chunks | chunked replay batches |
| options.dfy | Options | merge and revert argument lists |
| scenarios.dfy | Scenarios | the concrete examples of the tool's tests |

## Model

| member | source | states |
|---|---|---|
| Similarity.Jaccard | src/git_tidy/core.py:170-179 | The similarity lies in [0, 1]. Two empty sets are fully similar (1). An empty set is not similar at all (0) to a non-empty one. |
| Similarity.JaccardSymmetric | src/git_tidy/core.py:170-179 | The similarity does not depend on which commit comes first. |
| Similarity.JaccardOneIffEqual | src/git_tidy/core.py:170-179 | The similarity is 1 exactly when both commits touch the same paths. |
| Similarity.JaccardZeroIffDisjoint | src/git_tidy/core.py:170-179 | The similarity is 0 exactly when at least one commit touches something and the two share no path. |
| Grouping.MaxSimilarity | src/git_tidy/core.py:205-208 | The value is the similarity of the candidate to some group member, and it is at least the similarity to every member. |
| Grouping.MaxSimilarityReaches | src/git_tidy/core.py:204-210 | The best similarity reaches the threshold exactly when some member is similar enough. The comparison is inclusive. |
| Grouping.Grow | src/git_tidy/core.py:200-212 | The inner loop only appends: the group it starts from is a prefix of the group it returns. |
| Grouping.GrowIncreasing | src/git_tidy/core.py:200-212 | The inner loop keeps a group in increasing position order. |
| Grouping.GrowFresh | src/git_tidy/core.py:200-212 | The inner loop only appends positions from the scan range that were not already used. |
| Grouping.GrowFreshAt | src/git_tidy/core.py:200-212 | The same for one appended member at a time: it lies in the scan range and was not used before the scan. |
| Grouping.GrowUsed | src/git_tidy/core.py:200-212 | After the inner loop, the used set is the old used set plus the new group members. |
| Grouping.GrowJoins | src/git_tidy/core.py:204-212 | Every member the inner loop appends is similar enough to some member that precedes it. |
| Grouping.GrowRejectsAt | src/git_tidy/core.py:200-212 | A scanned position the inner loop leaves unused was not similar enough to any member at a smaller position. |
| Grouping.GroupFromCover | src/git_tidy/core.py:191-214 | The groups from position i on hold exactly the positions from i to n-1 that were unused. |
| Grouping.GroupFromDistinct | src/git_tidy/core.py:191-214 | No position is placed in two groups, or twice in one. |
| Grouping.GroupFromHeads | src/git_tidy/core.py:191-197 | Each group's head is no larger than any member of it or of a later group. |
| Grouping.GroupWithFacts | src/git_tidy/core.py:181-216 | There are no groups exactly when there are no commits. Otherwise the groups partition the positions, none is empty, and each keeps the original order. Groups are formed in order of their smallest position. A commit joins a group exactly by being similar enough to an earlier member, and a commit left for a later group was dissimilar to every earlier member below it. |
| Grouping.GroupWithPermutation | src/git_tidy/core.py:185-214 | Every position appears exactly once across the groups. |
| Grouping.GroupCommits | src/git_tidy/core.py:181-216 | Member k of group g is the input commit at the position the grouping placed there. |
| Grouping.GroupCommitsPermutation | src/git_tidy/core.py:181-216 | The concatenated groups are a rearrangement of the input commits. |
| Grouping.GroupWithAllSimilar | src/git_tidy/core.py:191-214 | When every pair is similar enough, all positions form one group, in order. |
| Grouping.GroupWithNoneSimilar | src/git_tidy/core.py:191-214 | When no pair is similar enough, every position is a group of its own, in order. |
| Grouping.GroupCommitsLowThreshold | src/git_tidy/core.py:181-216 | A threshold of 0 or less gives one group holding all commits in order, and no group for no commits. |
| Grouping.GroupCommitsHighThreshold | src/git_tidy/core.py:181-216 | A threshold above 1 leaves every commit alone, in order. |
| Describe.AllFiles | src/git_tidy/core.py:236-238 | A path is in the union exactly when some commit of the group touches it. |
| Sorting.SortedAscending | src/git_tidy/core.py:241-243 | `sorted` lists each path of the set once, in strictly increasing string order. |
| Sorting.SortedUnique | src/git_tidy/core.py:241-243 | Any strictly increasing listing of exactly the paths of the set is the sorted one. |
| Describe.DescribeSmall | src/git_tidy/core.py:240-241 | With at most three paths, the description is "Files: " followed by the ascending listing of the union, joined by ", ". |
| Describe.DescribeLarge | src/git_tidy/core.py:242-244 | With more than three paths, the description names the three smallest paths in ascending order, then " and N more", where N is the count of the other paths. |
| Describe.DescribeNamesAll | src/git_tidy/core.py:240-241 | With at most three paths, every path the group touches occurs in the description. |
| Describe.DescribeCountsRest | src/git_tidy/core.py:242-244 | With more than three paths, the description ends in " more", and the number before that reads back as the count of paths beyond the third. |
| Describe.DescribeMentionsMore | src/git_tidy/core.py:242-244 | With more than three paths, "more" occurs in the description. |
| Todo.PickLine | src/git_tidy/core.py:228-230 | A pick line starts with "pick " and is never a comment line. |
| Todo.GroupHeader | src/git_tidy/core.py:223-226 | A group header is a comment line. |
| Todo.TodoPicks | src/git_tidy/core.py:218-232 | The non-comment lines of the todo list are one pick line per commit, in flattened group order. |
| Todo.TodoHeaders | src/git_tidy/core.py:222-226 | There are exactly one fewer comment lines than groups. The k-th one, counting from 0, is the header of the group at index k+1, numbered k+2. |
| Todo.TodoLayout | src/git_tidy/core.py:218-232 | The list opens with the first group's pick lines, with no header before them. Every later group follows the lines of the groups before it, as its own `# Group` header directly followed by its pick lines. |
| Todo.TodoRoundTrip | src/git_tidy/core.py:232 | When no sha, subject or path holds a line break, splitting the todo text at line breaks gives back the todo lines. |
| Todo.PerformRebase | src/git_tidy/core.py:246-297 | A run returns true only with at most one group, or when the rebase ran and succeeded. A todo text is handed over exactly when the last command of the log is the rebase. |
| Todo.RebaseTrivial | src/git_tidy/core.py:248-250 | The run returns true with no git call exactly when there is at most one group. |
| Todo.RebaseCancelled | src/git_tidy/core.py:268-273 | After the parent lookup, declining the prompt returns false with only the lookup made, and no todo text. |
| Todo.RebaseProceeds | src/git_tidy/core.py:255-294 | Once the parent is known and the prompt is agreed to or switched off, the rebase starts from the trimmed parent. The run returns what the rebase returned. |
| Todo.RebaseStarts | src/git_tidy/core.py:253-294 | A rebase starts only with two or more groups, a non-empty first group, and consent or no prompt. It starts from the parent of the oldest commit. When no sha, subject or path holds a line break, the todo text it is given picks every commit exactly once, in the grouped order. |
| Split.NeedsSplittingIff | src/git_tidy/core.py:302 | Splitting is needed exactly when some commit touches more than one path. |
| Split.SplitNotNeeded | src/git_tidy/core.py:301-305 | When no commit touches more than one path, the run returns true without calling git, and only then. |
| Split.SplitMessageParts | src/git_tidy/core.py:368 | The first line of a split message is "split off " and the path. The original message follows a blank line, unchanged. |
| Split.CommitMessagesShape | src/git_tidy/core.py:341-370 | A commit keeps its message as a single commit exactly when it touches at most one path. Otherwise it yields one split message per path, in sorted path order. |
| Split.CommitReadBack | src/git_tidy/core.py:341-370 | The calls for one commit commit exactly its planned messages, including an empty commit for no paths. They stage exactly its paths, in sorted order. |
| Split.RewriteReadBack | src/git_tidy/core.py:340-370 | The whole rebuild commits exactly the reported new messages. It stages every path of every commit once, commit by commit, in sorted order. |
| Split.CreatedCount | src/git_tidy/core.py:340-370 | One commit is created per path of each multi-path commit, and one per other commit. |
| Split.PerformSplitRebase | src/git_tidy/core.py:299-377 | New commits are reported only by a run that returns true. A raising run has made only the parent lookup. |
| Split.SplitCancelled | src/git_tidy/core.py:328-333 | Declining the prompt returns false after the parent lookup, before any reset. |
| Split.SplitRewrites | src/git_tidy/core.py:307-370 | Once it goes ahead, the run resets softly to the trimmed parent of the oldest commit. It then commits exactly the messages it reports, stages each commit's paths in sorted order, and creates the right number of commits. |
| Backup.BackupName | src/git_tidy/core.py:51 | The name is "backup-" followed by the first eight characters of the head hash, or the whole hash when it is shorter. |
| Backup.CreateBackup | src/git_tidy/core.py:47-54 | Creating a backup raises exactly when one of its three git calls fails. Once the branch and head lookups work, it records the trimmed branch and head. It then records the backup name derived from that head, and its third call creates a branch of that name at HEAD. |
| Backup.RestoreFromBackup | src/git_tidy/core.py:56-77 | Restoring never changes the remembered fields. |
| Backup.CleanupBackup | src/git_tidy/core.py:79-83 | Cleanup never raises and never changes the remembered fields. |
| Backup.RestoreNeedsBoth | src/git_tidy/core.py:56-58 | Restore calls git exactly when both the backup name and the original head are set and non-empty. |
| Backup.RestoreOrder | src/git_tidy/core.py:61-77 | Restore first checks the status. It aborts a rebase only when the status check worked and a rebase is in progress. It then hard-resets to the original head. It deletes the backup branch last, exactly when the reset worked, and raises exactly when the reset failed. |
| Backup.CleanupDeletesIff | src/git_tidy/core.py:79-83 | Cleanup deletes a branch exactly when a non-empty backup name is set, and then it deletes that branch. |
| Backup.FreshDoesNothing | src/git_tidy/core.py:21-24 | A new tool object has nothing to restore or clean up. |
| Backup.CreateThenCleanup | src/git_tidy/core.py:47-83 | After a backup is made, cleanup deletes exactly the branch the backup created, which is the name derived from the trimmed head. |
| Backup.CreateThenRestore | src/git_tidy/core.py:47-77 | After a backup from a non-empty head, restore resets to that head and ends by deleting the branch the backup created. |
| Backup.EmptyHeadBlocksRestore | src/git_tidy/core.py:50-58 | A head that reads back empty still creates the branch "backup-", but restore then does nothing. |
| Base.BaseFromCount | src/git_tidy/core.py:101-107 | The count-based base is always HEAD or an ancestor of it written from HEAD. |
| Base.BaseFromCountBack | src/git_tidy/core.py:101-107 | The base is "HEAD" exactly when there is at most one commit. Otherwise it is "HEAD~" followed by min(10, count) - 1. |
| Base.CountBase | src/git_tidy/core.py:96-109 | Only the commit count is asked for. |
| Base.DetermineBase | src/git_tidy/core.py:85-131 | The current branch is asked for first, and at least one more call follows. |
| Base.Lookups | src/git_tidy/core.py:113-120 | A candidate costs the merge-base lookup, and the HEAD lookup exactly when the merge-base lookup worked; a failing lookup moves on to the next candidate. |
| Base.TryMainlinesDrop | src/git_tidy/core.py:112-120 | Candidates that are not accepted are passed over: the choice is the one the later candidates make. |
| Base.TryMainlinesPicks | src/git_tidy/core.py:111-120 | The candidates are tried in order: the base is the merge base of the first candidate whose lookups work and whose merge base is not HEAD. |
| Base.TryMainlinesFallback | src/git_tidy/core.py:122-131 | When no candidate is accepted, the base comes from the commit count. |
| Base.OnMainline | src/git_tidy/core.py:93-109 | On main, on master, or with no current branch, the base comes from the commit count after exactly two git calls. |
| Base.OnFeatureBranch | src/git_tidy/core.py:110-131 | On any other branch, the base is the merge base with the first accepted mainline among main, master, origin/main and origin/master. With none accepted, it comes from the count. |
| Cherry.UniqueCommitsFields | src/git_tidy/core.py:525-535 | Every hash the parse returns is a single field, with no space or line break. |
| Cherry.UniqueFromRendered | src/git_tidy/core.py:530-535 | Parsing the lines of a list of cherry entries gives the hashes of the "+" entries, in order. |
| Cherry.CherryRoundTrip | src/git_tidy/core.py:525-535 | Parsing the full text git prints for a list of entries gives back the hashes of the unique ones, in order. This holds when hashes hold no space, no text holds a line break, and the output does not end in whitespace that `strip` would remove. |
| Chunks.Chunks | src/git_tidy/core.py:642-645 | Every batch is non-empty and at most the chunk size, and every batch but the last is full. |
| Chunks.ChunksFlatten | src/git_tidy/core.py:642-645 | The batches put back together are the original commit list. |
| Chunks.ChunksCount | src/git_tidy/core.py:643 | There are just enough batches to hold every commit, and one fewer would not be enough. |
| Chunks.ChunkAt | src/git_tidy/core.py:643-644 | Batch k is Python's slice from k times the size, for the size, cut at the end of the list. |
| Chunks.ReplayBatchesCover | src/git_tidy/core.py:642-654 | With or without a chunk size, the replayed batches cover the commits in order. |
| Chunks.ChunkedReplayBatches | src/git_tidy/core.py:776-784 | Something is replayed exactly when a base, some commits and a positive chunk size are given. |
| Options.MergeShape | src/git_tidy/core.py:996-1007 | A merge is "merge", then the strategy options last-decided first, then "--no-commit" unless applying, then "--no-ff" and the branch. |
| Options.RevertShape | src/git_tidy/core.py:1103-1114 | A revert is "revert", then "--no-commit" unless applying, then the strategy options in the order they are decided. |
| Options.MergeXValues | src/git_tidy/core.py:996-1007 | The -X values of a merge are the strategy options in reverse decision order. |
| Options.RevertXValues | src/git_tidy/core.py:1103-1114 | The -X values of a revert are the strategy options in decision order. |
| Options.MergeRevertOptionsMirror | src/git_tidy/core.py:996-1007 | Merge and revert pass the same -X values, in opposite orders. |
| Scenarios.JaccardPartial | tests/test_core.py:20-24 | Sets sharing one of three paths are one-third similar. |
| Scenarios.SampleSimilarities | tests/test_core.py:52-60 | The three sample commits: the first and third are one-third similar, the others not at all. |
| Scenarios.GroupThreeJoinOuter | tests/test_core.py:66-71 | Of three commits where only the first and the last are similar enough, those two form the first group and the middle one forms the second. |
| Scenarios.GroupThreeApart | tests/test_core.py:62-64 | Three commits none of which is similar enough to an earlier one stay in three groups. |
| Scenarios.SampleLowCommits | tests/test_core.py:66-71 | At threshold 0.1 the sample gives two groups, of sizes 2 and 1. |
| Scenarios.SampleHighCommits | tests/test_core.py:62-64 | At threshold 0.8 the sample gives three groups. |
| Scenarios.DescribeSmallGroup | tests/test_core.py:35-43 | The description of the two-commit group names all three paths. |
| Scenarios.RebaseNothingToDo | tests/test_integration.py:104-126 | No groups, or a single group, returns true with no git call. |
| Scenarios.RebaseAnsweredNo | tests/test_integration.py:84-102 | Answering "n" returns false after only the parent lookup. |
| Scenarios.RebaseFails | tests/test_integration.py:53-82 | A failing rebase makes the run return false, after the parent lookup and the rebase. |
| Scenarios.RestoreMissingInfo | tests/test_integration.py:246-259 | Restore with only the head known, or only the backup name, calls no git. |
| Scenarios.ManyCommits | src/git_tidy/core.py:98-107 | With 25 commits on a mainline branch, the base is "HEAD~9". |

## Left out

- Running git, `subprocess` and `run_git` are not modelled; each call is a command in the log and its reply is an input. Standard error text, the `env` passed to `rebase -i`, and the `-c` configuration prefixes are not modelled.
- `print` output, the temporary todo file (`tempfile`, `os.unlink`) and the `.git/REBASE_HEAD` existence check are left out. They are I/O; the check is a boolean input, and the todo text is part of the result.
- Python's floating point is left out. Similarities and thresholds are exact rationals (`real`), so a tie such as 1/3 against a threshold of 1/3 is decided exactly.
- Python's `int()` is modelled only on an optional sign followed by ASCII digits. Its other accepted forms (underscores between digits, non-ASCII digits, surrounding whitespace) are left out; surrounding whitespace is already stripped at the call site.
- String order is by code point, as Python compares `str` values; there is no locale or normalisation.
- A `bool` passed as the rename threshold would pass Python's `isinstance(x, int)` check. The model takes the threshold as an optional integer only.
- Split.PerformSplitRebase: the git calls after the parent lookup (reset, cherry-pick, add, commit, and the `show` that reads each commit's message) are taken to succeed; their failures, which raise in the source, are not modelled.
- Backup.RestoreFromBackup: the `except GitError` around the status check never fires, because that call does not raise; the model lets the status reply decide only whether the abort is issued.
- `get_commits_to_rebase` and `get_commit_files` (parsing `git log` and `git show` output) are left out; commits enter the model as already-parsed records. `get_commit_message` is modelled only as the trimmed reply.
- `split_commits`, `run`, `smart_rebase`, `smart_merge`, `smart_revert`, `rebase_skip_merged` (beyond its batch shape), `preflight_check`, `select_base`, `auto_continue`, `auto_resolve_trivial`, `range_diff_report`, `validate`, `configure_repo`, `select_reverts` and the rerere cache import/export are not part of this model. They sequence git calls without logic of their own beyond the helpers above.
- `src/git_tidy/cli.py` is not part of this model. It is argument parsing and dispatch.
- Todo.RebaseProceeds: states only that a todo text is present; what it contains is stated by Todo.RebaseStarts.
- Grouping is not claimed to be monotone in the threshold; the source does not promise it, and the greedy pass does not guarantee it.
