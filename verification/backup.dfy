/** The safety net around every rewrite: `create_backup`,
    `restore_from_backup` and `cleanup_backup` (core.py:47-83), as a state
    machine over the three remembered fields that records the `git` calls it
    would make instead of making them. */
module Backup {
  import opened Wrappers
  import opened Text
  import opened Git

  /** The fields of the tool object that the three operations read and set. */
  datatype Session = Session(originalBranch: Option<string>, originalHead: Option<string>,
                             backupBranch: Option<string>)

  /** A new tool object remembers nothing. */
  const Fresh := Session(None, None, None)

  /** Python truthiness of an optional string: set and not empty. */
  predicate Truthy(o: Option<string>)
  {
    o.Some? && o.value != ""
  }

  /** What one operation leaves behind: the fields, the `git` calls made,
      and whether it ended by raising. */
  datatype Step = Step(session: Session, log: seq<Command>, raised: bool)

  /** How many characters of the head hash the backup name keeps. */
  const ShortHeadLength: nat := 8

  /** The backup branch name for a head hash: "backup-" and then the first
      eight characters of the hash, or all of it when it is shorter. */
  function BackupName(head: string): (r: string)
    ensures StartsWith(r, "backup-")
    ensures |r| == 7 + (if |head| < ShortHeadLength then |head| else ShortHeadLength)
    ensures r[7..] <= head
  {
    "backup-" + Take(head, ShortHeadLength)
  }

  /** `create_backup`. The replies to `branch --show-current`, to
      `rev-parse HEAD` and to `branch <name> HEAD` are inputs; a failing call
      raises, leaving the fields set so far. */
  function CreateBackup(s: Session, current: Reply, head: Reply, create: Reply): (r: Step)
    ensures r.raised <==> !current.Succeeded() || !head.Succeeded() || !create.Succeeded()
    ensures r.session.backupBranch != s.backupBranch ==>
      r.session.originalHead.Some? && r.session.backupBranch == Some(BackupName(r.session.originalHead.value))
    ensures current.Succeeded() ==> r.session.originalBranch == Some(Strip(current.stdout))
    ensures current.Succeeded() && head.Succeeded() ==>
      var h := Strip(head.stdout);
      && r.session.originalHead == Some(h)
      && r.session.backupBranch == Some(BackupName(h))
      && |r.log| == 3
      && r.log[2] == ["branch", BackupName(h), "HEAD"]
  {
    var askBranch: Command := ["branch", "--show-current"];
    if !current.Succeeded() then Step(s, [askBranch], true)
    else
      var s1 := s.(originalBranch := Some(Strip(current.stdout)));
      var askHead: Command := ["rev-parse", "HEAD"];
      if !head.Succeeded() then Step(s1, [askBranch, askHead], true)
      else
        var h := Strip(head.stdout);
        var name := BackupName(h);
        var s2 := s1.(originalHead := Some(h), backupBranch := Some(name));
        Step(s2, [askBranch, askHead, ["branch", name, "HEAD"]], !create.Succeeded())
  }

  /** `restore_from_backup`. The reply to `status`, whether a rebase is in
      progress (the `.git/REBASE_HEAD` check) and the reply to `reset --hard`
      are inputs. Only `reset --hard` raises on failure. */
  function RestoreFromBackup(s: Session, status: Reply, rebaseInProgress: bool, reset: Reply): (r: Step)
    ensures r.session == s
  {
    if !(Truthy(s.backupBranch) && Truthy(s.originalHead)) then Step(s, [], false)
    else
      var abort: seq<Command> :=
        if status.Succeeded() && rebaseInProgress then [["rebase", "--abort"]] else [];
      var rewind := [["status", "--porcelain=v1"]] + abort + [["reset", "--hard", s.originalHead.value]];
      if !reset.Succeeded() then Step(s, rewind, true)
      else Step(s, rewind + [["branch", "-D", s.backupBranch.value]], false)
  }

  /** `cleanup_backup`: deletes the backup branch if there is one. */
  function CleanupBackup(s: Session): (r: Step)
    ensures r.session == s && !r.raised
  {
    if Truthy(s.backupBranch) then Step(s, [["branch", "-D", s.backupBranch.value]], false)
    else Step(s, [], false)
  }

  /** Restore calls git only when both the backup name and the original head
      are known and non-empty. */
  lemma RestoreNeedsBoth(s: Session, status: Reply, rebaseInProgress: bool, reset: Reply)
    ensures RestoreFromBackup(s, status, rebaseInProgress, reset).log == [] <==>
      !(Truthy(s.backupBranch) && Truthy(s.originalHead))
  {
  }

  /** When restore runs, it checks the status, aborts a rebase in progress
      first (only if the status check worked), then hard-resets to the
      original head, and deletes the backup branch last unless the reset
      failed. */
  lemma RestoreOrder(s: Session, status: Reply, rebaseInProgress: bool, reset: Reply)
    requires Truthy(s.backupBranch) && Truthy(s.originalHead)
    ensures var r := RestoreFromBackup(s, status, rebaseInProgress, reset);
      var aborts := status.Succeeded() && rebaseInProgress;
      var k := if aborts then 2 else 1;
      && r.log[0] == ["status", "--porcelain=v1"]
      && (["rebase", "--abort"] in r.log <==> aborts)
      && (aborts ==> r.log[1] == ["rebase", "--abort"])
      && r.log[k] == ["reset", "--hard", s.originalHead.value]
      && (r.raised <==> !reset.Succeeded())
      && (["branch", "-D", s.backupBranch.value] in r.log <==> reset.Succeeded())
      && (reset.Succeeded() ==> |r.log| == k + 2 && r.log[k + 1] == ["branch", "-D", s.backupBranch.value])
  {
    var r := RestoreFromBackup(s, status, rebaseInProgress, reset);
    assert ["reset", "--hard", s.originalHead.value] != ["rebase", "--abort"];
    assert ["status", "--porcelain=v1"] != ["branch", "-D", s.backupBranch.value];
  }

  /** Cleanup deletes a branch exactly when a non-empty backup name is set. */
  lemma CleanupDeletesIff(s: Session)
    ensures CleanupBackup(s).log != [] <==> Truthy(s.backupBranch)
    ensures CleanupBackup(s).log != [] ==> CleanupBackup(s).log == [["branch", "-D", s.backupBranch.value]]
  {
  }

  /** A new session has nothing to restore or clean up. */
  lemma FreshDoesNothing(status: Reply, rebaseInProgress: bool, reset: Reply)
    ensures RestoreFromBackup(Fresh, status, rebaseInProgress, reset).log == []
    ensures CleanupBackup(Fresh).log == []
  {
  }

  /** After a backup is made, cleanup deletes exactly the branch the backup
      created. */
  lemma CreateThenCleanup(s: Session, current: Reply, head: Reply, create: Reply)
    requires current.Succeeded() && head.Succeeded()
    ensures var c := CreateBackup(s, current, head, create);
      && c.log[|c.log| - 1][0] == "branch"
      && CleanupBackup(c.session).log == [["branch", "-D", c.log[|c.log| - 1][1]]]
      && CleanupBackup(c.session).log == [["branch", "-D", BackupName(Strip(head.stdout))]]
  {
  }

  /** After a backup is made from a non-empty head, restore resets to the
      head that was read and then deletes the branch the backup created. */
  lemma CreateThenRestore(s: Session, current: Reply, head: Reply, create: Reply,
                          status: Reply, rebaseInProgress: bool, reset: Reply)
    requires current.Succeeded() && head.Succeeded() && create.Succeeded() && reset.Succeeded()
    requires Strip(head.stdout) != ""
    ensures var c := CreateBackup(s, current, head, create);
      var r := RestoreFromBackup(c.session, status, rebaseInProgress, reset);
      && !c.raised && !r.raised
      && ["reset", "--hard", Strip(head.stdout)] in r.log
      && r.log[|r.log| - 1] == ["branch", "-D", c.log[2][1]]
      && c.log[2] == ["branch", c.log[2][1], "HEAD"]
  {
    var c := CreateBackup(s, current, head, create);
    RestoreOrder(c.session, status, rebaseInProgress, reset);
  }

  /** A head that reads back empty leaves restore with nothing to do, even
      though a backup branch was created. */
  lemma EmptyHeadBlocksRestore(s: Session, current: Reply, head: Reply, create: Reply,
                               status: Reply, rebaseInProgress: bool, reset: Reply)
    requires current.Succeeded() && head.Succeeded() && Strip(head.stdout) == ""
    ensures var c := CreateBackup(s, current, head, create);
      && c.session.backupBranch == Some("backup-")
      && RestoreFromBackup(c.session, status, rebaseInProgress, reset).log == []
  {
    assert Take(Strip(head.stdout), ShortHeadLength) == "";
    assert BackupName("") == "backup-" + "" == "backup-";
    var c := CreateBackup(s, current, head, create);
    assert c.session.originalHead == Some("");
  }
}
