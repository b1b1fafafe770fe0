/** The commit record the tool reads from git (`CommitInfo`, core.py:14-17). */
module Commits {

  /** One commit of the range being tidied: its full hash, the first line of
      its message, and the set of repository paths it touches. */
  datatype Commit = Commit(sha: string, subject: string, files: set<string>)

  /** The changed-path sets of a list of commits, position by position. */
  function FileSets(commits: seq<Commit>): (r: seq<set<string>>)
    ensures |r| == |commits|
    ensures forall k :: 0 <= k < |commits| ==> r[k] == commits[k].files
  {
    seq(|commits|, k requires 0 <= k < |commits| => commits[k].files)
  }
}
