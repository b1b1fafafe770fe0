/** Choosing where the range of commits to tidy starts
    (`_determine_base_commit`, core.py:85-131). git is an input: a function
    from the arguments of a call to the reply it gives. */
module Base {
  import opened Wrappers
  import opened Text
  import opened Git

  /** On a mainline branch, at most this many recent commits are tidied. */
  const RecentLimit: nat := 10

  /** The branches whose merge base with HEAD is tried, in order. */
  const Mainlines: seq<string> := ["main", "master", "origin/main", "origin/master"]

  /** `min(10, count)`, then `"HEAD"` when that is at most one commit and
      `"HEAD~{n-1}"` otherwise. */
  function BaseFromCount(count: int): (r: string)
    ensures StartsWith(r, "HEAD")
  {
    var n := if count < RecentLimit then count else RecentLimit;
    if n <= 1 then "HEAD" else "HEAD~" + NatToString(n - 1)
  }

  /** The base is HEAD itself exactly when there is at most one commit;
      otherwise it lies `min(10, count) - 1` commits back, which reads back
      from the text after `~`. */
  lemma BaseFromCountBack(count: int)
    ensures BaseFromCount(count) == "HEAD" <==> count <= 1
    ensures count > 1 ==>
      var r := BaseFromCount(count);
      && |r| > 5 && r[..5] == "HEAD~"
      && ParseNat(r[5..]) == Some(if count < RecentLimit then count - 1 else RecentLimit - 1)
  {
    if count > 1 {
      var n := if count < RecentLimit then count else RecentLimit;
      ParseNatToString(n - 1);
      assert BaseFromCount(count)[5..] == NatToString(n - 1);
    }
  }

  /** Where the choice stands, and the git calls that led to it. */
  datatype Choice = Choice(base: string, log: seq<Command>)

  function After(calls: seq<Command>, c: Choice): (r: Choice)
    ensures r.base == c.base && r.log == calls + c.log
  {
    Choice(c.base, calls + c.log)
  }

  const CountCommits: Command := ["rev-list", "--count", "HEAD"]

  /** The base from the number of commits reachable from HEAD; `"HEAD"` when
      git fails or the count does not parse. */
  function CountBase(git: Command -> Reply): (r: Choice)
    ensures r.log == [CountCommits]
  {
    var reply := git(CountCommits);
    if !reply.Succeeded() then Choice("HEAD", [CountCommits])
    else match ParseInt(Strip(reply.stdout))
      case None => Choice("HEAD", [CountCommits])
      case Some(count) => Choice(BaseFromCount(count), [CountCommits])
  }

  function MergeBaseCall(branch: string): Command
  {
    ["merge-base", "HEAD", branch]
  }

  const HeadCall: Command := ["rev-parse", "HEAD"]

  /** The merge base of HEAD with `branch` is usable: both lookups succeed and
      the merge base is not HEAD itself. */
  predicate Accepts(git: Command -> Reply, branch: string)
  {
    && git(MergeBaseCall(branch)).Succeeded()
    && git(HeadCall).Succeeded()
    && Strip(git(MergeBaseCall(branch)).stdout) != Strip(git(HeadCall).stdout)
  }

  /** The calls one candidate costs: the merge-base lookup, and the HEAD
      lookup only when the first one worked (a failing call raises and the
      loop moves on). */
  function Lookups(git: Command -> Reply, branch: string): (r: seq<Command>)
    ensures |r| > 0 && r[0] == MergeBaseCall(branch)
    ensures |r| == 2 <==> git(MergeBaseCall(branch)).Succeeded()
  {
    if git(MergeBaseCall(branch)).Succeeded() then [MergeBaseCall(branch), HeadCall]
    else [MergeBaseCall(branch)]
  }

  /** The loop over the mainline candidates, then the count fallback. */
  function TryMainlines(git: Command -> Reply, candidates: seq<string>): (r: Choice)
  {
    if |candidates| == 0 then CountBase(git)
    else
      var calls := Lookups(git, candidates[0]);
      if Accepts(git, candidates[0]) then Choice(Strip(git(MergeBaseCall(candidates[0])).stdout), calls)
      else After(calls, TryMainlines(git, candidates[1..]))
  }

  /** `_determine_base_commit`. */
  function DetermineBase(git: Command -> Reply): (r: Choice)
    ensures |r.log| >= 2 && r.log[0] == ["branch", "--show-current"]
  {
    var ask: Command := ["branch", "--show-current"];
    var reply := git(ask);
    var current := if reply.Succeeded() then Strip(reply.stdout) else "";
    if current == "main" || current == "master" || current == "" then After([ask], CountBase(git))
    else After([ask], TryMainlines(git, Mainlines))
  }

  /** A candidate that is not accepted is passed over: the choice is the
      one the remaining candidates make. */
  lemma TryMainlinesSkip(git: Command -> Reply, candidates: seq<string>)
    requires |candidates| > 0 && !Accepts(git, candidates[0])
    ensures TryMainlines(git, candidates).base == TryMainlines(git, candidates[1..]).base
  {
  }

  /** An accepted candidate is taken: the base is its merge base. */
  lemma TryMainlinesTake(git: Command -> Reply, candidates: seq<string>)
    requires |candidates| > 0 && Accepts(git, candidates[0])
    ensures TryMainlines(git, candidates).base == Strip(git(MergeBaseCall(candidates[0])).stdout)
  {
  }

  /** Candidates that are not accepted are passed over: the choice is the one
      the candidates after them make. */
  lemma {:induction false} TryMainlinesDrop(git: Command -> Reply, candidates: seq<string>, i: nat)
    requires i <= |candidates|
    requires forall j :: 0 <= j < i ==> !Accepts(git, candidates[j])
    ensures TryMainlines(git, candidates).base == TryMainlines(git, candidates[i..]).base
    decreases i
  {
    if i > 0 {
      var rest := candidates[1..];
      forall j | 0 <= j < i - 1
        ensures !Accepts(git, rest[j])
      {
        assert rest[j] == candidates[j + 1];
      }
      TryMainlinesDrop(git, rest, i - 1);
      assert rest[i - 1..] == candidates[i..];
      assert !Accepts(git, candidates[0]);
      TryMainlinesSkip(git, candidates);
    }
  }

  /** The candidates are tried in order: the base is the merge base of the
      first accepted candidate. */
  lemma TryMainlinesPicks(git: Command -> Reply, candidates: seq<string>, i: nat)
    requires i < |candidates| && Accepts(git, candidates[i])
    requires forall j :: 0 <= j < i ==> !Accepts(git, candidates[j])
    ensures TryMainlines(git, candidates).base == Strip(git(MergeBaseCall(candidates[i])).stdout)
  {
    TryMainlinesDrop(git, candidates, i);
    TryMainlinesTake(git, candidates[i..]);
  }

  /** When no candidate is accepted, the base comes from the commit count. */
  lemma TryMainlinesFallback(git: Command -> Reply, candidates: seq<string>)
    requires forall i :: 0 <= i < |candidates| ==> !Accepts(git, candidates[i])
    ensures TryMainlines(git, candidates).base == CountBase(git).base
  {
    TryMainlinesDrop(git, candidates, |candidates|);
    assert candidates[|candidates|..] == [];
  }

  /** On `main`, on `master` or without a current branch (detached HEAD, or
      the lookup failed), no merge base is computed: the base comes from the
      commit count. */
  lemma OnMainline(git: Command -> Reply)
    requires var reply := git(["branch", "--show-current"]);
      !reply.Succeeded() || Strip(reply.stdout) in {"main", "master", ""}
    ensures DetermineBase(git) == Choice(CountBase(git).base, [["branch", "--show-current"], CountCommits])
  {
  }

  /** On any other branch, the base is the merge base with the first
      mainline that gives one different from HEAD, else the count-based
      base. */
  lemma OnFeatureBranch(git: Command -> Reply)
    requires var reply := git(["branch", "--show-current"]);
      reply.Succeeded() && Strip(reply.stdout) !in {"main", "master", ""}
    ensures forall i ::
      (0 <= i < |Mainlines| && Accepts(git, Mainlines[i]) && forall j :: 0 <= j < i ==> !Accepts(git, Mainlines[j]))
      ==> DetermineBase(git).base == Strip(git(MergeBaseCall(Mainlines[i])).stdout)
    ensures (forall i :: 0 <= i < |Mainlines| ==> !Accepts(git, Mainlines[i])) ==>
      DetermineBase(git).base == CountBase(git).base
  {
    forall i | 0 <= i < |Mainlines| && Accepts(git, Mainlines[i]) &&
      (forall j :: 0 <= j < i ==> !Accepts(git, Mainlines[j]))
      ensures DetermineBase(git).base == Strip(git(MergeBaseCall(Mainlines[i])).stdout)
    {
      TryMainlinesPicks(git, Mainlines, i);
    }
    if forall i :: 0 <= i < |Mainlines| ==> !Accepts(git, Mainlines[i]) {
      TryMainlinesFallback(git, Mainlines);
    }
  }
}
