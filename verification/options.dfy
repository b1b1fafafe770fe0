/** The argument lists of `smart_merge` (core.py:996-1007) and
    `smart_revert` (core.py:1103-1114). Merge options are inserted right
    after `merge`, each in front of the ones before it; revert options are
    appended. */
module Options {
  import opened Wrappers
  import opened Text
  import opened Seqs

  /** Python's `args[1:1] = extra`. */
  function InsertAfterHead(args: seq<string>, extra: seq<string>): (r: seq<string>)
    requires |args| >= 1
    ensures |r| == |args| + |extra| && r[0] == args[0]
  {
    args[..1] + extra + args[1..]
  }

  /** The conflict bias is passed on only when it is "ours" or "theirs". */
  predicate Biased(bias: string)
  {
    bias == "ours" || bias == "theirs"
  }

  function ThresholdOption(threshold: int): string
  {
    "find-renames=" + IntToString(threshold)
  }

  /** The `-X` option values of a merge, in the order the source decides
      them: bias, then rename handling. */
  function StrategyOptions(bias: string, renameDetect: bool, threshold: Option<int>): (r: seq<string>)
    ensures 1 <= |r| <= 3
  {
    (if Biased(bias) then [bias] else [])
    + if renameDetect then ["find-renames"] + (if threshold.Some? then [ThresholdOption(threshold.value)] else [])
      else ["no-renames"]
  }

  /** `-X v` for each value, in order. */
  function XPairs(values: seq<string>): (r: seq<string>)
    ensures |r| == 2 * |values|
  {
    if |values| == 0 then [] else ["-X", values[0]] + XPairs(values[1..])
  }

  function Reverse(xs: seq<string>): (r: seq<string>)
    ensures |r| == |xs|
    ensures forall k :: 0 <= k < |xs| ==> r[k] == xs[|xs| - 1 - k]
  {
    if |xs| == 0 then [] else Reverse(xs[1..]) + [xs[0]]
  }

  /** Each value in turn inserted as `-X v` right after the head, as the
      source's successive `merge_args[1:1] = ["-X", v]` do. */
  function InsertEach(args: seq<string>, values: seq<string>): (r: seq<string>)
    requires |args| >= 1
    ensures |r| == |args| + 2 * |values| && r[0] == args[0]
    decreases |values|
  {
    if |values| == 0 then args
    else InsertEach(InsertAfterHead(args, ["-X", values[0]]), values[1..])
  }

  /** The merge argument list: the options are inserted one after another in
      the order the source decides them (bias, then rename handling). */
  function MergeArgs(source: string, apply: bool, bias: string, renameDetect: bool,
                     threshold: Option<int>): (r: seq<string>)
    ensures |r| >= 5 && r[0] == "merge"
  {
    InsertEach(PlainMerge(source, apply), StrategyOptions(bias, renameDetect, threshold))
  }

  /** The merge command before any strategy option is inserted. */
  function PlainMerge(source: string, apply: bool): (r: seq<string>)
  {
    if apply then ["merge", "--no-ff", source] else ["merge", "--no-commit", "--no-ff", source]
  }

  /** The revert options (the commit hash follows them), built as the source
      builds them. */
  function RevertArgs(apply: bool, bias: string, renameDetect: bool, threshold: Option<int>): (r: seq<string>)
    ensures |r| >= 3 && r[0] == "revert"
  {
    var plain := if apply then ["revert"] else ["revert", "--no-commit"];
    var biased := if Biased(bias) then plain + ["-X", bias] else plain;
    if renameDetect then
      var detect := biased + ["-X", "find-renames"];
      if threshold.Some? then detect + ["-X", ThresholdOption(threshold.value)] else detect
    else biased + ["-X", "no-renames"]
  }

  function NoCommit(apply: bool): seq<string>
  {
    if apply then [] else ["--no-commit"]
  }

  lemma XPairsAppend(a: seq<string>, b: seq<string>)
    ensures XPairs(a + b) == XPairs(a) + XPairs(b)
  {
    if |a| > 0 {
      XPairsAppend(a[1..], b);
      assert (a + b)[1..] == a[1..] + b;
    } else {
      assert a + b == b;
    }
  }

  /** Inserting `-X v` after the head puts `v` first among the options. */
  lemma InsertPair(head: string, values: seq<string>, tail: seq<string>, v: string)
    ensures InsertAfterHead([head] + XPairs(values) + tail, ["-X", v]) == [head] + XPairs([v] + values) + tail
  {
    assert ([v] + values)[1..] == values;
  }

  /** Appending `-X v` puts `v` last among the options. */
  lemma AppendPair(front: seq<string>, values: seq<string>, v: string)
    ensures front + XPairs(values) + ["-X", v] == front + XPairs(values + [v])
  {
    XPairsAppend(values, [v]);
    assert XPairs([v]) == ["-X", v] + XPairs([]);
  }

  /** The rename part of the options, in the order the source decides it. */
  function RenameOptions(renameDetect: bool, threshold: Option<int>): seq<string>
  {
    if renameDetect then ["find-renames"] + (if threshold.Some? then [ThresholdOption(threshold.value)] else [])
    else ["no-renames"]
  }

  lemma {:induction false} InsertEachShape(head: string, values: seq<string>, before: seq<string>, tail: seq<string>)
    ensures InsertEach([head] + XPairs(before) + tail, values) == [head] + XPairs(Reverse(values) + before) + tail
  {
    if |values| > 0 {
      InsertPair(head, before, tail, values[0]);
      InsertEachShape(head, values[1..], [values[0]] + before, tail);
      assert Reverse(values) == Reverse(values[1..]) + [values[0]];
      assert Reverse(values[1..]) + ([values[0]] + before) == Reverse(values) + before;
    } else {
      assert Reverse(values) + before == before;
    }
  }

  /** A merge runs `merge`, then the strategy options last-decided first,
      then `--no-commit` unless applying, then `--no-ff` and the branch. */
  lemma MergeShape(source: string, apply: bool, bias: string, renameDetect: bool, threshold: Option<int>)
    ensures MergeArgs(source, apply, bias, renameDetect, threshold) ==
      ["merge"] + XPairs(Reverse(StrategyOptions(bias, renameDetect, threshold)))
      + NoCommit(apply) + ["--no-ff", source]
  {
    var tail := NoCommit(apply) + ["--no-ff", source];
    var opts := StrategyOptions(bias, renameDetect, threshold);
    PlainMergeShape(source, apply);
    InsertEachShape("merge", opts, [], tail);
    assert Reverse(opts) + [] == Reverse(opts);
  }

  lemma PlainMergeShape(source: string, apply: bool)
    ensures PlainMerge(source, apply) == ["merge"] + XPairs([]) + (NoCommit(apply) + ["--no-ff", source])
  {
    assert XPairs([]) == [];
  }

  lemma {:induction false} ReverseAppend(a: seq<string>, b: seq<string>)
    ensures Reverse(a + b) == Reverse(b) + Reverse(a)
  {
    if |a| > 0 {
      ReverseAppend(a[1..], b);
      assert (a + b)[1..] == a[1..] + b;
    } else {
      assert a + b == b;
    }
  }

  /** A revert runs `revert`, then `--no-commit` unless applying, then the
      strategy options in the order they were decided. */
  lemma RevertShape(apply: bool, bias: string, renameDetect: bool, threshold: Option<int>)
    ensures RevertArgs(apply, bias, renameDetect, threshold) ==
      ["revert"] + NoCommit(apply) + XPairs(StrategyOptions(bias, renameDetect, threshold))
  {
    var front := ["revert"] + NoCommit(apply);
    var plain := if apply then ["revert"] else ["revert", "--no-commit"];
    assert plain == front + XPairs([]);
    var b := if Biased(bias) then [bias] else [];
    if Biased(bias) {
      AppendPair(front, [], bias);
    }
    var n := RenameOptions(renameDetect, threshold);
    if renameDetect {
      AppendPair(front, b, "find-renames");
      if threshold.Some? {
        AppendPair(front, b + ["find-renames"], ThresholdOption(threshold.value));
        assert b + ["find-renames"] + [ThresholdOption(threshold.value)] == b + n;
      }
    } else {
      AppendPair(front, b, "no-renames");
    }
    assert StrategyOptions(bias, renameDetect, threshold) == b + n;
  }

  /** The `-X` values of an argument list, in order. */
  function XValues(args: seq<string>): (r: seq<string>)
    ensures |r| <= |args|
  {
    if |args| == 0 then []
    else if args[0] == "-X" && |args| >= 2 then [args[1]] + XValues(args[2..])
    else XValues(args[1..])
  }

  lemma {:induction false} XValuesPairs(values: seq<string>, rest: seq<string>)
    requires "-X" !in rest
    ensures XValues(XPairs(values) + rest) == values
  {
    if |values| > 0 {
      XValuesPairs(values[1..], rest);
      var args := XPairs(values) + rest;
      assert args == ["-X", values[0]] + (XPairs(values[1..]) + rest);
      assert args[0] == "-X" && args[1] == values[0] && args[2..] == XPairs(values[1..]) + rest;
      assert values == [values[0]] + values[1..];
    } else {
      assert XPairs(values) + rest == rest;
      XValuesNone(rest);
    }
  }

  lemma {:induction false} XValuesNone(rest: seq<string>)
    requires "-X" !in rest
    ensures XValues(rest) == []
  {
    if |rest| > 0 {
      XValuesNone(rest[1..]);
    }
  }

  /** The `-X` values of a merge are the strategy options, last-decided
      first, as long as the merged branch is not itself named `-X`. */
  lemma MergeXValues(source: string, apply: bool, bias: string, renameDetect: bool, threshold: Option<int>)
    requires source != "-X"
    ensures XValues(MergeArgs(source, apply, bias, renameDetect, threshold)) ==
      Reverse(StrategyOptions(bias, renameDetect, threshold))
  {
    var opts := StrategyOptions(bias, renameDetect, threshold);
    MergeShape(source, apply, bias, renameDetect, threshold);
    var tail := NoCommit(apply) + ["--no-ff", source];
    assert "-X" !in tail;
    assert MergeArgs(source, apply, bias, renameDetect, threshold) == ["merge"] + XPairs(Reverse(opts)) + tail;
    XValuesAfterCommand("merge", Reverse(opts), tail);
  }

  /** A subcommand name followed by `-X` pairs and then no `-X` flag: the
      values are those of the pairs. */
  lemma XValuesAfterCommand(command: string, values: seq<string>, rest: seq<string>)
    requires command != "-X" && "-X" !in rest
    ensures XValues([command] + XPairs(values) + rest) == values
  {
    var args := [command] + XPairs(values) + rest;
    XValuesPairs(values, rest);
    assert args[1..] == XPairs(values) + rest;
  }

  /** The `-X` values of a revert are the strategy options in the order they
      were decided. */
  lemma RevertXValues(apply: bool, bias: string, renameDetect: bool, threshold: Option<int>)
    ensures XValues(RevertArgs(apply, bias, renameDetect, threshold)) ==
      StrategyOptions(bias, renameDetect, threshold)
  {
    var opts := StrategyOptions(bias, renameDetect, threshold);
    RevertShape(apply, bias, renameDetect, threshold);
    XValuesPairs(opts, []);
    var revert := ["revert"] + NoCommit(apply) + XPairs(opts);
    assert XValues(revert) == XValues(revert[1..]);
    if apply {
      assert revert[1..] == XPairs(opts) + [];
    } else {
      assert XValues(revert[1..]) == XValues(revert[2..]);
      assert revert[2..] == XPairs(opts) + [];
    }
  }

  /** Merge and revert pass the same strategy options, in opposite orders. */
  lemma MergeRevertOptionsMirror(source: string, apply: bool, bias: string, renameDetect: bool,
                                 threshold: Option<int>)
    requires source != "-X"
    ensures XValues(MergeArgs(source, apply, bias, renameDetect, threshold)) ==
      Reverse(XValues(RevertArgs(apply, bias, renameDetect, threshold)))
  {
    MergeXValues(source, apply, bias, renameDetect, threshold);
    RevertXValues(apply, bias, renameDetect, threshold);
  }
}
