/** The interactive-rebase todo list (`create_rebase_todo`, core.py:218-232)
    and the plan of `perform_rebase` (core.py:246-297). */
module Todo {
  import opened Wrappers
  import opened Text
  import opened Seqs
  import opened Commits
  import opened Describe
  import opened Sorting
  import opened Git

  /** How many characters of the hash a todo line shows. */
  const ShortShaLength: nat := 8

  /** A comment line of the todo list. */
  predicate IsHeader(line: string)
  {
    |line| > 0 && line[0] == '#'
  }

  /** `pick <sha[:8]> <subject>`. */
  function PickLine(c: Commit): (r: string)
    ensures StartsWith(r, "pick ") && !IsHeader(r)
  {
    "pick " + Take(c.sha, ShortShaLength) + " " + c.subject
  }

  /** The comment line `# Group <number>: <description>` that opens the
      group with 0-based index `index`. */
  function GroupHeader(index: nat, group: seq<Commit>): (r: string)
    ensures IsHeader(r)
  {
    "# Group " + NatToString(index + 1) + ": " + DescribeGroup(group)
  }

  /** One pick line per commit, in order. */
  function PickLines(group: seq<Commit>): (r: seq<string>)
    ensures |r| == |group|
    ensures forall k :: 0 <= k < |group| ==> r[k] == PickLine(group[k])
  {
    seq(|group|, k requires 0 <= k < |group| => PickLine(group[k]))
  }

  /** The lines of the group with 0-based index `index`: its header unless it
      is the first group, then its pick lines. The header text is a parameter
      so that the layout facts below hold for any header wording. */
  function Section(heading: (nat, seq<Commit>) -> string, index: nat, group: seq<Commit>): seq<string>
  {
    (if index > 0 then [heading(index, group)] else []) + PickLines(group)
  }

  /** The todo lines for the groups numbered from `index` on. */
  function TodoLinesWith(heading: (nat, seq<Commit>) -> string, groups: seq<seq<Commit>>, index: nat): seq<string>
  {
    if |groups| == 0 then []
    else Section(heading, index, groups[0]) + TodoLinesWith(heading, groups[1..], index + 1)
  }

  /** The lines of `create_rebase_todo`, before they are joined. */
  function TodoLines(groups: seq<seq<Commit>>): seq<string>
  {
    TodoLinesWith(GroupHeader, groups, 0)
  }

  /** `create_rebase_todo`: the todo lines joined by newlines. */
  function CreateRebaseTodo(groups: seq<seq<Commit>>): (r: string)
    ensures |groups| == 0 ==> r == ""
  {
    Join(TodoLines(groups), "\n")
  }

  // ---------------------------------------------------------------------------
  // Reading the todo list back
  // ---------------------------------------------------------------------------

  /** The lines that are not comments, in order. */
  function Picks(lines: seq<string>): (r: seq<string>)
    ensures |r| <= |lines|
  {
    if |lines| == 0 then []
    else (if IsHeader(lines[0]) then [] else [lines[0]]) + Picks(lines[1..])
  }

  /** The comment lines, in order. */
  function Headers(lines: seq<string>): (r: seq<string>)
    ensures |r| <= |lines|
  {
    if |lines| == 0 then []
    else (if IsHeader(lines[0]) then [lines[0]] else []) + Headers(lines[1..])
  }

  lemma {:induction false} PicksAppend(a: seq<string>, b: seq<string>)
    ensures Picks(a + b) == Picks(a) + Picks(b)
  {
    if |a| > 0 {
      PicksAppend(a[1..], b);
      assert (a + b)[1..] == a[1..] + b;
    } else {
      assert a + b == b;
    }
  }

  lemma {:induction false} HeadersAppend(a: seq<string>, b: seq<string>)
    ensures Headers(a + b) == Headers(a) + Headers(b)
  {
    if |a| > 0 {
      HeadersAppend(a[1..], b);
      assert (a + b)[1..] == a[1..] + b;
    } else {
      assert a + b == b;
    }
  }

  lemma {:induction false} PicksOfPickLines(group: seq<Commit>)
    ensures Picks(PickLines(group)) == PickLines(group)
    ensures Headers(PickLines(group)) == []
  {
    if |group| > 0 {
      PicksOfPickLines(group[1..]);
      assert PickLines(group)[1..] == PickLines(group[1..]);
    }
  }

  lemma PickLinesAppend(a: seq<Commit>, b: seq<Commit>)
    ensures PickLines(a + b) == PickLines(a) + PickLines(b)
  {
  }

  /** A section contributes its pick lines, and its header if it has one. */
  lemma SectionParts(heading: (nat, seq<Commit>) -> string, index: nat, group: seq<Commit>)
    requires index > 0 ==> IsHeader(heading(index, group))
    ensures Picks(Section(heading, index, group)) == PickLines(group)
    ensures Headers(Section(heading, index, group)) == if index > 0 then [heading(index, group)] else []
  {
    var head := if index > 0 then [heading(index, group)] else [];
    PicksAppend(head, PickLines(group));
    HeadersAppend(head, PickLines(group));
    PicksOfPickLines(group);
    if index > 0 {
      assert head[1..] == [];
    }
  }

  /** The non-comment lines are one pick line per commit, in the flattened
      group order. */
  lemma {:induction false} TodoPicksWith(heading: (nat, seq<Commit>) -> string, groups: seq<seq<Commit>>, index: nat)
    requires forall i: nat, g :: IsHeader(heading(i, g))
    ensures Picks(TodoLinesWith(heading, groups, index)) == PickLines(Flatten(groups))
  {
    if |groups| > 0 {
      TodoPicksWith(heading, groups[1..], index + 1);
      PicksAppend(Section(heading, index, groups[0]), TodoLinesWith(heading, groups[1..], index + 1));
      SectionParts(heading, index, groups[0]);
      PickLinesAppend(groups[0], Flatten(groups[1..]));
    }
  }

  /** Numbering from `index > 0`, every group is opened by its own header. */
  lemma {:induction false} TodoHeadersWith(heading: (nat, seq<Commit>) -> string, groups: seq<seq<Commit>>, index: nat)
    requires index > 0
    requires forall i: nat, g :: IsHeader(heading(i, g))
    ensures |Headers(TodoLinesWith(heading, groups, index))| == |groups|
    ensures forall k :: 0 <= k < |groups| ==>
      Headers(TodoLinesWith(heading, groups, index))[k] == heading(index + k, groups[k])
  {
    if |groups| > 0 {
      var rest := Headers(TodoLinesWith(heading, groups[1..], index + 1));
      var all := Headers(TodoLinesWith(heading, groups, index));
      assert all == [heading(index, groups[0])] + rest by {
        HeadersAppend(Section(heading, index, groups[0]), TodoLinesWith(heading, groups[1..], index + 1));
        SectionParts(heading, index, groups[0]);
      }
      TodoHeadersWith(heading, groups[1..], index + 1);
      forall k | 1 <= k < |groups|
        ensures all[k] == heading(index + k, groups[k])
      {
        assert all[k] == rest[k - 1];
        assert groups[k] == groups[1..][k - 1];
      }
    }
  }

  /** `create_rebase_todo` has one `pick` line per commit, in the flattened
      group order. */
  lemma TodoPicks(groups: seq<seq<Commit>>)
    ensures Picks(TodoLines(groups)) == PickLines(Flatten(groups))
  {
    TodoPicksWith(GroupHeader, groups, 0);
  }

  /** Numbering from 0, every group but the first is opened by its header. */
  lemma TodoHeadersFromFirst(heading: (nat, seq<Commit>) -> string, groups: seq<seq<Commit>>)
    requires |groups| > 0
    requires forall i: nat, g :: IsHeader(heading(i, g))
    ensures |Headers(TodoLinesWith(heading, groups, 0))| == |groups| - 1
    ensures forall k :: 1 <= k < |groups| ==>
      Headers(TodoLinesWith(heading, groups, 0))[k - 1] == heading(k, groups[k])
  {
    var rest := TodoLinesWith(heading, groups[1..], 1);
    TodoHeadersWith(heading, groups[1..], 1);
    HeadersAppend(Section(heading, 0, groups[0]), rest);
    SectionParts(heading, 0, groups[0]);
    forall k | 1 <= k < |groups|
      ensures Headers(TodoLinesWith(heading, groups, 0))[k - 1] == heading(k, groups[k])
    {
      assert groups[1..][k - 1] == groups[k];
    }
  }

  /** `create_rebase_todo` opens every group but the first with a header
      numbering it from 2 on, so it has one header fewer than groups. */
  lemma TodoHeaders(groups: seq<seq<Commit>>)
    requires |groups| > 0
    ensures |Headers(TodoLines(groups))| == |groups| - 1
    ensures forall k :: 1 <= k < |groups| ==>
      Headers(TodoLines(groups))[k - 1] == GroupHeader(k, groups[k])
  {
    TodoHeadersFromFirst(GroupHeader, groups);
  }

  /** The lines for a run of groups are the lines for its first `k` groups
      followed by the lines for the rest, numbered on from `index + k`. */
  lemma {:induction false} TodoLinesWithSplit(heading: (nat, seq<Commit>) -> string, groups: seq<seq<Commit>>,
                                              index: nat, k: nat)
    requires k <= |groups|
    ensures TodoLinesWith(heading, groups, index) ==
      TodoLinesWith(heading, groups[..k], index) + TodoLinesWith(heading, groups[k..], index + k)
    decreases k
  {
    if k > 0 {
      var rest := groups[1..];
      TodoLinesWithSplit(heading, rest, index + 1, k - 1);
      assert rest[..k - 1] == groups[..k][1..];
      assert rest[k - 1..] == groups[k..];
      assert groups[..k][0] == groups[0];
    } else {
      assert groups[..0] == [] && groups[0..] == groups;
    }
  }

  /** Group `k` of a run numbered from 0 sits after the lines of the groups
      before it, as its header (none for the first group) followed by its
      pick lines. */
  lemma TodoLayoutWith(heading: (nat, seq<Commit>) -> string, groups: seq<seq<Commit>>, k: nat)
    requires k < |groups|
    ensures TodoLinesWith(heading, groups, 0) ==
      TodoLinesWith(heading, groups[..k], 0) + (if k > 0 then [heading(k, groups[k])] else [])
      + PickLines(groups[k]) + TodoLinesWith(heading, groups[k + 1..], k + 1)
  {
    var before := TodoLinesWith(heading, groups[..k], 0);
    var head := if k > 0 then [heading(k, groups[k])] else [];
    var picks := PickLines(groups[k]);
    var after := TodoLinesWith(heading, groups[k + 1..], k + 1);
    var tail := groups[k..];
    assert TodoLinesWith(heading, tail, k) == head + picks + after by {
      assert tail[0] == groups[k] && tail[1..] == groups[k + 1..];
    }
    TodoLinesWithSplit(heading, groups, 0, k);
    ConcatAssoc(before, head + picks, after);
    ConcatAssoc(before, head, picks);
  }

  lemma ConcatAssoc(a: seq<string>, b: seq<string>, c: seq<string>)
    ensures a + (b + c) == a + b + c
  {
  }

  /** Where each group sits in `create_rebase_todo`: the list opens with the
      first group's pick lines, with no header before them, and every later
      group `k` follows the lines of the groups before it as its own header
      `# Group k+1: …` directly followed by its pick lines. */
  lemma TodoLayout(groups: seq<seq<Commit>>, k: nat)
    requires k < |groups|
    ensures k == 0 ==> TodoLines(groups) == PickLines(groups[0]) + TodoLinesWith(GroupHeader, groups[1..], 1)
    ensures k > 0 ==>
      TodoLines(groups) == TodoLines(groups[..k]) + [GroupHeader(k, groups[k])] + PickLines(groups[k])
                           + TodoLinesWith(GroupHeader, groups[k + 1..], k + 1)
  {
    if k == 0 {
      assert TodoLines(groups) == PickLines(groups[0]) + TodoLinesWith(GroupHeader, groups[1..], 1) by {
        TodoLayoutWith(GroupHeader, groups, 0);
        assert groups[..0] == [];
      }
    } else {
      TodoLayoutWith(GroupHeader, groups, k);
    }
  }

  // ---------------------------------------------------------------------------
  // The todo text splits back into its lines
  // ---------------------------------------------------------------------------

  /** No text a group's todo lines are built from contains a line break.
      Commit subjects are single lines, and git lists one path per line. */
  predicate SingleLineGroup(group: seq<Commit>)
  {
    && (forall k :: 0 <= k < |group| ==> '\n' !in group[k].sha && '\n' !in group[k].subject)
    && (forall f :: f in AllFiles(group) ==> '\n' !in f)
  }

  predicate SingleLine(groups: seq<seq<Commit>>)
  {
    forall g :: 0 <= g < |groups| ==> SingleLineGroup(groups[g])
  }

  /** No line contains a line break. */
  predicate NoBreaks(lines: seq<string>)
  {
    forall i :: 0 <= i < |lines| ==> '\n' !in lines[i]
  }

  lemma {:induction false} JoinAvoids(xs: seq<string>, sep: string, c: char)
    requires c !in sep
    requires forall i :: 0 <= i < |xs| ==> c !in xs[i]
    ensures c !in Join(xs, sep)
  {
    if |xs| > 1 {
      JoinAvoids(xs[1..], sep, c);
    }
  }

  lemma NotInConcat(a: string, b: string, c: char)
    requires c !in a && c !in b
    ensures c !in a + b
  {
  }

  lemma DigitsSingleLine(n: nat)
    ensures '\n' !in NatToString(n)
  {
    var digits := NatToString(n);
    forall i | 0 <= i < |digits|
      ensures digits[i] != '\n'
    {
      assert IsDigit(digits[i]);
    }
  }

  lemma DescribeSingleLine(group: seq<Commit>)
    requires forall f :: f in AllFiles(group) ==> '\n' !in f
    ensures '\n' !in DescribeGroup(group)
  {
    NamesSingleLine(AllFiles(group));
    if |AllFiles(group)| <= 3 {
      ListingSingleLine(group);
    } else {
      SummarySingleLineFor(group);
    }
  }

  /** The listing of at most three clean paths has no line break. */
  lemma ListingSingleLine(group: seq<Commit>)
    requires |AllFiles(group)| <= 3
    requires forall i :: 0 <= i < |Sorted(AllFiles(group))| ==> '\n' !in Sorted(AllFiles(group))[i]
    ensures '\n' !in DescribeGroup(group)
  {
    var names := Sorted(AllFiles(group));
    assert DescribeGroup(group) == "Files: " + Join(names, ", ");
    JoinAvoids(names, ", ", '\n');
    NotInConcat("Files: ", Join(names, ", "), '\n');
  }

  /** The summary of more than three clean paths has no line break. */
  lemma SummarySingleLineFor(group: seq<Commit>)
    requires |AllFiles(group)| > 3
    requires forall i :: 0 <= i < |Sorted(AllFiles(group))| ==> '\n' !in Sorted(AllFiles(group))[i]
    ensures '\n' !in DescribeGroup(group)
  {
    var all := AllFiles(group);
    var names := Sorted(all);
    assert DescribeGroup(group) ==
      "Files: " + Join(names[..3], ", ") + " and " + NatToString(|all| - 3) + " more";
    SummarySingleLine(names[..3], |all| - 3);
  }

  /** Sorting paths without line breaks lists paths without line breaks. */
  lemma NamesSingleLine(all: set<string>)
    requires forall f :: f in all ==> '\n' !in f
    ensures forall i :: 0 <= i < |Sorted(all)| ==> '\n' !in Sorted(all)[i]
  {
    var names := Sorted(all);
    forall i | 0 <= i < |names|
      ensures '\n' !in names[i]
    {
      assert names[i] in all;
    }
  }

  /** The summarised description of paths without line breaks has none. */
  lemma SummarySingleLine(shown: seq<string>, extra: nat)
    requires forall i :: 0 <= i < |shown| ==> '\n' !in shown[i]
    ensures '\n' !in "Files: " + Join(shown, ", ") + " and " + NatToString(extra) + " more"
  {
    JoinAvoids(shown, ", ", '\n');
    DigitsSingleLine(extra);
    var count := NatToString(extra);
    NotInConcat("Files: ", Join(shown, ", "), '\n');
    NotInConcat("Files: " + Join(shown, ", "), " and ", '\n');
    NotInConcat("Files: " + Join(shown, ", ") + " and ", count, '\n');
    NotInConcat("Files: " + Join(shown, ", ") + " and " + count, " more", '\n');
  }

  lemma HeaderSingleLine(index: nat, group: seq<Commit>)
    requires SingleLineGroup(group)
    ensures '\n' !in GroupHeader(index, group)
  {
    DescribeSingleLine(group);
    DigitsSingleLine(index + 1);
    var digits := NatToString(index + 1);
    NotInConcat("# Group ", digits, '\n');
    NotInConcat("# Group " + digits, ": ", '\n');
    NotInConcat("# Group " + digits + ": ", DescribeGroup(group), '\n');
  }

  lemma PickLineSingle(c: Commit)
    requires '\n' !in c.sha && '\n' !in c.subject
    ensures '\n' !in PickLine(c)
  {
    var short := Take(c.sha, ShortShaLength);
    assert forall i :: 0 <= i < |short| ==> short[i] == c.sha[i];
    NotInConcat("pick ", short, '\n');
    NotInConcat("pick " + short, " ", '\n');
    NotInConcat("pick " + short + " ", c.subject, '\n');
  }

  lemma NoBreaksAppend(a: seq<string>, b: seq<string>)
    requires NoBreaks(a) && NoBreaks(b)
    ensures NoBreaks(a + b)
  {
    forall i | 0 <= i < |a + b|
      ensures '\n' !in (a + b)[i]
    {
      if i >= |a| {
        assert (a + b)[i] == b[i - |a|];
      }
    }
  }

  lemma SectionSingle(heading: (nat, seq<Commit>) -> string, index: nat, group: seq<Commit>)
    requires SingleLineGroup(group)
    requires index > 0 ==> '\n' !in heading(index, group)
    ensures NoBreaks(Section(heading, index, group))
  {
    forall k | 0 <= k < |group|
      ensures '\n' !in PickLines(group)[k]
    {
      PickLineSingle(group[k]);
    }
    var head := if index > 0 then [heading(index, group)] else [];
    assert NoBreaks(head);
    NoBreaksAppend(head, PickLines(group));
  }

  lemma {:induction false} TodoLinesSingle(heading: (nat, seq<Commit>) -> string, groups: seq<seq<Commit>>, index: nat)
    requires SingleLine(groups)
    requires forall i: nat, g :: SingleLineGroup(g) ==> '\n' !in heading(i, g)
    ensures NoBreaks(TodoLinesWith(heading, groups, index))
  {
    if |groups| > 0 {
      assert SingleLine(groups[1..]) by {
        assert forall g :: 0 <= g < |groups[1..]| ==> groups[1..][g] == groups[g + 1];
      }
      TodoLinesSingle(heading, groups[1..], index + 1);
      assert SingleLineGroup(groups[0]);
      SectionSingle(heading, index, groups[0]);
      NoBreaksAppend(Section(heading, index, groups[0]), TodoLinesWith(heading, groups[1..], index + 1));
    }
  }

  /** The todo text holds exactly the todo lines: splitting it at line
      breaks gives them back. */
  lemma TodoRoundTrip(groups: seq<seq<Commit>>)
    requires |groups| > 0 && |groups[0]| > 0
    requires SingleLine(groups)
    ensures Split(CreateRebaseTodo(groups), '\n') == TodoLines(groups)
  {
    forall i: nat, g | SingleLineGroup(g)
      ensures '\n' !in GroupHeader(i, g)
    {
      HeaderSingleLine(i, g);
    }
    TodoLinesSingle(GroupHeader, groups, 0);
    assert |TodoLines(groups)| >= 1;
    SplitJoin(TodoLines(groups), '\n');
  }

  // ---------------------------------------------------------------------------
  // perform_rebase
  // ---------------------------------------------------------------------------

  /** A run of `perform_rebase`: how it ends, and the todo text handed to
      `git rebase -i` when it gets that far. */
  datatype RebaseRun = RebaseRun(outcome: Outcome, todo: Option<string>)

  /** `rev-parse <first commit>^`: the parent of the oldest commit. */
  function ParentQuery(groups: seq<seq<Commit>>): (r: Command)
    requires |groups| > 0 && |groups[0]| > 0
    ensures |r| == 2 && r[0] == "rev-parse"
  {
    ["rev-parse", groups[0][0].sha + "^"]
  }

  /** `perform_rebase`. The console prompt, the reply to `rev-parse` and the
      exit of `rebase -i` are inputs. */
  function PerformRebase(groups: seq<seq<Commit>>, noPrompt: bool, response: string,
                         parent: Reply, rebase: Reply): (r: RebaseRun)
    ensures r.outcome.Returned? && r.outcome.value ==>
      |groups| <= 1 || (rebase.Succeeded() && r.todo.Some?)
    ensures r.todo.Some? <==> r.outcome.log != [] && r.outcome.log[|r.outcome.log| - 1] != [] && r.outcome.log[|r.outcome.log| - 1][0] == "rebase"
  {
    if |groups| <= 1 then RebaseRun(Returned(true, []), None)
    else if |groups[0]| == 0 then RebaseRun(Raised([]), None)
    else
      var query := ParentQuery(groups);
      if !parent.Succeeded() then RebaseRun(Raised([query]), None)
      else if !noPrompt && !Confirms(response) then RebaseRun(Returned(false, [query]), None)
      else
        var start: Command := ["rebase", "-i", Strip(parent.stdout)];
        RebaseRun(Returned(rebase.Succeeded(), [query, start]), Some(CreateRebaseTodo(groups)))
  }

  /** With at most one group nothing is reordered: the run succeeds without
      calling git. */
  lemma RebaseTrivial(groups: seq<seq<Commit>>, noPrompt: bool, response: string, parent: Reply, rebase: Reply)
    ensures |groups| <= 1 <==> PerformRebase(groups, noPrompt, response, parent, rebase) == RebaseRun(Returned(true, []), None)
  {
  }

  /** Declining the prompt ends the run after the parent lookup: no rebase
      is started and the result is false. */
  lemma RebaseCancelled(groups: seq<seq<Commit>>, response: string, parent: Reply, rebase: Reply)
    requires |groups| > 1 && |groups[0]| > 0 && parent.Succeeded()
    ensures var r := PerformRebase(groups, false, response, parent, rebase);
      !Confirms(response) <==> r == RebaseRun(Returned(false, [ParentQuery(groups)]), None)
  {
  }

  /** Once the parent is known and the prompt is agreed to or switched off,
      the rebase starts from the trimmed parent, and the run reports what the
      rebase reported. */
  lemma RebaseProceeds(groups: seq<seq<Commit>>, noPrompt: bool, response: string, parent: Reply, rebase: Reply)
    requires |groups| > 1 && |groups[0]| > 0 && parent.Succeeded() && (noPrompt || Confirms(response))
    ensures var r := PerformRebase(groups, noPrompt, response, parent, rebase);
      && r.outcome == Returned(rebase.Succeeded(), [ParentQuery(groups), ["rebase", "-i", Strip(parent.stdout)]])
      && r.todo.Some?
  {
  }

  /** When the rebase starts, it starts from the parent of the oldest commit
      (the trimmed `rev-parse` reply), only after the user agreed or the
      prompt was switched off, and it is given a todo list whose non-comment
      lines pick every commit exactly once, in the grouped order; the run
      reports what the rebase reported. */
  lemma RebaseStarts(groups: seq<seq<Commit>>, noPrompt: bool, response: string, parent: Reply, rebase: Reply)
    requires SingleLine(groups)
    requires PerformRebase(groups, noPrompt, response, parent, rebase).todo.Some?
    ensures var r := PerformRebase(groups, noPrompt, response, parent, rebase);
      && |groups| > 1 && |groups[0]| > 0
      && (noPrompt || Confirms(response))
      && r.outcome == Returned(rebase.Succeeded(), [ParentQuery(groups), ["rebase", "-i", Strip(parent.stdout)]])
      && Picks(Split(r.todo.value, '\n')) == PickLines(Flatten(groups))
  {
    TodoRoundTrip(groups);
    TodoPicks(groups);
  }
}
