/** Reading the commits unique to a branch from `git cherry -v`
    (core.py:525-535). Each output line is `+ <sha> <subject>` for a commit
    whose change is not upstream and `- <sha> <subject>` for one that is. */
module Cherry {
  import opened Text

  /** The hashes of the `+` lines, in order: the second space-separated
      field of each line that starts with `+` and has one. Python's
      `line.split(" ", 2)[1]` is the same field as the unlimited split's. */
  function UniqueFromLines(lines: seq<string>): (r: seq<string>)
    ensures |r| <= |lines|
  {
    if |lines| == 0 then []
    else
      var parts := Split(lines[0], ' ');
      var own := if StartsWith(lines[0], "+") && |parts| >= 2 then [parts[1]] else [];
      own + UniqueFromLines(lines[1..])
  }

  /** The whole parse, from the text git prints. */
  function UniqueCommits(stdout: string): (r: seq<string>)
  {
    UniqueFromLines(Split(Strip(stdout), '\n'))
  }

  /** The parse keeps single fields: nothing it returns spans a space or a
      line break. */
  lemma {:induction false} UniqueFromLinesFields(lines: seq<string>)
    requires forall i :: 0 <= i < |lines| ==> '\n' !in lines[i]
    ensures forall k :: 0 <= k < |UniqueFromLines(lines)| ==>
      ' ' !in UniqueFromLines(lines)[k] && '\n' !in UniqueFromLines(lines)[k]
  {
    if |lines| > 0 {
      UniqueFromLinesFields(lines[1..]);
      SplitAvoids(lines[0], ' ', '\n');
    }
  }

  lemma UniqueCommitsFields(stdout: string)
    ensures forall k :: 0 <= k < |UniqueCommits(stdout)| ==>
      ' ' !in UniqueCommits(stdout)[k] && '\n' !in UniqueCommits(stdout)[k]
  {
    UniqueFromLinesFields(Split(Strip(stdout), '\n'));
  }

  // ---------------------------------------------------------------------------
  // Rendering, to state what the parse reads back
  // ---------------------------------------------------------------------------

  /** One line of `git cherry -v`. */
  datatype Entry = Entry(unique: bool, sha: string, subject: string)

  function Render(e: Entry): (r: string)
    ensures |r| > 0 && (r[0] == '+' <==> e.unique)
  {
    (if e.unique then "+" else "-") + " " + e.sha + " " + e.subject
  }

  function RenderAll(entries: seq<Entry>): (r: seq<string>)
    ensures |r| == |entries|
    ensures forall k :: 0 <= k < |entries| ==> r[k] == Render(entries[k])
  {
    seq(|entries|, k requires 0 <= k < |entries| => Render(entries[k]))
  }

  /** The hashes of the unique entries, in order. */
  function UniqueShas(entries: seq<Entry>): seq<string>
  {
    if |entries| == 0 then []
    else (if entries[0].unique then [entries[0].sha] else []) + UniqueShas(entries[1..])
  }

  /** A hash without spaces is the second field of its line. */
  lemma RenderFields(e: Entry)
    requires ' ' !in e.sha
    ensures var parts := Split(Render(e), ' ');
      |parts| >= 2 && parts[1] == e.sha
    ensures StartsWith(Render(e), "+") <==> e.unique
  {
    var mark := if e.unique then "+" else "-";
    assert Render(e) == mark + [' '] + (e.sha + [' '] + e.subject);
    SplitAtFirst(mark, ' ', e.sha + [' '] + e.subject);
    SplitAtFirst(e.sha, ' ', e.subject);
  }

  lemma {:induction false} UniqueFromRendered(entries: seq<Entry>)
    requires forall k :: 0 <= k < |entries| ==> ' ' !in entries[k].sha
    ensures UniqueFromLines(RenderAll(entries)) == UniqueShas(entries)
  {
    if |entries| > 0 {
      RenderFields(entries[0]);
      UniqueFromRendered(entries[1..]);
      assert RenderAll(entries)[1..] == RenderAll(entries[1..]);
    }
  }

  /** The last character of a joined list is that of its last piece. */
  lemma {:induction false} JoinEnds(xs: seq<string>, sep: string)
    requires |xs| > 0 && |xs[|xs| - 1]| > 0
    ensures |Join(xs, sep)| > 0
    ensures Join(xs, sep)[|Join(xs, sep)| - 1] == xs[|xs| - 1][|xs[|xs| - 1]| - 1]
  {
    if |xs| > 1 {
      JoinEnds(xs[1..], sep);
    }
  }

  lemma RenderedSingleLines(entries: seq<Entry>)
    requires forall k :: 0 <= k < |entries| ==> '\n' !in entries[k].sha && '\n' !in entries[k].subject
    ensures forall k :: 0 <= k < |entries| ==> '\n' !in RenderAll(entries)[k]
  {
    forall k | 0 <= k < |entries|
      ensures '\n' !in RenderAll(entries)[k]
    {
      var e := entries[k];
      var mark := if e.unique then "+" else "-";
      assert Render(e) == mark + " " + e.sha + " " + e.subject;
    }
  }

  lemma RenderedUnpadded(entries: seq<Entry>)
    requires |entries| > 0
    requires var last := entries[|entries| - 1].subject;
      |last| > 0 && !IsSpace(last[|last| - 1])
    ensures Strip(Join(RenderAll(entries), "\n")) == Join(RenderAll(entries), "\n")
  {
    var lines := RenderAll(entries);
    var text := Join(lines, "\n");
    var last := entries[|entries| - 1];
    var mark := if last.unique then "+" else "-";
    assert Render(last) == mark + " " + last.sha + " " + last.subject;
    JoinEnds(lines, "\n");
    assert text[0] == lines[0][0] by {
      if |lines| > 1 {
        assert text == lines[0] + "\n" + Join(lines[1..], "\n");
      }
    }
    StripUnpadded(text);
  }

  /** Parsing what `git cherry -v` prints for a list of entries gives back
      the hashes of the unique ones, in order. The hashes hold no spaces,
      no text holds a line break, and the output does not end in whitespace
      (which `strip` would remove). */
  lemma CherryRoundTrip(entries: seq<Entry>)
    requires forall k :: 0 <= k < |entries| ==>
      ' ' !in entries[k].sha && '\n' !in entries[k].sha && '\n' !in entries[k].subject
    requires |entries| > 0 ==>
      var last := entries[|entries| - 1].subject;
      |last| > 0 && !IsSpace(last[|last| - 1])
    ensures UniqueCommits(Join(RenderAll(entries), "\n")) == UniqueShas(entries)
  {
    var lines := RenderAll(entries);
    if |entries| == 0 {
      assert Split(Strip(""), '\n') == [""];
    } else {
      RenderedSingleLines(entries);
      RenderedUnpadded(entries);
      SplitJoin(lines, '\n');
      UniqueFromRendered(entries);
    }
  }
}
