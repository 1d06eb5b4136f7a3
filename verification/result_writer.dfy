/**
 * ConcurrentResultWriter (src/ConcurrentResultWriter.cpp): the result file, opened in append
 * mode, as the sequence of lines written to it, and the `completed_` progress counter as a
 * plain integer. The mutex only serialises whole calls, so each call is one atomic step here.
 */
module ResultWriter {
  import opened Text
  import opened Execution

  // ---------------------------------------------------------------------------
  // AddResult(ExecuteResult)
  // ---------------------------------------------------------------------------

  /** `name << " : " << status`. */
  function Record(name: string, status: string): string
  {
    name + " : " + status
  }

  /** Every name of a bucket paired with the bucket's fixed status word. */
  function Tag(names: seq<string>, status: string): (r: seq<(string, string)>)
    ensures |r| == |names|
    ensures forall i :: 0 <= i < |names| ==> r[i] == (names[i], status)
  {
    seq(|names|, i requires 0 <= i < |names| => (names[i], status))
  }

  /** The entries a result reports, in the order the four loops write them. */
  function Entries(r: ExecuteResult): seq<(string, string)>
  {
    r.completeTests + Tag(r.skippedTests, "Skipped") + Tag(r.timedOutTests, "Timed_out") +
    Tag(r.interruptedTests, "Interrupted")
  }

  /** One line per entry. */
  function Render(entries: seq<(string, string)>): (r: seq<string>)
    ensures |r| == |entries|
    ensures forall i :: 0 <= i < |entries| ==> r[i] == Record(entries[i].0, entries[i].1)
  {
    seq(|entries|, i requires 0 <= i < |entries| => Record(entries[i].0, entries[i].1))
  }

  /** The lines AddResult(ExecuteResult) appends: one per completed, skipped, timed-out and
      interrupted name, none for the remaining names, so exactly the number SubmitTestBatch
      adds to `completed_`. */
  function FormatResult(res: ExecuteResult): (r: seq<string>)
    ensures |r| == Resolved(res)
  {
    Render(Entries(res))
  }

  lemma RenderSnoc(entries: seq<(string, string)>, e: (string, string))
    ensures Render(entries + [e]) == Render(entries) + [Record(e.0, e.1)]
  {
    assert |Render(entries + [e])| == |Render(entries) + [Record(e.0, e.1)]|;
  }

  /** Splits a written line back into name and status at its first ':'. */
  function ReadRecord(line: string): Option<(string, string)>
  {
    var i := FindFrom(line, ':', 0);
    if 1 <= i && i + 2 <= |line| && line[i - 1] == ' ' && line[i + 1] == ' '
    then Some((line[..i - 1], line[i + 2..]))
    else None
  }

  /** A record line reads back as the name and status it was written from, for a name
      without ':'. */
  lemma RecordRoundTrip(name: string, status: string)
    requires ':' !in name
    ensures ReadRecord(Record(name, status)) == Some((name, status))
  {
    var line := Record(name, status);
    assert forall j :: 0 <= j < |name| ==> line[j] == name[j];
    FindFromIs(line, ':', 0, |name| + 1);
    assert line[..|name|] == name;
    assert line[|name| + 3..] == status;
  }

  /** Reading the lines of a result back gives its entries: the completed pairs with their
      "Passed"/"Failed" status, then each skipped, timed-out and interrupted name with its
      bucket's word, in that order. */
  lemma FormatResultRoundTrip(r: ExecuteResult)
    requires forall e :: e in Entries(r) ==> ':' !in e.0
    ensures |FormatResult(r)| == |Entries(r)|
    ensures forall i :: 0 <= i < |Entries(r)| ==> ReadRecord(FormatResult(r)[i]) == Some(Entries(r)[i])
  {
    var es := Entries(r);
    forall i | 0 <= i < |es|
      ensures ReadRecord(FormatResult(r)[i]) == Some(es[i])
    {
      assert es[i] in es;
      RecordRoundTrip(es[i].0, es[i].1);
    }
  }

  // ---------------------------------------------------------------------------
  // AddResult(std::string): grouping raw output by RUN line
  // ---------------------------------------------------------------------------

  const TeardownMarker: string := "Global test environment tear-down"

  /** `tests_result` and `useful_info`; `test_idx` is always the index of the last group. */
  datatype Grouping = Grouping(groups: seq<seq<string>>, useful: bool)

  predicate GroupingValid(g: Grouping)
  {
    g.useful ==> g.groups != []
  }

  /** Add `line` to the last group. */
  function AppendToLast(groups: seq<seq<string>>, line: string): (r: seq<seq<string>>)
    requires groups != []
    ensures |r| == |groups| && r[..|r| - 1] == groups[..|groups| - 1]
    ensures r[|r| - 1] == groups[|groups| - 1] + [line]
  {
    groups[..|groups| - 1] + [groups[|groups| - 1] + [line]]
  }

  /** One pass of the getline loop: a RUN line opens a group, a tear-down line stops
      collection, and while collecting the line joins the last group. */
  function GroupStep(g: Grouping, raw: string): (r: Grouping)
    requires GroupingValid(g)
    ensures GroupingValid(r)
  {
    var line := StripCR(raw);
    var g1 := if Contains(line, RunMarker) then Grouping(g.groups + [[]], true) else g;
    var g2 := if Contains(line, TeardownMarker) then g1.(useful := false) else g1;
    if g2.useful then g2.(groups := AppendToLast(g2.groups, line)) else g2
  }

  function GroupFold(g: Grouping, lines: seq<string>): (r: Grouping)
    requires GroupingValid(g)
    ensures GroupingValid(r)
    decreases lines
  {
    if lines == [] then g else GroupFold(GroupStep(g, lines[0]), lines[1..])
  }

  /** The groups `tests_result` holds after the getline loop over `result`. */
  function Groups(result: string): seq<seq<string>>
  {
    GroupFold(Grouping([], false), Lines(result)).groups
  }

  /** The number of lines of `lines` holding the RUN marker once the '\r' is stripped. */
  function CountRuns(lines: seq<string>): nat
  {
    if lines == [] then 0 else (if Contains(StripCR(lines[0]), RunMarker) then 1 else 0) + CountRuns(lines[1..])
  }

  /** Group shape: a group starts at its RUN line, holds no tear-down line, and collection
      is on only if the last group may still grow. */
  predicate Shaped(g: Grouping)
  {
    GroupingValid(g) &&
    (forall i :: 0 <= i < |g.groups| && g.groups[i] != [] ==> Contains(g.groups[i][0], RunMarker)) &&
    (forall i, j :: 0 <= i < |g.groups| && 0 <= j < |g.groups[i]| ==> !Contains(g.groups[i][j], TeardownMarker)) &&
    (g.useful ==> g.groups[|g.groups| - 1] != [])
  }

  /** A RUN line that is not a tear-down line opens a group holding just that line. */
  lemma OpenGroupShape(g: Grouping, line: string)
    requires Shaped(g) && Contains(line, RunMarker) && !Contains(line, TeardownMarker)
    ensures Shaped(Grouping(g.groups + [[line]], true))
  {
  }

  /** Any other line collected joins the last group, which keeps its first line. */
  lemma JoinGroupShape(g: Grouping, line: string)
    requires Shaped(g) && g.useful && !Contains(line, TeardownMarker)
    ensures Shaped(g.(groups := AppendToLast(g.groups, line)))
  {
    var r := AppendToLast(g.groups, line);
    var n := |g.groups| - 1;
    forall i | 0 <= i < n
      ensures r[i] == g.groups[i]
    {
      assert r[i] == r[..n][i];
    }
    assert r[n][0] == g.groups[n][0];
  }

  lemma GroupStepShape(g: Grouping, raw: string)
    requires Shaped(g)
    ensures Shaped(GroupStep(g, raw))
    ensures |GroupStep(g, raw).groups| == |g.groups| + (if Contains(StripCR(raw), RunMarker) then 1 else 0)
  {
    var line := StripCR(raw);
    var r := GroupStep(g, raw);
    if Contains(line, TeardownMarker) {
      assert r.groups == if Contains(line, RunMarker) then g.groups + [[]] else g.groups;
    } else if Contains(line, RunMarker) {
      var grown := g.groups + [[]];
      assert r.groups == AppendToLast(grown, line);
      assert grown[..|g.groups|] == g.groups && grown[|g.groups|] + [line] == [line];
      assert r == Grouping(g.groups + [[line]], true);
      OpenGroupShape(g, line);
    } else if g.useful {
      assert r == g.(groups := AppendToLast(g.groups, line));
      JoinGroupShape(g, line);
    } else {
      assert r == g;
    }
  }

  lemma {:induction false} GroupFoldShape(g: Grouping, lines: seq<string>)
    requires Shaped(g)
    ensures Shaped(GroupFold(g, lines))
    ensures |GroupFold(g, lines).groups| == |g.groups| + CountRuns(lines)
    decreases lines
  {
    if lines != [] {
      GroupStepShape(g, lines[0]);
      GroupFoldShape(GroupStep(g, lines[0]), lines[1..]);
    }
  }

  /** One group per RUN line; every non-empty group opens with its RUN line; no group holds
      a tear-down line. */
  lemma GroupsShape(result: string)
    ensures |Groups(result)| == CountRuns(Lines(result))
    ensures forall i :: 0 <= i < |Groups(result)| && Groups(result)[i] != [] ==> Contains(Groups(result)[i][0], RunMarker)
    ensures forall i, j :: 0 <= i < |Groups(result)| && 0 <= j < |Groups(result)[i]| ==> !Contains(Groups(result)[i][j], TeardownMarker)
  {
    GroupFoldShape(Grouping([], false), Lines(result));
  }

  /** The four things one line can do: a RUN line opens a group holding just that line (or
      an empty group, collection off, when it also holds the tear-down marker); a tear-down
      line stops collection; any other line joins the last group while collecting and is
      dropped otherwise. The line kept is the one with its '\r' stripped. */
  lemma GroupStepEffect(g: Grouping, raw: string)
    requires GroupingValid(g)
    ensures var line := StripCR(raw);
            Contains(line, RunMarker) && !Contains(line, TeardownMarker) ==>
              GroupStep(g, raw) == Grouping(g.groups + [[line]], true)
    ensures var line := StripCR(raw);
            Contains(line, RunMarker) && Contains(line, TeardownMarker) ==>
              GroupStep(g, raw) == Grouping(g.groups + [[]], false)
    ensures var line := StripCR(raw);
            !Contains(line, RunMarker) && Contains(line, TeardownMarker) ==>
              GroupStep(g, raw) == g.(useful := false)
    ensures var line := StripCR(raw);
            !Contains(line, RunMarker) && !Contains(line, TeardownMarker) ==>
              GroupStep(g, raw) == if g.useful then g.(groups := AppendToLast(g.groups, line)) else g
  {
    var line := StripCR(raw);
    if Contains(line, RunMarker) && !Contains(line, TeardownMarker) {
      var grown := g.groups + [[]];
      assert grown[..|g.groups|] == g.groups && grown[|g.groups|] + [line] == [line];
      assert AppendToLast(grown, line) == g.groups + [[line]];
    }
  }

  // What the groups hold, for output of the shape GoogleTest prints.

  /** A test's block of output: its RUN line and the lines after it up to the next RUN or
      tear-down line. */
  datatype Block = Block(run: string, body: seq<string>)

  /** The lines as the loop keeps them, each with its '\r' stripped. */
  function StripAll(ls: seq<string>): (r: seq<string>)
    ensures |r| == |ls| && forall k :: 0 <= k < |ls| ==> r[k] <= ls[k] && |ls[k]| - 1 <= |r[k]|
  {
    seq(|ls|, k requires 0 <= k < |ls| => StripCR(ls[k]))
  }

  /** A line with no RUN marker. */
  predicate Quiet(raw: string)
  {
    !Contains(StripCR(raw), RunMarker)
  }

  /** A line with neither a RUN nor a tear-down marker. */
  predicate Plain(raw: string)
  {
    Quiet(raw) && !Contains(StripCR(raw), TeardownMarker)
  }

  predicate WellFormedBlock(b: Block)
  {
    Contains(StripCR(b.run), RunMarker) && !Contains(StripCR(b.run), TeardownMarker) &&
    forall k :: 0 <= k < |b.body| ==> Plain(b.body[k])
  }

  /** Nothing, or a tear-down line followed by lines with no RUN marker. */
  predicate ClosingTail(tail: seq<string>)
  {
    tail == [] ||
    (Quiet(tail[0]) && Contains(StripCR(tail[0]), TeardownMarker) &&
     forall k :: 1 <= k < |tail| ==> Quiet(tail[k]))
  }

  function BlockLines(bs: seq<Block>): seq<string>
  {
    if bs == [] then [] else [bs[0].run] + bs[0].body + BlockLines(bs[1..])
  }

  /** The group a block should give: its RUN line and its body, '\r' stripped. */
  function BlockGroup(b: Block): (r: seq<string>)
    ensures r != [] && r[0] == StripCR(b.run) && r[1..] == StripAll(b.body)
  {
    [StripCR(b.run)] + StripAll(b.body)
  }

  lemma {:induction false} GroupFoldConcat(g: Grouping, a: seq<string>, b: seq<string>)
    requires GroupingValid(g)
    ensures GroupFold(g, a + b) == GroupFold(GroupFold(g, a), b)
    decreases a
  {
    if a == [] {
      assert a + b == b;
    } else {
      assert (a + b)[0] == a[0];
      assert (a + b)[1..] == a[1..] + b;
      GroupFoldConcat(GroupStep(g, a[0]), a[1..], b);
    }
  }

  /** While collection is off, lines with no RUN marker change nothing. */
  lemma {:induction false} QuietFold(g: Grouping, ls: seq<string>)
    requires !g.useful && forall k :: 0 <= k < |ls| ==> Quiet(ls[k])
    ensures GroupFold(g, ls) == g
    decreases ls
  {
    if ls != [] {
      assert Quiet(ls[0]);
      assert GroupStep(g, ls[0]) == g;
      QuietFold(g, ls[1..]);
    }
  }

  /** While collecting, plain lines join the last group in order. */
  lemma {:induction false} BodyFold(gs: seq<seq<string>>, last: seq<string>, body: seq<string>)
    requires forall k :: 0 <= k < |body| ==> Plain(body[k])
    ensures GroupFold(Grouping(gs + [last], true), body) == Grouping(gs + [last + StripAll(body)], true)
    decreases body
  {
    if body == [] {
      assert last + StripAll(body) == last;
    } else {
      var line := StripCR(body[0]);
      JoinStep(gs, last, body[0]);
      assert forall k :: 0 <= k < |body| - 1 ==> body[1..][k] == body[k + 1];
      BodyFold(gs, last + [line], body[1..]);
      JoinRest(last, body);
    }
  }

  /** The first line stripped, then the rest stripped, is the whole body stripped. */
  lemma JoinRest(last: seq<string>, body: seq<string>)
    requires body != []
    ensures last + [StripCR(body[0])] + StripAll(body[1..]) == last + StripAll(body)
  {
    StripAllCons(body);
  }

  lemma JoinStep(gs: seq<seq<string>>, last: seq<string>, raw: string)
    requires Plain(raw)
    ensures GroupStep(Grouping(gs + [last], true), raw) == Grouping(gs + [last + [StripCR(raw)]], true)
  {
    assert (gs + [last])[..|gs|] == gs;
  }

  lemma StripAllCons(ls: seq<string>)
    requires ls != []
    ensures StripAll(ls) == [StripCR(ls[0])] + StripAll(ls[1..])
  {
    var a := StripAll(ls);
    var b := [StripCR(ls[0])] + StripAll(ls[1..]);
    forall k | 0 <= k < |a|
      ensures a[k] == b[k]
    {
      if k > 0 {
        assert b[k] == StripAll(ls[1..])[k - 1];
      }
    }
  }

  /** A block adds its group and leaves collection on. */
  lemma BlockFold(g: Grouping, b: Block)
    requires GroupingValid(g) && WellFormedBlock(b)
    ensures GroupFold(g, [b.run] + b.body) == Grouping(g.groups + [BlockGroup(b)], true)
  {
    var ls := [b.run] + b.body;
    assert ls[0] == b.run && ls[1..] == b.body;
    GroupStepEffect(g, b.run);
    BodyFold(g.groups, [StripCR(b.run)], b.body);
  }

  lemma {:induction false} BlocksFold(g: Grouping, bs: seq<Block>)
    requires GroupingValid(g) && forall k :: 0 <= k < |bs| ==> WellFormedBlock(bs[k])
    ensures GroupFold(g, BlockLines(bs)).groups == g.groups + BlockGroups(bs)
    decreases bs
  {
    if bs == [] {
      assert g.groups + BlockGroups(bs) == g.groups;
    } else {
      var first := [bs[0].run] + bs[0].body;
      var rest := BlockLines(bs[1..]);
      assert BlockLines(bs) == first + rest;
      GroupFoldConcat(g, first, rest);
      BlockFold(g, bs[0]);
      var g' := Grouping(g.groups + [BlockGroup(bs[0])], true);
      assert forall k :: 0 <= k < |bs| - 1 ==> bs[1..][k] == bs[k + 1];
      BlocksFold(g', bs[1..]);
      var x, more := BlockGroup(bs[0]), BlockGroups(bs[1..]);
      assert BlockGroups(bs) == [x] + more;
      SnocAppend(g.groups, x, more);
    }
  }

  /** The groups a sequence of blocks should give, one per block. */
  function BlockGroups(bs: seq<Block>): (r: seq<seq<string>>)
    ensures |r| == |bs|
  {
    if bs == [] then [] else [BlockGroup(bs[0])] + BlockGroups(bs[1..])
  }

  lemma {:induction false} BlockGroupsAt(bs: seq<Block>, i: nat)
    requires i < |bs|
    ensures BlockGroups(bs)[i] == BlockGroup(bs[i])
    decreases i
  {
    if i > 0 {
      BlockGroupsAt(bs[1..], i - 1);
    }
  }

  lemma SnocAppend(a: seq<seq<string>>, x: seq<string>, b: seq<seq<string>>)
    ensures a + [x] + b == a + ([x] + b)
  {
  }

  /** A closing tail adds no group and changes no group. */
  lemma TailFold(g: Grouping, tail: seq<string>)
    requires GroupingValid(g) && ClosingTail(tail)
    ensures GroupFold(g, tail).groups == g.groups
  {
    if tail != [] {
      GroupStepEffect(g, tail[0]);
      QuietFold(g.(useful := false), tail[1..]);
    }
  }

  /** What the groups hold: for output made of lines before the first RUN line, then test
      blocks, then optionally the tear-down line and more lines with no RUN marker, there is
      one group per block, holding its RUN line and every line up to the next RUN line, and
      nothing else; the lines before the first RUN line and from the tear-down line on belong
      to no group. */
  lemma GroupsOfOutput(pre: seq<string>, bs: seq<Block>, tail: seq<string>)
    requires forall k :: 0 <= k < |pre| ==> Quiet(pre[k])
    requires forall k :: 0 <= k < |bs| ==> WellFormedBlock(bs[k])
    requires ClosingTail(tail)
    requires forall k :: 0 <= k < |pre + BlockLines(bs) + tail| ==> '\n' !in (pre + BlockLines(bs) + tail)[k]
    ensures Groups(Unlines(pre + BlockLines(bs) + tail)) == BlockGroups(bs)
  {
    var g0 := Grouping([], false);
    LinesUnlines(pre + BlockLines(bs) + tail);
    GroupFoldConcat(g0, pre + BlockLines(bs), tail);
    GroupFoldConcat(g0, pre, BlockLines(bs));
    QuietFold(g0, pre);
    BlocksFold(g0, bs);
    TailFold(GroupFold(g0, pre + BlockLines(bs)), tail);
    assert [] + BlockGroups(bs) == BlockGroups(bs);
  }

  /** End to end: the corrected records of such output name each block's test after its RUN
      line and report "Passed" exactly when a line of its body holds the OK marker, and
      "Failed" exactly when none does and one holds FAILED. */
  lemma RawReportOfOutput(pre: seq<string>, bs: seq<Block>, tail: seq<string>, i: nat)
    requires forall k :: 0 <= k < |pre| ==> Quiet(pre[k])
    requires forall k :: 0 <= k < |bs| ==> WellFormedBlock(bs[k])
    requires ClosingTail(tail)
    requires forall k :: 0 <= k < |pre + BlockLines(bs) + tail| ==> '\n' !in (pre + BlockLines(bs) + tail)[k]
    requires i < |bs|
    ensures var report := RawReport(Groups(Unlines(pre + BlockLines(bs) + tail)));
            |report| == |bs| &&
            (AnyHolds(StripAll(bs[i].body), OkMarker) ==>
               report[i] == RawRecord(RunName(StripCR(bs[i].run)), "Passed")) &&
            (!AnyHolds(StripAll(bs[i].body), OkMarker) && AnyHolds(StripAll(bs[i].body), FailedMarker) ==>
               report[i] == RawRecord(RunName(StripCR(bs[i].run)), "Failed")) &&
            (!AnyHolds(StripAll(bs[i].body), OkMarker) && !AnyHolds(StripAll(bs[i].body), FailedMarker) ==>
               report[i] == RawRecord(RunName(StripCR(bs[i].run)), "中断"))
  {
    GroupsOfOutput(pre, bs, tail);
    var groups := BlockGroups(bs);
    BlockGroupsAt(bs, i);
    RawReportStatus(groups, i);
    var s := StatusOf(groups[i], |groups[i]|);
    assert s == "Passed" || s == "Failed" || s == "中断";
  }

  // ---------------------------------------------------------------------------
  // AddResult(std::string): one record per group
  // ---------------------------------------------------------------------------

  /** Some line of `lines` holds `m`. */
  predicate AnyHolds(lines: seq<string>, m: string)
  {
    exists j :: 0 <= j < |lines| && Contains(lines[j], m)
  }

  /** The status the inner loop derives from the first `n` lines of a group: OK anywhere after
      the first line gives "Passed", else FAILED gives "Failed", else the word for
      "interrupted". */
  function StatusOf(g: seq<string>, n: nat): (r: string)
    requires n <= |g|
    ensures r == "Passed" <==> exists k :: 1 <= k < n && Contains(g[k], OkMarker)
    ensures r == "Failed" <==>
              (forall k :: 1 <= k < n ==> !Contains(g[k], OkMarker)) &&
              exists k :: 1 <= k < n && Contains(g[k], FailedMarker)
    ensures r == "Passed" || r == "Failed" || r == "中断"
  {
    var body := if n == 0 then [] else g[1..n];
    AnyHoldsAt(g, n, OkMarker);
    AnyHoldsAt(g, n, FailedMarker);
    if AnyHolds(body, OkMarker) then "Passed"
    else if AnyHolds(body, FailedMarker) then "Failed"
    else "中断"
  }

  /** AnyHolds over the lines at index 1 to n-1, read index by index. */
  lemma AnyHoldsAt(g: seq<string>, n: nat, m: string)
    requires n <= |g|
    ensures AnyHolds(if n == 0 then [] else g[1..n], m) <==> exists k :: 1 <= k < n && Contains(g[k], m)
  {
    if n > 0 {
      var body := g[1..n];
      assert forall k :: 1 <= k < n ==> g[k] == body[k - 1];
      if AnyHolds(body, m) {
        var j :| 0 <= j < |body| && Contains(body[j], m);
        assert Contains(g[j + 1], m);
      }
    }
  }

  /** The name the inner loop takes from the first line, or the empty default when it reads
      no line at all. */
  function NameOf(g: seq<string>, n: nat): (r: string)
    requires n <= |g|
    ensures n == 0 ==> r == []
    ensures n > 0 && |g[0]| >= 13 ==> g[0] == g[0][..13] + r
    ensures n > 0 && |g[0]| < 13 ==> r == []
  {
    if n == 0 then [] else RunName(g[0])
  }

  /** `res.name << " " << res.status`. */
  function RawRecord(name: string, status: string): string
  {
    name + " " + status
  }

  /** Groups no shorter than the first: the inner loop stays inside every group. */
  predicate InBounds(groups: seq<seq<string>>)
  {
    forall i :: 0 <= i < |groups| ==> |groups[0]| <= |groups[i]|
  }

  /** The records written as the code stands: every group is read up to the first group's
      length (src/ConcurrentResultWriter.cpp:51). */
  function RawReportAsWritten(groups: seq<seq<string>>): (r: seq<string>)
    requires InBounds(groups)
    ensures |r| == |groups|
  {
    seq(|groups|, i requires 0 <= i < |groups| && InBounds(groups) =>
      RawRecord(NameOf(groups[i], |groups[0]|), StatusOf(groups[i], |groups[0]|)))
  }

  /** The records with each group read to its own end, as the inner loop evidently means. */
  function RawReport(groups: seq<seq<string>>): (r: seq<string>)
    ensures |r| == |groups|
  {
    seq(|groups|, i requires 0 <= i < |groups| => RawRecord(NameOf(groups[i], |groups[i]|), StatusOf(groups[i], |groups[i]|)))
  }

  /** When every group has the first group's length, the code as written gives the intended
      records. */
  lemma EqualGroupsAgree(groups: seq<seq<string>>)
    requires forall i :: 0 <= i < |groups| ==> |groups[i]| == |groups[0]|
    ensures RawReportAsWritten(groups) == RawReport(groups)
  {
  }

  /** The corrected record of a group reports "Passed" exactly when a line after the RUN line
      holds the OK marker, and "Failed" exactly when none does and one holds FAILED. */
  lemma RawReportStatus(groups: seq<seq<string>>, i: nat)
    requires i < |groups| && groups[i] != []
    ensures RawReport(groups)[i] == RawRecord(RunName(groups[i][0]), StatusOf(groups[i], |groups[i]|))
    ensures StatusOf(groups[i], |groups[i]|) == "Passed" <==> AnyHolds(groups[i][1..], OkMarker)
    ensures StatusOf(groups[i], |groups[i]|) == "Failed" <==>
              !AnyHolds(groups[i][1..], OkMarker) && AnyHolds(groups[i][1..], FailedMarker)
  {
    assert groups[i][1..|groups[i]|] == groups[i][1..];
  }

  /** Two groups where the second is longer than the first and its OK line lies beyond the
      first group's length: the code as written reports that test as interrupted although
      it passed. */
  lemma LongerGroupLosesItsStatus(g0: seq<string>, g1: seq<string>, ok: nat)
    requires g0 != [] && |g0| <= ok < |g1| && |g1[0]| >= 13
    requires forall k :: 1 <= k < |g0| ==> !Contains(g1[k], OkMarker) && !Contains(g1[k], FailedMarker)
    requires Contains(g1[ok], OkMarker)
    ensures RawReportAsWritten([g0, g1])[1] == RawRecord(g1[0][13..], "中断")
    ensures RawReport([g0, g1])[1] == RawRecord(g1[0][13..], "Passed")
  {
    var groups := [g0, g1];
    assert groups[0] == g0 && groups[1] == g1;
    assert StatusOf(g1, |g0|) != "Passed" && StatusOf(g1, |g0|) != "Failed";
    assert StatusOf(g1, |g1|) == "Passed";
  }



  // ---------------------------------------------------------------------------
  // The writer
  // ---------------------------------------------------------------------------

  class ResultWriter {
    /** The lines of the result file. */
    var lines: seq<string>
    /** `completed_`: how many test names have been resolved so far. */
    var completed: int

    /** Opens the file in append mode: what it already holds is kept. */
    constructor(existing: seq<string>)
      ensures lines == existing && completed == 0
    {
      lines := existing;
      completed := 0;
    }

    /** Writes one line per completed, skipped, timed-out and interrupted test, bucket by
        bucket, each in its order. */
    method AddResult(r: ExecuteResult)
      modifies this
      ensures lines == old(lines) + FormatResult(r)
      ensures completed == old(completed)
    {
      ghost var base := lines;
      var skipped := Tag(r.skippedTests, "Skipped");
      var timedOut := Tag(r.timedOutTests, "Timed_out");
      WriteCompleted(r.completeTests);
      WriteTagged(r.skippedTests, "Skipped", base, r.completeTests);
      WriteTagged(r.timedOutTests, "Timed_out", base, r.completeTests + skipped);
      WriteTagged(r.interruptedTests, "Interrupted", base, r.completeTests + skipped + timedOut);
    }

    /** The loop over the completed tests: `name : status` for each. */
    method WriteCompleted(tests: seq<(string, string)>)
      modifies this
      ensures lines == old(lines) + Render(tests)
      ensures completed == old(completed)
    {
      for i := 0 to |tests|
        invariant lines == old(lines) + Render(tests[..i])
        invariant completed == old(completed)
      {
        RenderStep([], tests, i);
        assert [] + tests[..i] == tests[..i] && [] + tests[..i + 1] == tests[..i + 1];
        lines := lines + [Record(tests[i].0, tests[i].1)];
      }
      assert tests[..|tests|] == tests;
    }

    /** The loop over one bucket of names that share a status, after the lines of the
        entries `written` already went out. */
    method WriteTagged(names: seq<string>, status: string, ghost base: seq<string>, ghost written: seq<(string, string)>)
      requires lines == base + Render(written)
      modifies this
      ensures lines == base + Render(written + Tag(names, status))
      ensures completed == old(completed)
    {
      ghost var tagged := Tag(names, status);
      for i := 0 to |names|
        invariant lines == base + Render(written + tagged[..i])
        invariant completed == old(completed)
      {
        RenderStep(written, tagged, i);
        lines := lines + [Record(names[i], status)];
      }
      assert tagged[..|names|] == tagged;
    }

    /** Groups raw GoogleTest output by RUN line and writes one `name status` line per group,
        reading every group up to the first group's length as the code does. The C++ is
        undefined on an empty line and on a group shorter than the first, and throws on a
        RUN line too short for `substr(13)`; those inputs are excluded. */
    method AddRawResult(result: string)
      requires NoEmptyLine(result)
      requires InBounds(Groups(result)) && NamesReadable(Groups(result))
      modifies this
      ensures lines == old(lines) + RawReportAsWritten(Groups(result))
      ensures completed == old(completed)
    {
      var testsResult := GroupLines(result);
      var outputRes := GroupRecords(testsResult);
      WriteLines(outputRes);
    }

    /** The loop that writes `output_res` to the file, one line each. */
    method WriteLines(outputRes: seq<string>)
      modifies this
      ensures lines == old(lines) + outputRes
      ensures completed == old(completed)
    {
      for k := 0 to |outputRes|
        invariant lines == old(lines) + outputRes[..k]
        invariant completed == old(completed)
      {
        assert outputRes[..k + 1] == outputRes[..k] + [outputRes[k]];
        lines := lines + [outputRes[k]];
      }
      assert outputRes[..|outputRes|] == outputRes;
    }
  }

  /** The loop that fills `output_res`: one record per group, each group read up to the
      first group's length. */
  method GroupRecords(testsResult: seq<seq<string>>) returns (outputRes: seq<string>)
    requires InBounds(testsResult) && NamesReadable(testsResult)
    ensures outputRes == RawReportAsWritten(testsResult)
  {
    outputRes := [];
    for i := 0 to |testsResult|
      invariant outputRes == RawReportAsWritten(testsResult)[..i]
    {
      var name, status := ScanGroup(testsResult[i], |testsResult[0]|);
      SliceSnoc(RawReportAsWritten(testsResult), i);
      outputRes := outputRes + [RawRecord(name, status)];
    }
  }

  lemma SliceSnoc<T>(r: seq<T>, i: nat)
    requires i < |r|
    ensures r[..i + 1] == r[..i] + [r[i]]
  {
  }

  /** Every line std::getline yields is non-empty, so `line[line.size() - 1]` is defined. */
  predicate NoEmptyLine(result: string)
  {
    forall k :: 0 <= k < |Lines(result)| ==> Lines(result)[k] != []
  }

  /** When the inner loop reads first lines at all, each of them is long enough for `substr(13)`. */
  predicate NamesReadable(groups: seq<seq<string>>)
  {
    groups != [] && groups[0] != [] ==> forall i :: 0 <= i < |groups| && groups[i] != [] ==> |groups[i][0]| >= 13
  }

  /** The getline loop that fills `tests_result`. */
  method GroupLines(result: string) returns (testsResult: seq<seq<string>>)
    requires NoEmptyLine(result)
    ensures testsResult == Groups(result)
  {
    var lines := Lines(result);
    testsResult := [];
    var testIdx := -1;
    var usefulInfo := false;
    for k := 0 to |lines|
      invariant GroupingValid(Grouping(testsResult, usefulInfo))
      invariant testIdx == |testsResult| - 1
      invariant GroupFold(Grouping(testsResult, usefulInfo), lines[k..]) == GroupFold(Grouping([], false), lines)
    {
      assert lines[k..][1..] == lines[k + 1..];
      testsResult, testIdx, usefulInfo := GroupLine(testsResult, testIdx, usefulInfo, lines[k]);
    }
  }

  /** One pass of that loop. */
  method GroupLine(groups: seq<seq<string>>, testIdx: int, useful: bool, raw: string)
    returns (groups': seq<seq<string>>, testIdx': int, useful': bool)
    requires raw != [] && GroupingValid(Grouping(groups, useful)) && testIdx == |groups| - 1
    ensures Grouping(groups', useful') == GroupStep(Grouping(groups, useful), raw)
    ensures testIdx' == |groups'| - 1
  {
    var line := raw;
    if line[|line| - 1] == '\r' {
      line := line[..|line| - 1];
    }
    groups', testIdx', useful' := groups, testIdx, useful;
    if Contains(line, RunMarker) {
      useful' := true;
      testIdx' := testIdx' + 1;
      groups' := groups' + [[]];
    }
    if Contains(line, TeardownMarker) {
      useful' := false;
    }
    if useful' {
      ghost var collected := groups';
      groups' := groups'[testIdx' := groups'[testIdx'] + [line]];
      assert groups' == AppendToLast(collected, line);
    }
  }

  /** The inner loop over the first `n` lines of one group: the first gives the name, an OK
      line sets `passed`, otherwise a FAILED line sets `failed`. */
  method ScanGroup(group: seq<string>, n: nat) returns (name: string, status: string)
    requires n <= |group|
    requires n > 0 ==> |group[0]| >= 13
    ensures name == NameOf(group, n) && status == StatusOf(group, n)
  {
    name := [];
    var passed := false;
    var failed := false;
    for j := 0 to n
      invariant passed <==> exists k :: 1 <= k < j && Contains(group[k], OkMarker)
      invariant failed <==> exists k :: 1 <= k < j && !Contains(group[k], OkMarker) && Contains(group[k], FailedMarker)
      invariant j > 0 ==> name == RunName(group[0])
      invariant j == 0 ==> name == []
    {
      var lineStr := group[j];
      if j == 0 {
        name := lineStr[13..];
      } else if Contains(lineStr, OkMarker) {
        passed := true;
      } else if Contains(lineStr, FailedMarker) {
        failed := true;
      }
    }
    if passed {
      status := "Passed";
    } else if failed {
      status := "Failed";
    } else {
      status := "中断";
    }
    StatusByIndex(group, n);
  }

  /** StatusOf read index by index, as the inner loop reads the group. */
  lemma StatusByIndex(group: seq<string>, n: nat)
    requires n <= |group|
    ensures var ok := exists k :: 1 <= k < n && Contains(group[k], OkMarker);
            var failed := exists k :: 1 <= k < n && !Contains(group[k], OkMarker) && Contains(group[k], FailedMarker);
            StatusOf(group, n) == if ok then "Passed" else if failed then "Failed" else "中断"
  {
    if n > 0 {
      var body := group[1..n];
      assert forall k :: 1 <= k < n ==> group[k] == body[k - 1];
      if AnyHolds(body, OkMarker) {
        var k :| 0 <= k < |body| && Contains(body[k], OkMarker);
        assert Contains(group[k + 1], OkMarker);
      }
      if AnyHolds(body, FailedMarker) && !AnyHolds(body, OkMarker) {
        var k :| 0 <= k < |body| && Contains(body[k], FailedMarker);
        assert !Contains(group[k + 1], OkMarker) && Contains(group[k + 1], FailedMarker);
      }
    }
  }

  lemma RenderStep(before: seq<(string, string)>, bucket: seq<(string, string)>, i: nat)
    requires i < |bucket|
    ensures Render(before + bucket[..i + 1]) == Render(before + bucket[..i]) + [Record(bucket[i].0, bucket[i].1)]
  {
    assert before + bucket[..i + 1] == before + bucket[..i] + [bucket[i]];
    RenderSnoc(before + bucket[..i], bucket[i]);
  }
}
