/**
 * The poll loop of ExecuteTest (src/TestExecutor.cpp:105-176) with its defects corrected:
 * each pass drains the pipe first, parses only the lines completed since the last pass (so
 * a RUN line is read once, when its '\n' arrives, and start_time is not restarted by
 * re-reading it), and only then looks at the exit code; a crash or a timeout is recorded
 * only for a name that is still remaining. The buckets then partition the batch exactly.
 */
module CorrectedPoll {
  import opened Text
  import opened Execution

  // ---------------------------------------------------------------------------
  // Complete lines
  // ---------------------------------------------------------------------------

  /** Splits text read from the pipe into the lines its '\n' characters complete and the
      unterminated rest, which waits for more bytes. */
  function SplitComplete(text: string): (r: (seq<string>, string))
    ensures Unlines(r.0) + r.1 == text
    ensures '\n' !in r.1
    ensures forall k :: 0 <= k < |r.0| ==> '\n' !in r.0[k]
    decreases |text|
  {
    var e := FindFrom(text, '\n', 0);
    FindFromFirst(text, '\n', 0);
    if e == |text| then
      ([], text)
    else
      var more := SplitComplete(text[e + 1..]);
      SplitStep(text, e, more.0, more.1);
      ([text[..e]] + more.0, more.1)
  }

  /** The first line, cut at the first '\n', followed by the split of the rest. */
  lemma SplitStep(text: string, e: nat, ls: seq<string>, rest: string)
    requires e < |text| && text[e] == '\n' && forall j :: 0 <= j < e ==> text[j] != '\n'
    requires Unlines(ls) + rest == text[e + 1..]
    requires forall k :: 0 <= k < |ls| ==> '\n' !in ls[k]
    ensures Unlines([text[..e]] + ls) + rest == text
    ensures forall k :: 0 <= k < |[text[..e]] + ls| ==> '\n' !in ([text[..e]] + ls)[k]
  {
    var l := text[..e];
    var cons := [l] + ls;
    assert cons[0] == l && cons[1..] == ls;
    assert Unlines(cons) == l + "\n" + Unlines(ls);
    assert text == l + "\n" + text[e + 1..];
    assert '\n' !in l;
    forall k | 0 <= k < |cons|
      ensures '\n' !in cons[k]
    {
      if k > 0 {
        assert cons[k] == ls[k - 1];
      }
    }
  }

  /** Text without a '\n' completes no line. */
  lemma SplitIncomplete(text: string)
    requires '\n' !in text
    ensures SplitComplete(text) == ([], text)
  {
    FindFromIs(text, '\n', 0, |text|);
  }

  /** A line followed by its '\n' is one complete line with nothing left over. */
  lemma SplitOneLine(l: string)
    requires '\n' !in l
    ensures SplitComplete(l + "\n") == ([l], "")
  {
    var text := l + "\n";
    assert forall j :: 0 <= j < |l| ==> text[j] == l[j];
    FindFromIs(text, '\n', 0, |l|);
    assert text[..|l|] == l && text[|l| + 1..] == [];
    SplitIncomplete([]);
    var single: seq<string> := [l];
    assert single + [] == single;
  }

  // ---------------------------------------------------------------------------
  // Settling the test in flight
  // ---------------------------------------------------------------------------

  /** Moves `x` from the remaining names into a bucket without losing or adding a name. */
  lemma RetireExact(s: Snapshot, x: string)
    requires x in s.remaining
    ensures Accounted(s.(remaining := RemoveFirst(s.remaining, x))) + multiset{x} == Accounted(s)
  {
  }

  /** Retiring `x` into interrupted keeps the names held by the four lists. */
  lemma RetireInterrupted(s: Snapshot, x: string)
    requires x in s.remaining
    ensures var r := s.(interrupted := s.interrupted + [x], remaining := RemoveFirst(s.remaining, x), current := []);
            Accounted(r) + multiset(r.interrupted) == Accounted(s) + multiset(s.interrupted)
  {
    RetireExact(s, x);
    assert multiset(s.interrupted + [x]) == multiset(s.interrupted) + multiset{x};
  }

  /** Retiring `x` into timed out keeps the names held by the four lists. */
  lemma RetireTimedOut(s: Snapshot, x: string)
    requires x in s.remaining
    ensures var r := s.(timedOut := s.timedOut + [x], remaining := RemoveFirst(s.remaining, x), current := []);
            Accounted(r) + multiset(r.timedOut) == Accounted(s) + multiset(s.timedOut)
  {
    RetireExact(s, x);
    assert multiset(s.timedOut + [x]) == multiset(s.timedOut) + multiset{x};
  }

  /** After the parse, a non-zero exit marks the test in flight as interrupted when it is
      still remaining; the test in flight is cleared either way. */
  function SettleExit(s: Snapshot, o: Observation): (r: Snapshot)
    ensures Accounted(r) + multiset(r.interrupted) == Accounted(s) + multiset(s.interrupted)
    ensures r.completed == s.completed && r.skipped == s.skipped
    ensures r.interrupted == s.interrupted +
              (if Exited(o) && o.exitCode != 0 && s.current != [] && s.current in s.remaining
               then [s.current] else [])
    ensures r.timedOut == s.timedOut && r.startTime == s.startTime
    ensures Exited(o) && o.exitCode != 0 ==> r.current == []
    ensures !(Exited(o) && o.exitCode != 0) ==> r == s
    ensures |r.interrupted| <= |s.interrupted| + 1
  {
    if Exited(o) && o.exitCode != 0 && s.current != [] then
      if s.current in s.remaining then
        RetireInterrupted(s, s.current);
        s.(interrupted := s.interrupted + [s.current], remaining := RemoveFirst(s.remaining, s.current),
           current := [])
      else s.(current := [])
    else s
  }

  predicate Overdue(s: Snapshot, o: Observation, timeout: int)
  {
    s.current != [] && ElapsedSeconds(s.startTime, o.checkTime) >= timeout
  }

  /** A test in flight for `timeout` seconds or more is timed out when it is still remaining;
      the test in flight is cleared either way. */
  function SettleTimeout(s: Snapshot, o: Observation, timeout: int): (r: Snapshot)
    ensures Accounted(r) + multiset(r.timedOut) == Accounted(s) + multiset(s.timedOut)
    ensures r.completed == s.completed && r.skipped == s.skipped && r.interrupted == s.interrupted
    ensures r.timedOut == s.timedOut +
              (if Overdue(s, o, timeout) && s.current in s.remaining then [s.current] else [])
    ensures Overdue(s, o, timeout) ==> r.current == []
    ensures !Overdue(s, o, timeout) ==> r == s
  {
    if Overdue(s, o, timeout) then
      if s.current in s.remaining then
        RetireTimedOut(s, s.current);
        s.(timedOut := s.timedOut + [s.current], remaining := RemoveFirst(s.remaining, s.current),
           current := [])
      else s.(current := [])
    else s
  }

  // ---------------------------------------------------------------------------
  // The corrected pass
  // ---------------------------------------------------------------------------

  /** Every name held in the five lists, as a multiset. */
  function Held(s: Snapshot): multiset<string>
  {
    Accounted(s) + multiset(s.interrupted) + multiset(s.timedOut)
  }

  /** The loop variables after a pass, the output so far, the unterminated text waiting for
      its '\n', and whether the loop breaks. */
  datatype Progress = Progress(state: Snapshot, output: string, pending: string, stop: bool)

  /** One corrected pass: drain, parse the lines completed by this pass, exit check, timeout
      check. */
  function FixedPass(s: Snapshot, output: string, pending: string, o: Observation, timeout: int): (r: Progress)
    ensures Held(r.state) == Held(s)
    ensures r.output == output + o.chunk
    ensures Exited(o) ==> r.stop
  {
    var split := SplitComplete(pending + o.chunk);
    var s1 := ParseAll(s, split.0, o.parseTime);
    ParseAllConserves(s, split.0, o.parseTime);
    var s2 := SettleExit(s1, o);
    var s3 := SettleTimeout(s2, o, timeout);
    SettleHeld(s1, o, timeout);
    Progress(s3, output + o.chunk, split.1, Exited(o) || Overdue(s2, o, timeout))
  }

  /** The exit check and the timeout check together keep every name held. */
  lemma SettleHeld(s: Snapshot, o: Observation, timeout: int)
    ensures Held(SettleTimeout(SettleExit(s, o), o, timeout)) == Held(s)
  {
    ExitHeld(s, o);
    TimeoutHeld(SettleExit(s, o), o, timeout);
  }

  lemma ExitHeld(s: Snapshot, o: Observation)
    ensures Held(SettleExit(s, o)) == Held(s)
  {
    var r := SettleExit(s, o);
    assert Held(r) == (Accounted(r) + multiset(r.interrupted)) + multiset(r.timedOut);
  }

  lemma TimeoutHeld(s: Snapshot, o: Observation, timeout: int)
    ensures Held(SettleTimeout(s, o, timeout)) == Held(s)
  {
    var r := SettleTimeout(s, o, timeout);
    var a := Accounted(r) + multiset(r.timedOut);
    assert a == Accounted(s) + multiset(s.timedOut);
    assert Held(r) == a + multiset(s.interrupted);
  }

  function FixedRun(s: Snapshot, output: string, pending: string, trace: seq<Observation>, timeout: int): (r: Progress)
    ensures Held(r.state) == Held(s)
    decreases trace
  {
    if trace == [] then Progress(s, output, pending, false)
    else
      var p := FixedPass(s, output, pending, trace[0], timeout);
      if p.stop then p else FixedRun(p.state, p.output, p.pending, trace[1..], timeout)
  }

  /** The corrected ExecuteTest: every name of the batch ends in exactly one of the five
      lists, so the resolved count plus the names handed back is the batch size. */
  function FixedExecute(batch: seq<string>, start: int, trace: seq<Observation>, tail: string, timeout: int): (r: ExecuteResult)
    ensures multiset(batch) ==
            multiset(r.remainingTests) + multiset(Names(r.completeTests)) + multiset(r.skippedTests) +
            multiset(r.interruptedTests) + multiset(r.timedOutTests)
    ensures |batch| == Resolved(r) + |r.remainingTests|
  {
    var f := FixedRun(Initial(batch, start), [], [], trace, timeout);
    assert Held(Initial(batch, start)) == multiset(batch);
    ExecuteResult(0, f.output + tail, f.state.completed, f.state.skipped, f.state.timedOut,
                  f.state.remaining, f.state.interrupted)
  }

  // ---------------------------------------------------------------------------
  // The crash is blamed on the test that crashed
  // ---------------------------------------------------------------------------

  lemma {:induction false} ParseAllConcat(s: Snapshot, a: seq<string>, b: seq<string>, now: int)
    ensures ParseAll(s, a + b, now) == ParseAll(ParseAll(s, a, now), b, now)
    decreases a
  {
    if a == [] {
      assert a + b == b;
    } else {
      assert (a + b)[0] == a[0];
      assert (a + b)[1..] == a[1..] + b;
      ParseAllConcat(ParseLine(s, a[0], now), a[1..], b, now);
    }
  }

  /** Lines with no marker leave the loop variables alone. */
  lemma {:induction false} ParseAllQuiet(s: Snapshot, lines: seq<string>, now: int)
    requires forall k :: 0 <= k < |lines| ==> Classify(StripCR(lines[k])) == OtherLine
    ensures ParseAll(s, lines, now) == s
    decreases lines
  {
    if lines != [] {
      ParseLineEffect(s, lines[0], now);
      assert Classify(StripCR(lines[0])) == OtherLine;
      ParseAllQuiet(s, lines[1..], now);
    }
  }

  /** When the lines completed by a crashing pass end with the RUN line of `x` followed by
      lines with no marker, the crash is blamed on `x`, whatever test was in flight when the
      pass began, and one occurrence of `x` leaves the remaining names. */
  lemma CrashBlamesLastStarted(s: Snapshot, output: string, pending: string, o: Observation, timeout: int,
                               pre: seq<string>, run: string, quiet: seq<string>, x: string)
    requires Exited(o) && o.exitCode != 0
    requires SplitComplete(pending + o.chunk).0 == pre + [run] + quiet
    requires Classify(StripCR(run)) == RunLine && RunName(StripCR(run)) == x
    requires forall k :: 0 <= k < |quiet| ==> Classify(StripCR(quiet[k])) == OtherLine
    requires Untouched(s, x) && x in s.remaining && NoRunOf(pre, x)
    ensures var r := FixedPass(s, output, pending, o, timeout);
            r.stop && r.state.interrupted == s.interrupted + [x] && r.state.timedOut == s.timedOut &&
            multiset(r.state.remaining)[x] == multiset(s.remaining)[x] - 1
  {
    var t := o.parseTime;
    ParseAllConcat(s, pre + [run], quiet, t);
    ParseAllConcat(s, pre, [run], t);
    ParseAllUntouched(s, pre, t, x);
    var s0 := ParseAll(s, pre, t);
    var one: seq<string> := [run];
    assert one[1..] == [];
    var s1 := s0.(current := x, startTime := t);
    assert ParseAll(s0, one, t) == s1 by {
      ParseLineEffect(s0, run, t);
    }
    ParseAllQuiet(s1, quiet, t);
    ParseAllConserves(s, pre, t);
    assert x in s1.remaining;
    assert SettleExit(s1, o) == s1.(interrupted := s1.interrupted + [x], remaining := RemoveFirst(s1.remaining, x), current := []);
  }

  /** A crash already visible at the first poll is blamed on the test whose RUN line the
      drained output ends with. */
  lemma FirstPollCrashBlamed(batch: seq<string>, start: int, o: Observation, rest: seq<Observation>, tail: string, timeout: int,
                             pre: seq<string>, run: string, quiet: seq<string>, x: string)
    requires Exited(o) && o.exitCode != 0
    requires SplitComplete(o.chunk).0 == pre + [run] + quiet
    requires Classify(StripCR(run)) == RunLine && RunName(StripCR(run)) == x
    requires forall k :: 0 <= k < |quiet| ==> Classify(StripCR(quiet[k])) == OtherLine
    requires x != [] && x in batch && NoRunOf(pre, x)
    ensures FixedExecute(batch, start, [o] + rest, tail, timeout).interruptedTests == [x]
  {
    var s := Initial(batch, start);
    assert [] + o.chunk == o.chunk;
    CrashBlamesLastStarted(s, [], [], o, timeout, pre, run, quiet, x);
    assert ([o] + rest)[0] == o;
  }

  // ---------------------------------------------------------------------------
  // A silent test times out
  // ---------------------------------------------------------------------------

  /** A pass that completes no line, in a process that keeps running, only checks the
      clock. */
  lemma SilentPass(s: Snapshot, output: string, pending: string, o: Observation, timeout: int)
    requires !Exited(o) && '\n' !in pending && '\n' !in o.chunk
    ensures '\n' !in pending + o.chunk
    ensures FixedPass(s, output, pending, o, timeout) ==
            Progress(SettleTimeout(s, o, timeout), output + o.chunk, pending + o.chunk, Overdue(s, o, timeout))
  {
    var text := pending + o.chunk;
    assert '\n' !in text;
    SplitIncomplete(text);
    assert ParseAll(s, [], o.parseTime) == s;
  }

  lemma TimeoutOfRemaining(s: Snapshot, o: Observation, timeout: int)
    requires Overdue(s, o, timeout) && s.current in s.remaining
    ensures var r := SettleTimeout(s, o, timeout);
            r.timedOut == s.timedOut + [s.current] && r.interrupted == s.interrupted &&
            multiset(r.remaining)[s.current] == multiset(s.remaining)[s.current] - 1
  {
  }

  /** Every pass of `trace` finds the process running and completes no line. */
  predicate Silent(trace: seq<Observation>)
    decreases trace
  {
    trace == [] || (!Exited(trace[0]) && '\n' !in trace[0].chunk && Silent(trace[1..]))
  }

  /** Some pass of `trace` checks the clock `timeout` seconds or more after `start`. */
  predicate OverdueIn(start: int, trace: seq<Observation>, timeout: int)
    decreases trace
  {
    trace != [] && (ElapsedSeconds(start, trace[0].checkTime) >= timeout || OverdueIn(start, trace[1..], timeout))
  }

  /** A test in flight that completes no further line, in a process that keeps running, is
      timed out by the first pass whose check comes `timeout` seconds or more after its RUN
      line was read. */
  lemma {:induction false} SilentTestTimesOut(s: Snapshot, output: string, pending: string, trace: seq<Observation>, timeout: int, x: string)
    requires s.current == x && x != [] && x in s.remaining && '\n' !in pending
    requires Silent(trace) && OverdueIn(s.startTime, trace, timeout)
    ensures var r := FixedRun(s, output, pending, trace, timeout);
            r.stop && r.state.timedOut == s.timedOut + [x] && r.state.interrupted == s.interrupted &&
            multiset(r.state.remaining)[x] == multiset(s.remaining)[x] - 1
    decreases trace
  {
    var o := trace[0];
    SilentPass(s, output, pending, o, timeout);
    var p := FixedPass(s, output, pending, o, timeout);
    if p.stop {
      TimeoutOfRemaining(s, o, timeout);
    } else {
      SilentTestTimesOut(s, p.output, pending + o.chunk, trace[1..], timeout, x);
    }
  }

  // ---------------------------------------------------------------------------
  // A RUN line cut short by the pipe
  // ---------------------------------------------------------------------------

  /** The first pass keeps the cut RUN line pending and parses nothing. */
  lemma FixedPartialFirstPass(batch: seq<string>, start: int, a: string, o1: Observation, timeout: int)
    requires ReadableName(a)
    requires o1 == Observation(true, StillActive, RunLineFor(a), o1.parseTime, o1.parseTime)
    ensures FixedPass(Initial(batch, start), [], [], o1, timeout) ==
            Progress(Initial(batch, start), RunLineFor(a), RunLineFor(a), false)
  {
    var s := Initial(batch, start);
    assert '\n' !in RunMarker + " ";
    assert [] + o1.chunk == RunLineFor(a);
    SplitIncomplete(RunLineFor(a));
  }

  /** The second pass completes the line and reads it as the RUN line of `a + c`. */
  lemma FixedPartialSecondPass(batch: seq<string>, start: int, a: string, c: string, o2: Observation, timeout: int)
    requires ReadableName(a + c) && c != [] && batch == [a, a + c]
    requires o2 == Observation(true, o2.exitCode, c + "\n", o2.parseTime, o2.parseTime)
    requires o2.exitCode != 0 && o2.exitCode != StillActive
    ensures var r := FixedPass(Initial(batch, start), RunLineFor(a), RunLineFor(a), o2, timeout);
            r.stop && r.state.interrupted == [a + c] && r.state.remaining == [a] &&
            r.state.completed == [] && r.state.timedOut == []
  {
    var s := Initial(batch, start);
    var l := RunLineFor(a + c);
    CompletedRunLine(a, c);
    ReadRunLine(s, a + c, o2.parseTime);
    var s1 := s.(current := a + c, startTime := o2.parseTime);
    CrashOfSecond(s1, a, c, o2);
  }

  /** The cut RUN line and the rest of it make one complete line. */
  lemma CompletedRunLine(a: string, c: string)
    requires ReadableName(a + c)
    ensures SplitComplete(RunLineFor(a) + (c + "\n")) == ([RunLineFor(a + c)], "")
  {
    RunLineRest(a, c);
    assert '\n' !in RunMarker + " ";
    assert '\n' !in RunLineFor(a + c);
    SplitOneLine(RunLineFor(a + c));
  }

  /** The crash of the second test of `[a, a + c]` leaves `a` remaining. */
  lemma CrashOfSecond(s1: Snapshot, a: string, c: string, o2: Observation)
    requires c != [] && s1.remaining == [a, a + c] && s1.current == a + c && s1.interrupted == []
    requires Exited(o2) && o2.exitCode != 0
    ensures SettleExit(s1, o2) == s1.(interrupted := [a + c], remaining := [a], current := [])
  {
    assert a != a + c by { assert |a| < |a + c|; }
    assert RemoveFirst([a, a + c], a + c) == [a] by {
      var single: seq<string> := [a + c];
      assert [a, a + c][1..] == single;
      assert RemoveFirst(single, a + c) == [];
    }
  }

  /** With the corrected pass, the RUN line cut after `a` is only read once complete, so
      the crash is blamed on `a + c`, the test that ran, and `a` is handed back. */
  lemma FixedPartialRunLine(a: string, c: string, code: int, t1: int, t2: int, timeout: int)
    requires ReadableName(a) && ReadableName(a + c) && c != []
    requires code != 0 && code != StillActive
    ensures var o1 := Observation(true, StillActive, RunLineFor(a), t1, t1);
            var o2 := Observation(true, code, c + "\n", t2, t2);
            var r := FixedExecute([a, a + c], 0, [o1, o2], [], timeout);
            r.interruptedTests == [a + c] && r.remainingTests == [a] && r.completeTests == [] &&
            r.timedOutTests == []
  {
    var o1 := Observation(true, StillActive, RunLineFor(a), t1, t1);
    var o2 := Observation(true, code, c + "\n", t2, t2);
    var batch := [a, a + c];
    var s0 := Initial(batch, 0);
    FixedPartialFirstPass(batch, 0, a, o1, timeout);
    FixedPartialSecondPass(batch, 0, a, c, o2, timeout);
    var p2 := FixedPass(s0, RunLineFor(a), RunLineFor(a), o2, timeout);
    assert [o1, o2][1..] == [o2];
    calc {
      FixedRun(s0, [], [], [o1, o2], timeout);
      FixedRun(s0, RunLineFor(a), RunLineFor(a), [o2], timeout);
      p2;
    }
  }
}
