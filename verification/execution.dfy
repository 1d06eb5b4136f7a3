/**
 * The classification state machine of TestExecutor::ExecuteTest (src/TestExecutor.cpp),
 * as functions over a snapshot of the loop variables.
 *
 * The child process and its pipe are replaced by a finite trace of observations, one per
 * pass of the `while(true)` poll loop: whether GetExitCodeProcess succeeded and the code it
 * gave, the bytes drained from the pipe in that pass, and two clock readings (the one taken
 * by `steady_clock::now()` when a RUN line is parsed, and the one taken by the timeout check).
 * Every pass re-parses the whole output accumulated so far, starting from the variables the
 * previous pass left behind; this is the source's behaviour, and several lemmas below are
 * about what it implies.
 */
module Execution {
  import opened Text

  // ---------------------------------------------------------------------------
  // Markers and line classification
  // ---------------------------------------------------------------------------

  const RunMarker: string := "[ RUN      ]"
  const OkMarker: string := "[       OK ]"
  const FailedMarker: string := "[  FAILED  ]"
  const SkippedMarker: string := "[  SKIPPED ]"

  /** GetExitCodeProcess reports this code while the process is still running. */
  const StillActive: int := 259

  datatype LineKind = RunLine | EndLine | SkipLine | OtherLine

  /** The else-if chain of the parse: RUN is checked first, then OK or FAILED, then SKIPPED. */
  function Classify(line: string): (k: LineKind)
    ensures k == RunLine <==> Contains(line, RunMarker)
    ensures k == EndLine <==> !Contains(line, RunMarker) && (Contains(line, OkMarker) || Contains(line, FailedMarker))
    ensures k == SkipLine <==> !Contains(line, RunMarker) && !Contains(line, OkMarker) && !Contains(line, FailedMarker) && Contains(line, SkippedMarker)
  {
    if Contains(line, RunMarker) then RunLine
    else if Contains(line, OkMarker) || Contains(line, FailedMarker) then EndLine
    else if Contains(line, SkippedMarker) then SkipLine
    else OtherLine
  }

  /** `line.substr(13)`: the test name after the marker and one space. The C++ throws
      when the line is shorter than 13 characters; the model gives the empty name there,
      and ExecuteTest excludes that input by its precondition. */
  function RunName(line: string): string
  {
    if |line| >= 13 then line[13..] else []
  }

  /** The status recorded for an end line: "Passed" when it holds the OK marker. */
  function EndStatus(line: string): string
  {
    if Contains(line, OkMarker) then "Passed" else "Failed"
  }

  // ---------------------------------------------------------------------------
  // std::find followed by erase
  // ---------------------------------------------------------------------------

  /** Erase the first occurrence of `x`, if there is one: the names before it and after it
      stay, in their order. */
  function RemoveFirst(xs: seq<string>, x: string): (r: seq<string>)
    ensures x in xs ==> multiset(r) == multiset(xs) - multiset{x} && |r| == |xs| - 1
    ensures x in xs ==> exists i :: ErasedAt(xs, x, r, i)
    ensures x !in xs ==> r == xs
  {
    if xs == [] then []
    else
      assert xs == [xs[0]] + xs[1..];
      if xs[0] == x then
        assert ErasedAt(xs, x, xs[1..], 0) by { assert xs[..0] + xs[1..] == xs[1..]; }
        xs[1..]
      else
        var t := RemoveFirst(xs[1..], x);
        EraseLater(xs, x, t);
        [xs[0]] + t
  }

  /** `r` is `xs` without its element at `i`, which is the first `x` of `xs`. */
  predicate ErasedAt(xs: seq<string>, x: string, r: seq<string>, i: int)
  {
    0 <= i < |xs| && xs[i] == x && x !in xs[..i] && r == xs[..i] + xs[i + 1..]
  }

  /** An erasure in the tail of `xs` is an erasure in `xs` one position further on. */
  lemma EraseLater(xs: seq<string>, x: string, t: seq<string>)
    requires xs != [] && xs[0] != x
    requires x in xs[1..] ==> exists i :: ErasedAt(xs[1..], x, t, i)
    ensures x in xs ==> exists i :: ErasedAt(xs, x, [xs[0]] + t, i)
  {
    if x in xs {
      assert x in xs[1..] by { assert xs == [xs[0]] + xs[1..]; }
      var i :| ErasedAt(xs[1..], x, t, i);
      assert xs[..i + 1] == [xs[0]] + xs[1..][..i];
      assert xs[i + 2..] == xs[1..][i + 1..];
      assert ErasedAt(xs, x, [xs[0]] + t, i + 1);
    }
  }

  /** Erasing never brings in a name. */
  lemma {:induction false} RemoveFirstSub(xs: seq<string>, x: string, y: string)
    requires y in RemoveFirst(xs, x)
    ensures y in xs
  {
    if xs != [] && xs[0] != x && y != xs[0] {
      RemoveFirstSub(xs[1..], x, y);
    }
  }

  /** No name occurs twice. */
  predicate NoDup(xs: seq<string>)
  {
    forall i, j :: 0 <= i < j < |xs| ==> xs[i] != xs[j]
  }

  /** Erasing keeps the names distinct and takes `x` out altogether. */
  lemma {:induction false} RemoveFirstNoDup(xs: seq<string>, x: string)
    requires NoDup(xs)
    ensures NoDup(RemoveFirst(xs, x)) && x !in RemoveFirst(xs, x)
  {
    if xs != [] {
      var t := xs[1..];
      NoDupTail(xs);
      if xs[0] != x {
        RemoveFirstNoDup(t, x);
        RemoveFirstCons(xs, x);
        if xs[0] in RemoveFirst(t, x) {
          RemoveFirstSub(t, x, xs[0]);
        }
        NoDupCons(xs[0], RemoveFirst(t, x));
      }
    }
  }

  /** Erasing a name other than the head keeps the head and erases from the tail. */
  lemma RemoveFirstCons(xs: seq<string>, x: string)
    requires xs != [] && xs[0] != x
    ensures RemoveFirst(xs, x) == [xs[0]] + RemoveFirst(xs[1..], x)
  {
  }

  /** The tail of a list of distinct names holds distinct names, none of them the head. */
  lemma NoDupTail(xs: seq<string>)
    requires xs != [] && NoDup(xs)
    ensures NoDup(xs[1..]) && xs[0] !in xs[1..]
  {
    forall i, j | 0 <= i < j < |xs| - 1
      ensures xs[1..][i] != xs[1..][j]
    {
      assert xs[1..][i] == xs[i + 1] && xs[1..][j] == xs[j + 1];
    }
  }

  /** A new name in front of distinct names keeps them distinct. */
  lemma NoDupCons(a: string, r: seq<string>)
    requires NoDup(r) && a !in r
    ensures NoDup([a] + r)
  {
    var l := [a] + r;
    forall i, j | 0 <= i < j < |l|
      ensures l[i] != l[j]
    {
      if i == 0 {
        assert l[j] == r[j - 1];
      } else {
        assert l[i] == r[i - 1] && l[j] == r[j - 1];
      }
    }
  }

  // ---------------------------------------------------------------------------
  // The loop variables
  // ---------------------------------------------------------------------------

  /** remaining_tests, the four buckets, current_test and start_time (a steady_clock reading,
      in nanoseconds). */
  datatype Snapshot = Snapshot(
    remaining: seq<string>,
    completed: seq<(string, string)>,
    skipped: seq<string>,
    timedOut: seq<string>,
    interrupted: seq<string>,
    current: string,
    startTime: int)

  /** The state before the first pass: every name of the batch is remaining. */
  function Initial(batch: seq<string>, start: int): Snapshot
  {
    Snapshot(batch, [], [], [], [], [], start)
  }

  /** The names of the completed pairs, in order. */
  function Names(completed: seq<(string, string)>): (r: seq<string>)
    ensures |r| == |completed|
  {
    seq(|completed|, i requires 0 <= i < |completed| => completed[i].0)
  }

  /** The batch names the parse has not dropped: remaining, completed or skipped. */
  function Accounted(s: Snapshot): multiset<string>
  {
    multiset(s.remaining) + multiset(Names(s.completed)) + multiset(s.skipped)
  }

  // ---------------------------------------------------------------------------
  // One line of the getline loop
  // ---------------------------------------------------------------------------

  /** One pass of the getline loop over `raw`, at clock reading `now`. */
  function ParseLine(s: Snapshot, raw: string, now: int): (r: Snapshot)
    ensures r.timedOut == s.timedOut && r.interrupted == s.interrupted
    ensures s.completed <= r.completed && s.skipped <= r.skipped
    ensures |r.completed| + |r.skipped| <= |s.completed| + |s.skipped| + 1
    ensures r.current != [] ==> r.current == s.current || Classify(StripCR(raw)) == RunLine
  {
    var line := StripCR(raw);
    match Classify(line)
    case RunLine => s.(current := RunName(line), startTime := now)
    case EndLine =>
      if s.current != [] && s.current in s.remaining then
        s.(completed := s.completed + [(s.current, EndStatus(line))],
           remaining := RemoveFirst(s.remaining, s.current), current := [])
      else s.(current := [])
    case SkipLine =>
      if s.current != [] && s.current in s.remaining then
        s.(skipped := s.skipped + [s.current],
           remaining := RemoveFirst(s.remaining, s.current), current := [])
      else s.(current := [])
    case OtherLine => s
  }

  /** The getline loop over `lines`. */
  function ParseAll(s: Snapshot, lines: seq<string>, now: int): Snapshot
    decreases lines
  {
    if lines == [] then s else ParseAll(ParseLine(s, lines[0], now), lines[1..], now)
  }

  /** An OK or FAILED line records the name of the latest RUN line with its status and erases
      it from the remaining names; any end or skip line clears current_test; a RUN line sets
      the name and restarts the clock. */
  lemma ParseLineEffect(s: Snapshot, raw: string, now: int)
    ensures var line := StripCR(raw);
            var r := ParseLine(s, raw, now);
            match Classify(line)
            case RunLine => r == s.(current := RunName(line), startTime := now)
            case EndLine =>
              r.current == [] && r.skipped == s.skipped && r.startTime == s.startTime &&
              if s.current != [] && s.current in s.remaining
              then r.completed == s.completed + [(s.current, EndStatus(line))] &&
                   multiset(r.remaining) == multiset(s.remaining) - multiset{s.current}
              else r.completed == s.completed && r.remaining == s.remaining
            case SkipLine =>
              r.current == [] && r.completed == s.completed && r.startTime == s.startTime &&
              if s.current != [] && s.current in s.remaining
              then r.skipped == s.skipped + [s.current] &&
                   multiset(r.remaining) == multiset(s.remaining) - multiset{s.current}
              else r.skipped == s.skipped && r.remaining == s.remaining
            case OtherLine => r == s
  {
  }

  /** A marker for a name that is no longer remaining only clears current_test. */
  lemma RemovedNameAddsNothing(s: Snapshot, raw: string, now: int)
    requires s.current == [] || s.current !in s.remaining
    requires Classify(StripCR(raw)) in {EndLine, SkipLine}
    ensures ParseLine(s, raw, now) == s.(current := [])
  {
  }

  lemma NamesSnoc(c: seq<(string, string)>, p: (string, string))
    ensures Names(c + [p]) == Names(c) + [p.0]
  {
  }

  /** Moving the name in flight from remaining to completed keeps the multiset of the three. */
  lemma CompleteConserves(s: Snapshot, status: string)
    requires s.current in s.remaining
    ensures Accounted(s.(completed := s.completed + [(s.current, status)],
                         remaining := RemoveFirst(s.remaining, s.current), current := [])) == Accounted(s)
  {
    NamesSnoc(s.completed, (s.current, status));
  }

  /** Likewise from remaining to skipped. */
  lemma SkipConserves(s: Snapshot)
    requires s.current in s.remaining
    ensures Accounted(s.(skipped := s.skipped + [s.current],
                         remaining := RemoveFirst(s.remaining, s.current), current := [])) == Accounted(s)
  {
  }

  /** The parse only moves names from remaining into completed or skipped: the multiset of
      the three together is unchanged, and the other buckets are untouched. */
  lemma ParseLineConserves(s: Snapshot, raw: string, now: int)
    ensures var r := ParseLine(s, raw, now);
            Accounted(r) == Accounted(s) &&
            r.timedOut == s.timedOut && r.interrupted == s.interrupted &&
            s.completed <= r.completed && s.skipped <= r.skipped &&
            multiset(r.remaining) <= multiset(s.remaining)
  {
    var line := StripCR(raw);
    if s.current != [] && s.current in s.remaining {
      match Classify(line)
      case EndLine => CompleteConserves(s, EndStatus(line));
      case SkipLine => SkipConserves(s);
      case RunLine =>
      case OtherLine =>
    }
  }

  lemma {:induction false} ParseAllConserves(s: Snapshot, lines: seq<string>, now: int)
    ensures var r := ParseAll(s, lines, now);
            Accounted(r) == Accounted(s) &&
            r.timedOut == s.timedOut && r.interrupted == s.interrupted &&
            s.completed <= r.completed && s.skipped <= r.skipped &&
            multiset(r.remaining) <= multiset(s.remaining)
    decreases lines
  {
    if lines != [] {
      ParseLineConserves(s, lines[0], now);
      ParseAllConserves(ParseLine(s, lines[0], now), lines[1..], now);
    }
  }

  /** A name that is not remaining stays out of remaining, and the parse never adds it to
      completed. */
  lemma {:induction false} NeverCompletesAbsent(s: Snapshot, lines: seq<string>, now: int, x: string)
    requires x !in s.remaining
    ensures var r := ParseAll(s, lines, now);
            x !in r.remaining && s.completed <= r.completed &&
            forall i :: |s.completed| <= i < |r.completed| ==> r.completed[i].0 != x
    decreases lines
  {
    if lines != [] {
      var s' := ParseLine(s, lines[0], now);
      ParseLineAbsent(s, lines[0], now, x);
      NeverCompletesAbsent(s', lines[1..], now, x);
      var r := ParseAll(s', lines[1..], now);
      forall i | |s.completed| <= i < |r.completed|
        ensures r.completed[i].0 != x
      {
        if i < |s'.completed| {
          assert r.completed[i] == s'.completed[i];
        }
      }
    }
  }

  /** One line keeps a name that is not remaining out of remaining and out of what it completes. */
  lemma ParseLineAbsent(s: Snapshot, raw: string, now: int, x: string)
    requires x !in s.remaining
    ensures var r := ParseLine(s, raw, now);
            x !in r.remaining && s.completed <= r.completed &&
            forall i :: |s.completed| <= i < |r.completed| ==> r.completed[i].0 != x
  {
    var r := ParseLine(s, raw, now);
    ParseLineEffect(s, raw, now);
    if x in r.remaining {
      RemoveFirstSub(s.remaining, s.current, x);
    }
  }

  // ---------------------------------------------------------------------------
  // Re-parsing the whole output
  // ---------------------------------------------------------------------------

  /** The snapshot with the clock reading forgotten. */
  function Clockless(s: Snapshot): Snapshot
  {
    s.(startTime := 0)
  }

  /** The clock reading only ever reaches start_time. */
  lemma {:induction false} ClockIrrelevant(a: Snapshot, b: Snapshot, lines: seq<string>, t: int, t': int)
    requires Clockless(a) == Clockless(b)
    ensures Clockless(ParseAll(a, lines, t)) == Clockless(ParseAll(b, lines, t'))
    decreases lines
  {
    if lines != [] {
      ClockIrrelevant(ParseLine(a, lines[0], t), ParseLine(b, lines[0], t'), lines[1..], t, t');
    }
  }

  /** The first marker line, if any, is a RUN line: no OK, FAILED or SKIPPED line comes
      before the first RUN line. GoogleTest's own output has this shape. */
  predicate RunFirst(lines: seq<string>)
    decreases lines
  {
    lines == [] ||
    Classify(StripCR(lines[0])) == RunLine ||
    (Classify(StripCR(lines[0])) == OtherLine && RunFirst(lines[1..]))
  }

  /** The buckets and remaining names, without current_test and start_time. */
  function Buckets(s: Snapshot): Snapshot
  {
    s.(current := [], startTime := 0)
  }

  /** A name the first reading erases, or finds already gone, is not remaining at its end. */
  lemma GoneAtEnd(a: Snapshot, line: string, rest: seq<string>, t: int)
    requires NoDup(a.remaining) && a.current != []
    requires Classify(StripCR(line)) in {EndLine, SkipLine}
    ensures a.current !in ParseAll(ParseLine(a, line, t), rest, t).remaining
  {
    var a' := ParseLine(a, line, t);
    ParseLineEffect(a, line, t);
    if a.current in a.remaining {
      RemoveFirstNoDup(a.remaining, a.current);
    }
    if a.current in a'.remaining {
      RemoveFirstSub(a.remaining, a.current, a.current);
    }
    NeverCompletesAbsent(a', rest, t, a.current);
  }

  /** One line of the second reading: it moves current_test and start_time as the first
      reading does, and leaves the buckets alone. */
  lemma ReplayLine(a: Snapshot, b: Snapshot, line: string, rest: seq<string>, t: int)
    requires NoDup(a.remaining)
    requires Buckets(b) == Buckets(ParseAll(ParseLine(a, line, t), rest, t))
    requires a.current == b.current && a.startTime == b.startTime
    ensures var a' := ParseLine(a, line, t);
            var b' := ParseLine(b, line, t);
            Buckets(b') == Buckets(b) && a'.current == b'.current && a'.startTime == b'.startTime
  {
    ParseLineEffect(a, line, t);
    ParseLineEffect(b, line, t);
    var k := Classify(StripCR(line));
    if (k == EndLine || k == SkipLine) && a.current != [] {
      GoneAtEnd(a, line, rest, t);
      RemovedNameAddsNothing(b, line, t);
    }
  }

  /** Second reading, once the two readings agree on current_test and start_time: the
      replay `b` already holds the buckets the first reading `a` is heading for, so each of
      its markers names a test that is no longer remaining and records nothing. */
  lemma {:induction false} Replay(a: Snapshot, b: Snapshot, lines: seq<string>, t: int)
    requires NoDup(a.remaining)
    requires Buckets(b) == Buckets(ParseAll(a, lines, t))
    requires a.current == b.current && a.startTime == b.startTime
    ensures ParseAll(b, lines, t) == ParseAll(a, lines, t)
    decreases lines
  {
    if lines != [] {
      var a' := ParseLine(a, lines[0], t);
      ReplayLine(a, b, lines[0], lines[1..], t);
      if a.current in a.remaining {
        RemoveFirstNoDup(a.remaining, a.current);
      }
      ParseLineEffect(a, lines[0], t);
      assert NoDup(a'.remaining);
      Replay(a', ParseLine(b, lines[0], t), lines[1..], t);
    }
  }

  /** Before the readings agree, both pass over the same plain lines unchanged. */
  lemma {:induction false} ReplayFromStart(a: Snapshot, b: Snapshot, lines: seq<string>, t: int, t': int)
    requires NoDup(a.remaining) && RunFirst(lines)
    requires b == ParseAll(a, lines, t)
    ensures ParseAll(b, lines, t') == ParseAll(a, lines, t')
    decreases lines
  {
    if lines != [] {
      var k := Classify(StripCR(lines[0]));
      ParseLineEffect(a, lines[0], t);
      ParseLineEffect(a, lines[0], t');
      ParseLineEffect(b, lines[0], t');
      if k == RunLine {
        var a1 := ParseLine(a, lines[0], t);
        var a2 := ParseLine(a, lines[0], t');
        var b2 := ParseLine(b, lines[0], t');
        ClockIrrelevant(a1, a2, lines[1..], t, t');
        Replay(a2, b2, lines[1..], t');
      } else {
        ReplayFromStart(a, b, lines[1..], t, t');
      }
    }
  }

  /** Re-parsing what has already been parsed changes nothing but the clock: the buckets
      stay as they are, provided the batch names are distinct and no end or skip marker
      precedes the first RUN line. */
  lemma ReparseIdempotent(s: Snapshot, lines: seq<string>, t: int, t': int)
    requires NoDup(s.remaining) && RunFirst(lines)
    ensures ParseAll(ParseAll(s, lines, t), lines, t') == ParseAll(s, lines, t')
  {
    ReplayFromStart(s, ParseAll(s, lines, t), lines, t, t');
  }

  // ---------------------------------------------------------------------------
  // One pass of the poll loop
  // ---------------------------------------------------------------------------

  /** What one pass of the poll loop sees: whether GetExitCodeProcess succeeded and the code
      it reported, the bytes drained from the pipe, the clock reading taken at the RUN lines
      of the parse, and the one taken by the timeout check (steady_clock, in nanoseconds). */
  datatype Observation = Observation(queried: bool, exitCode: int, chunk: string, parseTime: int, checkTime: int)

  /** `GetExitCodeProcess(...) && exit_code != STILL_ACTIVE`. */
  predicate Exited(o: Observation)
  {
    o.queried && o.exitCode != StillActive
  }

  const NanosPerSecond: int := 1000000000

  /** `duration_cast<seconds>(now - start_time).count()`: the difference truncated toward zero. */
  function ElapsedSeconds(start: int, now: int): int
  {
    if now >= start then (now - start) / NanosPerSecond else -((start - now) / NanosPerSecond)
  }

  /** The exit check at the top of a pass: a non-zero exit, with nothing timed out, marks
      the test in flight as interrupted and erases it from the remaining names if present. */
  function ExitCheck(s: Snapshot, o: Observation): (r: Snapshot)
    ensures r.completed == s.completed && r.skipped == s.skipped && r.timedOut == s.timedOut
    ensures r.current == s.current && r.startTime == s.startTime
    ensures s.interrupted <= r.interrupted && |r.interrupted| <= |s.interrupted| + 1
  {
    if Exited(o) && o.exitCode != 0 && s.timedOut == [] && s.current != [] then
      s.(interrupted := s.interrupted + [s.current], remaining := RemoveFirst(s.remaining, s.current))
    else s
  }

  predicate TimeoutFires(s: Snapshot, o: Observation, timeout: int)
  {
    s.current != [] && ElapsedSeconds(s.startTime, o.checkTime) >= timeout
  }

  /** The timeout check at the end of a pass. */
  function TimeoutCheck(s: Snapshot, o: Observation, timeout: int): (r: Snapshot)
    ensures r.completed == s.completed && r.skipped == s.skipped && r.interrupted == s.interrupted
    ensures s.timedOut <= r.timedOut && |r.timedOut| <= |s.timedOut| + 1
  {
    if TimeoutFires(s, o, timeout) then
      s.(timedOut := s.timedOut + [s.current], remaining := RemoveFirst(s.remaining, s.current), current := [])
    else s
  }

  /** The loop variables after a pass, the output read so far, and whether the loop breaks. */
  datatype Step = Step(state: Snapshot, output: string, stop: bool)

  /** One pass: exit check, drain, re-parse of the whole output, timeout check; the loop
      breaks when the timeout fired or the exit was seen. */
  function Pass(s: Snapshot, output: string, o: Observation, timeout: int): (r: Step)
    ensures r.output == output + o.chunk
    ensures Exited(o) ==> r.stop
  {
    var s1 := ExitCheck(s, o);
    var out := output + o.chunk;
    var s2 := ParseAll(s1, Lines(out), o.parseTime);
    Step(TimeoutCheck(s2, o, timeout), out, TimeoutFires(s2, o, timeout) || Exited(o))
  }

  /** The poll loop over a trace, up to the first pass that breaks (or the end of the trace). */
  function Run(s: Snapshot, output: string, trace: seq<Observation>, timeout: int): (r: Step)
    ensures output <= r.output
    ensures (exists k :: 0 <= k < |trace| && Exited(trace[k])) ==> r.stop
    decreases trace
  {
    if trace == [] then Step(s, output, false)
    else
      var p := Pass(s, output, trace[0], timeout);
      if p.stop then p
      else
        ExitLater(trace);
        Run(p.state, p.output, trace[1..], timeout)
  }

  /** When the first observation is not the exit, an exit in the trace lies in its tail. */
  lemma ExitLater(trace: seq<Observation>)
    requires trace != [] && !Exited(trace[0])
    ensures (exists k :: 0 <= k < |trace| && Exited(trace[k])) ==>
            exists k :: 0 <= k < |trace[1..]| && Exited(trace[1..][k])
  {
    if exists k :: 0 <= k < |trace| && Exited(trace[k]) {
      var k :| 0 <= k < |trace| && Exited(trace[k]);
      assert trace[1..][k - 1] == trace[k];
    }
  }

  /** The value ExecuteTest returns (src/TestExecutor.cpp:187), in the source's field order. */
  datatype ExecuteResult = ExecuteResult(
    status: int,
    output: string,
    completeTests: seq<(string, string)>,
    skippedTests: seq<string>,
    timedOutTests: seq<string>,
    remainingTests: seq<string>,
    interruptedTests: seq<string>)

  /** ExecuteTest for a batch: the poll loop from the initial variables, then the bytes read
      after the loop appended to the output without being parsed. */
  function ExecuteSpec(batch: seq<string>, start: int, trace: seq<Observation>, tail: string, timeout: int): (r: ExecuteResult)
    ensures r.status == 0
    ensures |tail| <= |r.output| && r.output[|r.output| - |tail|..] == tail
  {
    var f := Run(Initial(batch, start), [], trace, timeout);
    ExecuteResult(0, f.output + tail, f.state.completed, f.state.skipped, f.state.timedOut,
                  f.state.remaining, f.state.interrupted)
  }

  /** The names a result resolves: the increment of `completed_` in SubmitTestBatch. */
  function Resolved(r: ExecuteResult): nat
  {
    |r.completeTests| + |r.timedOutTests| + |r.skippedTests| + |r.interruptedTests|
  }

  // ---------------------------------------------------------------------------
  // The batch stays partitioned
  // ---------------------------------------------------------------------------

  /** Every remaining, completed or skipped name is drawn from the batch, and every batch name
      is remaining, completed, skipped, interrupted or timed out. */
  predicate Partitioned(batch: seq<string>, s: Snapshot)
  {
    Accounted(s) <= multiset(batch) &&
    multiset(batch) <= Accounted(s) + multiset(s.interrupted) + multiset(s.timedOut)
  }

  /** Erasing `x` takes at most that one name out. */
  lemma RemoveFirstBound(xs: seq<string>, x: string)
    ensures multiset(RemoveFirst(xs, x)) <= multiset(xs) <= multiset(RemoveFirst(xs, x)) + multiset{x}
  {
    if x in xs {
      assert multiset(RemoveFirst(xs, x)) + multiset{x} == multiset(xs);
    }
  }

  lemma AddBound(a: multiset<string>, b: multiset<string>, others: multiset<string>, x: string)
    requires a <= b <= a + multiset{x}
    ensures a + others <= b + others <= a + others + multiset{x}
  {
  }

  /** Erasing `x` from remaining takes at most that one name out of the accounted ones. */
  lemma RetireBound(s: Snapshot, x: string)
    ensures var s' := s.(remaining := RemoveFirst(s.remaining, x));
            Accounted(s') <= Accounted(s) && Accounted(s) <= Accounted(s') + multiset{x}
  {
    var rest := RemoveFirst(s.remaining, x);
    var others := multiset(Names(s.completed)) + multiset(s.skipped);
    RemoveFirstBound(s.remaining, x);
    AddBound(multiset(rest), multiset(s.remaining), others, x);
    assert Accounted(s.(remaining := rest)) == multiset(rest) + others;
    assert Accounted(s) == multiset(s.remaining) + others;
  }

  lemma ExitCheckPartitioned(batch: seq<string>, s: Snapshot, o: Observation)
    requires Partitioned(batch, s)
    ensures Partitioned(batch, ExitCheck(s, o))
  {
    if Exited(o) && o.exitCode != 0 && s.timedOut == [] && s.current != [] {
      var x := s.current;
      RetireBound(s, x);
      var s' := s.(remaining := RemoveFirst(s.remaining, x));
      assert ExitCheck(s, o) == s'.(interrupted := s.interrupted + [x]);
      assert multiset(s.interrupted + [x]) == multiset(s.interrupted) + multiset{x};
      assert Accounted(ExitCheck(s, o)) == Accounted(s');
    }
  }

  lemma TimeoutCheckPartitioned(batch: seq<string>, s: Snapshot, o: Observation, timeout: int)
    requires Partitioned(batch, s)
    ensures Partitioned(batch, TimeoutCheck(s, o, timeout))
  {
    if TimeoutFires(s, o, timeout) {
      var x := s.current;
      RetireBound(s, x);
      var s' := s.(remaining := RemoveFirst(s.remaining, x));
      assert TimeoutCheck(s, o, timeout) == s'.(timedOut := s.timedOut + [x], current := []);
      assert multiset(s.timedOut + [x]) == multiset(s.timedOut) + multiset{x};
      assert Accounted(TimeoutCheck(s, o, timeout)) == Accounted(s');
    }
  }

  lemma PassPartitioned(batch: seq<string>, s: Snapshot, output: string, o: Observation, timeout: int)
    requires Partitioned(batch, s)
    ensures Partitioned(batch, Pass(s, output, o, timeout).state)
  {
    var s1 := ExitCheck(s, o);
    ExitCheckPartitioned(batch, s, o);
    var s2 := ParseAll(s1, Lines(output + o.chunk), o.parseTime);
    ParseAllConserves(s1, Lines(output + o.chunk), o.parseTime);
    TimeoutCheckPartitioned(batch, s2, o, timeout);
  }

  lemma {:induction false} RunPartitioned(batch: seq<string>, s: Snapshot, output: string, trace: seq<Observation>, timeout: int)
    requires Partitioned(batch, s)
    ensures Partitioned(batch, Run(s, output, trace, timeout).state)
    decreases trace
  {
    if trace != [] {
      PassPartitioned(batch, s, output, trace[0], timeout);
      var p := Pass(s, output, trace[0], timeout);
      if !p.stop {
        RunPartitioned(batch, p.state, p.output, trace[1..], timeout);
      }
    }
  }

  /** The buckets of a result and its remaining names are drawn from the batch, and cover it
      once the interrupted and timed-out names are added. */
  lemma ExecutePartition(batch: seq<string>, start: int, trace: seq<Observation>, tail: string, timeout: int)
    ensures var r := ExecuteSpec(batch, start, trace, tail, timeout);
            var kept := multiset(r.remainingTests) + multiset(Names(r.completeTests)) + multiset(r.skippedTests);
            kept <= multiset(batch) &&
            multiset(batch) <= kept + multiset(r.interruptedTests) + multiset(r.timedOutTests)
  {
    RunPartitioned(batch, Initial(batch, start), [], trace, timeout);
  }

  // ---------------------------------------------------------------------------
  // How the loop ends
  // ---------------------------------------------------------------------------

  /** A pass that does not break records nothing as interrupted or timed out. */
  lemma ContinuingPassRecordsNothing(s: Snapshot, output: string, o: Observation, timeout: int)
    requires !Pass(s, output, o, timeout).stop
    ensures Pass(s, output, o, timeout).state.interrupted == s.interrupted
    ensures Pass(s, output, o, timeout).state.timedOut == s.timedOut
  {
    var s1 := ExitCheck(s, o);
    ParseAllConserves(s1, Lines(output + o.chunk), o.parseTime);
  }

  /** The last pass appends at most one name to each of the two buckets. */
  lemma StoppingPassRecordsAtMostOne(s: Snapshot, output: string, o: Observation, timeout: int)
    ensures var r := Pass(s, output, o, timeout).state;
            s.interrupted <= r.interrupted && |r.interrupted| <= |s.interrupted| + 1 &&
            s.timedOut <= r.timedOut && |r.timedOut| <= |s.timedOut| + 1
  {
    var s1 := ExitCheck(s, o);
    ParseAllConserves(s1, Lines(output + o.chunk), o.parseTime);
  }

  lemma {:induction false} RunRecordsAtMostOne(s: Snapshot, output: string, trace: seq<Observation>, timeout: int)
    ensures var r := Run(s, output, trace, timeout).state;
            s.interrupted <= r.interrupted && |r.interrupted| <= |s.interrupted| + 1 &&
            s.timedOut <= r.timedOut && |r.timedOut| <= |s.timedOut| + 1
    decreases trace
  {
    if trace != [] {
      var p := Pass(s, output, trace[0], timeout);
      if p.stop {
        StoppingPassRecordsAtMostOne(s, output, trace[0], timeout);
      } else {
        ContinuingPassRecordsNothing(s, output, trace[0], timeout);
        RunRecordsAtMostOne(p.state, p.output, trace[1..], timeout);
      }
    }
  }

  /** A batch run interrupts at most one test and times out at most one test. */
  lemma AtMostOneInterruptedOrTimedOut(batch: seq<string>, start: int, trace: seq<Observation>, tail: string, timeout: int)
    ensures var r := ExecuteSpec(batch, start, trace, tail, timeout);
            |r.interruptedTests| <= 1 && |r.timedOutTests| <= 1
  {
    RunRecordsAtMostOne(Initial(batch, start), [], trace, timeout);
  }

  /** The exit check changes the snapshot exactly when the process exited with a non-zero
      code, nothing has timed out and a test is in flight; it then appends that test to the
      interrupted ones and erases one occurrence of it from the remaining names. Exit code 0
      or an empty current_test records nothing. */
  lemma ExitCheckEffect(s: Snapshot, o: Observation)
    ensures var r := ExitCheck(s, o);
            r.completed == s.completed && r.skipped == s.skipped && r.timedOut == s.timedOut &&
            r.current == s.current && r.startTime == s.startTime
    ensures ExitCheck(s, o) != s <==> Exited(o) && o.exitCode != 0 && s.timedOut == [] && s.current != []
    ensures ExitCheck(s, o) != s ==>
              ExitCheck(s, o).interrupted == s.interrupted + [s.current] &&
              multiset(ExitCheck(s, o).remaining) == multiset(s.remaining) - multiset{s.current}
  {
    if Exited(o) && o.exitCode != 0 && s.timedOut == [] && s.current != [] {
      assert |ExitCheck(s, o).interrupted| == |s.interrupted| + 1;
      RemoveFirstBound(s.remaining, s.current);
    }
  }

  /** The timeout check acts exactly when the test in flight is overdue: it is appended to
      the timed-out names, one occurrence of it leaves the remaining names, and the test in
      flight is cleared. */
  lemma TimeoutCheckEffect(s: Snapshot, o: Observation, timeout: int)
    ensures var r := TimeoutCheck(s, o, timeout);
            r.completed == s.completed && r.skipped == s.skipped && r.interrupted == s.interrupted
    ensures TimeoutCheck(s, o, timeout) != s <==> TimeoutFires(s, o, timeout)
    ensures TimeoutFires(s, o, timeout) ==>
              TimeoutCheck(s, o, timeout).timedOut == s.timedOut + [s.current] &&
              TimeoutCheck(s, o, timeout).current == [] &&
              multiset(TimeoutCheck(s, o, timeout).remaining) == multiset(s.remaining) - multiset{s.current}
  {
    if TimeoutFires(s, o, timeout) {
      assert |TimeoutCheck(s, o, timeout).timedOut| == |s.timedOut| + 1;
      RemoveFirstBound(s.remaining, s.current);
    }
  }

  /** The bytes read after the loop only lengthen the output: the buckets are those the
      loop left. */
  lemma TailNotParsed(batch: seq<string>, start: int, trace: seq<Observation>, tail: string, timeout: int)
    ensures ExecuteSpec(batch, start, trace, tail, timeout).(output := []) ==
            ExecuteSpec(batch, start, trace, [], timeout).(output := [])
    ensures ExecuteSpec(batch, start, trace, tail, timeout).output ==
            ExecuteSpec(batch, start, trace, [], timeout).output + tail
  {
    var f := Run(Initial(batch, start), [], trace, timeout);
    assert f.output + [] == f.output;
  }

  /** The loop breaks at the first pass that observes the exit (if it has not broken before),
      so observations after it are never looked at. */
  lemma {:induction false} RunIgnoresLaterObservations(s: Snapshot, output: string, trace: seq<Observation>, later: seq<Observation>, timeout: int)
    requires exists k :: 0 <= k < |trace| && Exited(trace[k])
    ensures Run(s, output, trace + later, timeout) == Run(s, output, trace, timeout)
    ensures Run(s, output, trace, timeout).stop
    decreases trace
  {
    assert (trace + later)[0] == trace[0];
    var p := Pass(s, output, trace[0], timeout);
    if !p.stop {
      assert !Exited(trace[0]);
      var k :| 0 <= k < |trace| && Exited(trace[k]);
      assert Exited(trace[1..][k - 1]);
      assert (trace + later)[1..] == trace[1..] + later;
      RunIgnoresLaterObservations(p.state, p.output, trace[1..], later, timeout);
    }
  }

  // ---------------------------------------------------------------------------
  // The timeout
  // ---------------------------------------------------------------------------

  /** Some line of `lines` is a RUN line. */
  predicate HasRun(lines: seq<string>)
  {
    exists k :: 0 <= k < |lines| && Classify(StripCR(lines[k])) == RunLine
  }

  /** A RUN line survives more output being appended: it may grow, but it keeps its marker. */
  lemma HasRunExtends(a: string, b: string)
    requires HasRun(Lines(a))
    ensures HasRun(Lines(a + b))
  {
    var k :| 0 <= k < |Lines(a)| && Classify(StripCR(Lines(a)[k])) == RunLine;
    LinesOfExtension(a, b, k);
    StripCRPrefix(Lines(a)[k], Lines(a + b)[k]);
    ContainsPrefix(StripCR(Lines(a)[k]), StripCR(Lines(a + b)[k]), RunMarker);
    assert Classify(StripCR(Lines(a + b)[k])) == RunLine;
  }

  /** A parse over lines holding a RUN line leaves start_time at the parse's clock reading,
      and current_test is only ever set by a RUN line. */
  lemma {:induction false} ParseAllClock(s: Snapshot, lines: seq<string>, now: int)
    ensures HasRun(lines) ==> ParseAll(s, lines, now).startTime == now
    ensures ParseAll(s, lines, now).current != [] ==> s.current != [] || HasRun(lines)
    ensures !HasRun(lines) ==> ParseAll(s, lines, now).startTime == s.startTime
    decreases lines
  {
    if lines != [] {
      var s' := ParseLine(s, lines[0], now);
      ParseLineEffect(s, lines[0], now);
      ParseAllClock(s', lines[1..], now);
      if HasRun(lines[1..]) {
        var k :| 0 <= k < |lines[1..]| && Classify(StripCR(lines[1..][k])) == RunLine;
        assert Classify(StripCR(lines[k + 1])) == RunLine;
      }
      if HasRun(lines) {
        var k :| 0 <= k < |lines| && Classify(StripCR(lines[k])) == RunLine;
        if k > 0 {
          assert lines[1..][k - 1] == lines[k];
          assert HasRun(lines[1..]);
        }
      }
    }
  }

  /** Between passes, a test in flight has its RUN line in the output read so far. */
  predicate Tracking(s: Snapshot, output: string)
  {
    s.current != [] ==> HasRun(Lines(output))
  }

  /** Because every pass re-parses the RUN line of the test in flight and restarts its clock,
      the timeout fires only when the parse and the check of that one pass are at least
      `timeout` seconds apart. */
  lemma PassTimeout(s: Snapshot, output: string, o: Observation, timeout: int)
    requires Tracking(s, output)
    ensures var s1 := ExitCheck(s, o);
            var s2 := ParseAll(s1, Lines(output + o.chunk), o.parseTime);
            TimeoutFires(s2, o, timeout) ==> ElapsedSeconds(o.parseTime, o.checkTime) >= timeout
    ensures Tracking(Pass(s, output, o, timeout).state, Pass(s, output, o, timeout).output)
  {
    var s1 := ExitCheck(s, o);
    var out := output + o.chunk;
    ParseAllClock(s1, Lines(out), o.parseTime);
    if s1.current != [] {
      HasRunExtends(output, o.chunk);
    }
  }

  lemma {:induction false} RunTimeout(s: Snapshot, output: string, trace: seq<Observation>, timeout: int)
    requires Tracking(s, output)
    ensures var r := Run(s, output, trace, timeout).state;
            |r.timedOut| > |s.timedOut| ==>
              exists k :: 0 <= k < |trace| && ElapsedSeconds(trace[k].parseTime, trace[k].checkTime) >= timeout
    decreases trace
  {
    if trace != [] {
      var o := trace[0];
      var p := Pass(s, output, o, timeout);
      PassTimeout(s, output, o, timeout);
      var s2 := ParseAll(ExitCheck(s, o), Lines(output + o.chunk), o.parseTime);
      ParseAllConserves(ExitCheck(s, o), Lines(output + o.chunk), o.parseTime);
      if p.stop {
        if |p.state.timedOut| > |s.timedOut| {
          assert TimeoutFires(s2, o, timeout);
        }
      } else {
        ContinuingPassRecordsNothing(s, output, o, timeout);
        RunTimeout(p.state, p.output, trace[1..], timeout);
        if |Run(p.state, p.output, trace[1..], timeout).state.timedOut| > |s.timedOut| {
          var k :| 0 <= k < |trace[1..]| && ElapsedSeconds(trace[1..][k].parseTime, trace[1..][k].checkTime) >= timeout;
          assert trace[k + 1] == trace[1..][k];
        }
      }
    }
  }

  /** The timeout branch is dead: when each pass parses and checks within the same second and
      the limit is at least one second, no test of the batch is ever timed out, however long
      it runs without printing. */
  lemma TimeoutNeverFires(batch: seq<string>, start: int, trace: seq<Observation>, tail: string, timeout: int)
    requires timeout >= 1
    requires forall k :: 0 <= k < |trace| ==> trace[k].parseTime <= trace[k].checkTime < trace[k].parseTime + NanosPerSecond
    ensures ExecuteSpec(batch, start, trace, tail, timeout).timedOutTests == []
  {
    RunTimeout(Initial(batch, start), [], trace, timeout);
  }

  // ---------------------------------------------------------------------------
  // The exit check runs before the drain
  // ---------------------------------------------------------------------------

  /** The exit check runs before this pass drains the pipe, so a crash is blamed on the test
      that was in flight at the end of the previous pass. That test is marked interrupted
      even when the output drained in the same pass shows it finished, and the pass never
      adds it to the completed tests. */
  lemma ExitBlamesPreviousTest(s: Snapshot, output: string, o: Observation, timeout: int)
    requires Exited(o) && o.exitCode != 0 && s.timedOut == [] && s.current != []
    requires NoDup(s.remaining)
    ensures var r := Pass(s, output, o, timeout);
            r.stop && r.state.interrupted == s.interrupted + [s.current] &&
            s.completed <= r.state.completed &&
            forall i :: |s.completed| <= i < |r.state.completed| ==> r.state.completed[i].0 != s.current
  {
    var s1 := ExitCheck(s, o);
    RemoveFirstNoDup(s.remaining, s.current);
    var lines := Lines(output + o.chunk);
    NeverCompletesAbsent(s1, lines, o.parseTime, s.current);
    ParseAllConserves(s1, lines, o.parseTime);
  }

  /** A crash already visible at the first poll records no interrupted test: current_test is
      still empty when the exit check runs. Unless the same pass times a test out, every
      name of the batch is then remaining, completed or skipped, so the crashing test is
      handed back for another batch. */
  lemma FirstPollCrashRecordsNothing(batch: seq<string>, start: int, o: Observation, rest: seq<Observation>, tail: string, timeout: int)
    requires Exited(o)
    ensures var r := ExecuteSpec(batch, start, [o] + rest, tail, timeout);
            r.interruptedTests == [] &&
            (r.timedOutTests == [] ==>
              multiset(r.remainingTests) + multiset(Names(r.completeTests)) + multiset(r.skippedTests) == multiset(batch))
  {
    var s := Initial(batch, start);
    var lines := Lines(o.chunk);
    assert [] + o.chunk == o.chunk;
    ParseAllConserves(s, lines, o.parseTime);
    assert ([o] + rest)[0] == o;
  }

  /** The count of names a snapshot holds, over all five lists. */
  function Total(s: Snapshot): nat
  {
    |s.remaining| + |s.completed| + |s.skipped| + |s.timedOut| + |s.interrupted|
  }

  lemma ParseAllKeepsTotal(s: Snapshot, lines: seq<string>, now: int)
    ensures Total(ParseAll(s, lines, now)) == Total(s)
  {
    var r := ParseAll(s, lines, now);
    ParseAllConserves(s, lines, now);
    assert |Accounted(r)| == |Accounted(s)|;
  }

  /** When the name in flight is not a remaining name (a RUN line for a test outside the
      batch, or one cut short by the pipe, such as `Fo` of `Foo`), a crash still records it:
      the names held grow by one, so the resolved count added to `completed_` plus the
      names handed back for another batch exceed what the batch held. */
  lemma ExitOfAbsentNameOvercounts(s: Snapshot, output: string, o: Observation, timeout: int)
    requires Exited(o) && o.exitCode != 0 && s.timedOut == [] && s.current != []
    requires s.current !in s.remaining
    requires !TimeoutFires(ParseAll(ExitCheck(s, o), Lines(output + o.chunk), o.parseTime), o, timeout)
    ensures Total(Pass(s, output, o, timeout).state) == Total(s) + 1
  {
    ParseAllKeepsTotal(ExitCheck(s, o), Lines(output + o.chunk), o.parseTime);
  }

  // ---------------------------------------------------------------------------
  // A test whose RUN line is never read
  // ---------------------------------------------------------------------------

  /** No RUN line among `lines` names `x`. */
  predicate NoRunOf(lines: seq<string>, x: string)
  {
    forall k :: 0 <= k < |lines| && Classify(StripCR(lines[k])) == RunLine ==> RunName(StripCR(lines[k])) != x
  }

  /** The output every pass of `trace` parses, from `output` on, holds no RUN line for `x`. */
  predicate NeverStarted(x: string, output: string, trace: seq<Observation>)
    decreases trace
  {
    trace == [] ||
    (NoRunOf(Lines(output + trace[0].chunk), x) && NeverStarted(x, output + trace[0].chunk, trace[1..]))
  }

  /** `x`, a name, is not in flight and in none of the four buckets. */
  predicate Untouched(s: Snapshot, x: string)
  {
    x != [] && s.current != x && x !in Names(s.completed) && x !in s.skipped && x !in s.timedOut && x !in s.interrupted
  }

  lemma ParseLineUntouched(s: Snapshot, raw: string, now: int, x: string)
    requires Untouched(s, x)
    requires Classify(StripCR(raw)) == RunLine ==> RunName(StripCR(raw)) != x
    ensures Untouched(ParseLine(s, raw, now), x)
    ensures multiset(ParseLine(s, raw, now).remaining)[x] == multiset(s.remaining)[x]
  {
    NamesSnoc(s.completed, (s.current, EndStatus(StripCR(raw))));
  }

  lemma {:induction false} ParseAllUntouched(s: Snapshot, lines: seq<string>, now: int, x: string)
    requires Untouched(s, x) && NoRunOf(lines, x)
    ensures Untouched(ParseAll(s, lines, now), x)
    ensures multiset(ParseAll(s, lines, now).remaining)[x] == multiset(s.remaining)[x]
    decreases lines
  {
    if lines != [] {
      ParseLineUntouched(s, lines[0], now, x);
      assert NoRunOf(lines[1..], x) by {
        forall k | 0 <= k < |lines[1..]| ensures lines[1..][k] == lines[k + 1] { }
      }
      ParseAllUntouched(ParseLine(s, lines[0], now), lines[1..], now, x);
    }
  }

  /** Erasing another name keeps every occurrence of `x`. */
  lemma RemoveOtherKeeps(xs: seq<string>, y: string, x: string)
    requires y != x
    ensures multiset(RemoveFirst(xs, y))[x] == multiset(xs)[x]
  {
  }

  lemma ExitCheckUntouched(s: Snapshot, o: Observation, x: string)
    requires Untouched(s, x)
    ensures Untouched(ExitCheck(s, o), x)
    ensures multiset(ExitCheck(s, o).remaining)[x] == multiset(s.remaining)[x]
  {
    RemoveOtherKeeps(s.remaining, s.current, x);
  }

  lemma TimeoutCheckUntouched(s: Snapshot, o: Observation, timeout: int, x: string)
    requires Untouched(s, x)
    ensures Untouched(TimeoutCheck(s, o, timeout), x)
    ensures multiset(TimeoutCheck(s, o, timeout).remaining)[x] == multiset(s.remaining)[x]
  {
    RemoveOtherKeeps(s.remaining, s.current, x);
  }

  lemma PassUntouched(s: Snapshot, output: string, o: Observation, timeout: int, x: string)
    requires Untouched(s, x) && NoRunOf(Lines(output + o.chunk), x)
    ensures Untouched(Pass(s, output, o, timeout).state, x)
    ensures multiset(Pass(s, output, o, timeout).state.remaining)[x] == multiset(s.remaining)[x]
  {
    var s1 := ExitCheck(s, o);
    ExitCheckUntouched(s, o, x);
    var s2 := ParseAll(s1, Lines(output + o.chunk), o.parseTime);
    ParseAllUntouched(s1, Lines(output + o.chunk), o.parseTime, x);
    TimeoutCheckUntouched(s2, o, timeout, x);
  }

  lemma {:induction false} RunUntouched(s: Snapshot, output: string, trace: seq<Observation>, timeout: int, x: string)
    requires Untouched(s, x) && NeverStarted(x, output, trace)
    ensures Untouched(Run(s, output, trace, timeout).state, x)
    ensures multiset(Run(s, output, trace, timeout).state.remaining)[x] == multiset(s.remaining)[x]
    decreases trace
  {
    if trace != [] {
      PassUntouched(s, output, trace[0], timeout, x);
      var p := Pass(s, output, trace[0], timeout);
      if !p.stop {
        RunUntouched(p.state, p.output, trace[1..], timeout, x);
      }
    }
  }

  /** A batch name whose RUN line no pass reads keeps every occurrence in the remaining
      names and lands in no bucket: it is handed back for another batch. */
  lemma NeverStartedStaysRemaining(batch: seq<string>, start: int, trace: seq<Observation>, tail: string, timeout: int, x: string)
    requires x != [] && NeverStarted(x, [], trace)
    ensures var r := ExecuteSpec(batch, start, trace, tail, timeout);
            multiset(r.remainingTests)[x] == multiset(batch)[x] &&
            x !in Names(r.completeTests) && x !in r.skippedTests && x !in r.timedOutTests && x !in r.interruptedTests
  {
    RunUntouched(Initial(batch, start), [], trace, timeout, x);
  }

  /** The RUN line GoogleTest prints for `name`. */
  function RunLineFor(name: string): string
  {
    RunMarker + " " + name
  }

  /** The RUN line for `name`, alone or ended by '\n', is read as one line, and the parse
      takes it as the start of `name`. */
  lemma ReadRunLine(s: Snapshot, name: string, now: int)
    requires name != [] && name[|name| - 1] != '\r' && '\n' !in name
    ensures Lines(RunLineFor(name)) == [RunLineFor(name)]
    ensures Lines(RunLineFor(name) + "\n") == [RunLineFor(name)]
    ensures ParseAll(s, [RunLineFor(name)], now) == s.(current := name, startTime := now)
  {
    var l := RunLineFor(name);
    assert '\n' !in RunMarker + " ";
    assert '\n' !in l;
    LinesSingle(l);
    LinesCons(l, []);
    assert l + "\n" == l + "\n" + [];
    assert l[|l| - 1] == name[|name| - 1];
    assert l[..|RunMarker|] == RunMarker;
    assert Classify(StripCR(l)) == RunLine;
    assert l[13..] == name;
    var single: seq<string> := [l];
    assert single[1..] == [];
  }

  lemma ReadEndedRunLine(s: Snapshot, name: string, now: int)
    requires ReadableName(name)
    ensures ParseAll(s, Lines(RunLineFor(name) + "\n"), now) == s.(current := name, startTime := now)
  {
    ReadRunLine(s, name, now);
  }

  /** A name the parse can read back from its RUN line. */
  predicate ReadableName(name: string)
  {
    name != [] && name[|name| - 1] != '\r' && '\n' !in name
  }

  /** A pass whose parse leaves no test overdue stops exactly when it observes the exit. */
  lemma PassWithoutTimeout(s: Snapshot, output: string, o: Observation, timeout: int, s2: Snapshot)
    requires ParseAll(ExitCheck(s, o), Lines(output + o.chunk), o.parseTime) == s2
    requires !TimeoutFires(s2, o, timeout)
    ensures Pass(s, output, o, timeout) == Step(s2, output + o.chunk, Exited(o))
  {
  }

  /** The first pass reads the RUN line of `a + c`, cut after `a`, as the start of `a`. */
  lemma PartialFirstPass(s0: Snapshot, a: string, o1: Observation, timeout: int)
    requires ReadableName(a) && timeout >= 1
    requires o1 == Observation(true, StillActive, RunLineFor(a), o1.parseTime, o1.parseTime)
    ensures Pass(s0, [], o1, timeout) == Step(s0.(current := a, startTime := o1.parseTime), RunLineFor(a), false)
  {
    ReadRunLine(s0, a, o1.parseTime);
    assert [] + o1.chunk == RunLineFor(a);
    PassWithoutTimeout(s0, [], o1, timeout, s0.(current := a, startTime := o1.parseTime));
  }

  lemma RunLineRest(a: string, c: string)
    ensures RunLineFor(a) + (c + "\n") == RunLineFor(a + c) + "\n"
  {
  }

  lemma CrashOfFirst(s1: Snapshot, a: string, c: string, o2: Observation)
    requires a != [] && s1.current == a && s1.timedOut == [] && s1.remaining == [a, a + c]
    requires Exited(o2) && o2.exitCode != 0
    ensures ExitCheck(s1, o2) == s1.(interrupted := s1.interrupted + [a], remaining := [a + c])
  {
    assert [a, a + c][1..] == [a + c];
  }

  /** The second pass sees the crash before it reads the rest of the line. */
  lemma PartialSecondPass(s1: Snapshot, a: string, c: string, o2: Observation, timeout: int)
    requires ReadableName(a) && ReadableName(a + c) && timeout >= 1
    requires s1.current == a && s1.timedOut == [] && s1.remaining == [a, a + c]
    requires o2 == Observation(true, o2.exitCode, c + "\n", o2.parseTime, o2.parseTime)
    requires o2.exitCode != 0 && o2.exitCode != StillActive
    ensures Pass(s1, RunLineFor(a), o2, timeout) ==
            Step(s1.(interrupted := s1.interrupted + [a], remaining := [a + c], current := a + c,
                     startTime := o2.parseTime),
                 RunLineFor(a + c) + "\n", true)
  {
    var s3 := s1.(interrupted := s1.interrupted + [a], remaining := [a + c], current := a + c,
                  startTime := o2.parseTime);
    SecondPassParse(s1, a, c, o2.exitCode, o2.parseTime);
    assert ElapsedSeconds(o2.parseTime, o2.checkTime) == 0;
    PassWithoutTimeout(s1, RunLineFor(a), o2, timeout, s3);
    RunLineRest(a, c);
  }

  /** After the crash is blamed on `a`, the parse reads the completed RUN line of `a + c`. */
  lemma SecondPassParse(s1: Snapshot, a: string, c: string, code: int, now: int)
    requires ReadableName(a) && ReadableName(a + c)
    requires s1.current == a && s1.timedOut == [] && s1.remaining == [a, a + c]
    requires code != 0 && code != StillActive
    ensures ParseAll(ExitCheck(s1, Observation(true, code, c + "\n", now, now)), Lines(RunLineFor(a) + (c + "\n")), now) ==
            s1.(interrupted := s1.interrupted + [a], remaining := [a + c], current := a + c, startTime := now)
  {
    var o := Observation(true, code, c + "\n", now, now);
    var s2 := s1.(interrupted := s1.interrupted + [a], remaining := [a + c]);
    CrashOfFirst(s1, a, c, o);
    RunLineRest(a, c);
    ReadEndedRunLine(s2, a + c, now);
    ParseRewrite(ExitCheck(s1, o), s2, RunLineFor(a) + (c + "\n"), RunLineFor(a + c) + "\n", now);
  }

  lemma ParseRewrite(x: Snapshot, y: Snapshot, u: string, v: string, now: int)
    requires x == y && u == v
    ensures ParseAll(x, Lines(u), now) == ParseAll(y, Lines(v), now)
  {
  }

  /** A RUN line cut short by the pipe is read as the name of another test. When the first
      pass reads the RUN line of `a + c` only up to `a`, and the process crashes before the
      next pass, the crash is blamed on `a`, which never ran, while `a + c`, the test that
      crashed, is handed back as remaining. */
  lemma PartialRunLineBlamesWrongTest(a: string, c: string, code: int, t1: int, t2: int, timeout: int)
    requires ReadableName(a) && ReadableName(a + c) && c != []
    requires code != 0 && code != StillActive && timeout >= 1
    ensures var o1 := Observation(true, StillActive, RunLineFor(a), t1, t1);
            var o2 := Observation(true, code, c + "\n", t2, t2);
            var r := ExecuteSpec([a, a + c], 0, [o1, o2], [], timeout);
            r.interruptedTests == [a] && r.remainingTests == [a + c] && r.completeTests == []
  {
    var o1 := Observation(true, StillActive, RunLineFor(a), t1, t1);
    var o2 := Observation(true, code, c + "\n", t2, t2);
    var s0 := Initial([a, a + c], 0);
    var s1 := s0.(current := a, startTime := t1);
    PartialFirstPass(s0, a, o1, timeout);
    PartialSecondPass(s1, a, c, o2, timeout);
    var p2 := Pass(s1, RunLineFor(a), o2, timeout);
    assert [o1, o2][1..] == [o2];
    calc {
      Run(s0, [], [o1, o2], timeout);
      Run(s1, RunLineFor(a), [o2], timeout);
      p2;
    }
  }
}
