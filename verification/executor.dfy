/**
 * TestExecutor (src/TestExecutor.cpp) as imperative code: the command line built for a
 * batch, the poll loop of ExecuteTest over the observation trace that stands for the
 * child process, and the job SubmitTestBatch hands to the thread pool, which counts and
 * writes what a run resolved and hands back the names still to run.
 */
module Executor {
  import opened Text
  import opened Execution
  import Preprocess
  import ResultWriter

  // ---------------------------------------------------------------------------
  // BuildCommand
  // ---------------------------------------------------------------------------

  const FilterFlag: string := " --gtest_filter="

  /** The value of --gtest_filter for a batch: every name followed by ':'. */
  function Filter(names: seq<string>): (r: string)
    ensures r == [] <==> names == []
    ensures names != [] ==> r[|r| - 1] == ':'
    ensures |r| >= |names|
  {
    if names == [] then [] else names[0] + ":" + Filter(names[1..])
  }

  /** The for loop over the names, then the executable path and the flag in front. */
  method BuildCommand(exePath: string, names: seq<string>) returns (cmd: string)
    ensures cmd == exePath + FilterFlag + Filter(names)
  {
    var filter := "";
    for i := 0 to |names|
      invariant filter + Filter(names[i..]) == Filter(names)
    {
      FilterStep(filter, names, i);
      filter := filter + names[i] + ":";
    }
    assert names[|names|..] == [];
    cmd := exePath + FilterFlag + filter;
  }


  lemma FilterStep(filter: string, names: seq<string>, i: nat)
    requires i < |names|
    ensures filter + Filter(names[i..]) == filter + names[i] + ":" + Filter(names[i + 1..])
  {
    assert names[i..][1..] == names[i + 1..];
  }

  /** Cutting the filter at its ':' separators, as GenerateFilters does with a
      --gtest_filter value, gives back the batch, for names without a ':'. */
  lemma {:induction false} FilterSegments(names: seq<string>)
    requires forall k :: 0 <= k < |names| ==> ':' !in names[k]
    ensures Preprocess.Segments(Filter(names)) == names
    ensures Preprocess.Filters(Filter(names)) == Preprocess.Patterns(names)
  {
    if names != [] {
      var rest := Filter(names[1..]);
      assert Filter(names) == names[0] + ":" + rest;
      Preprocess.SegmentsOfCons(names[0], rest);
      FilterSegments(names[1..]);
      assert [names[0]] + names[1..] == names;
    }
  }

  // ---------------------------------------------------------------------------
  // ExecuteTest
  // ---------------------------------------------------------------------------

  /** A line the parse can read without undefined behaviour: it is not empty (the '\r'
      test reads its last character) and a RUN line is long enough for `substr(13)`. */
  predicate ParsableLine(line: string)
  {
    line != [] && (Contains(StripCR(line), RunMarker) ==> |StripCR(line)| >= 13)
  }

  predicate Parsable(output: string)
  {
    forall k :: 0 <= k < |Lines(output)| ==> ParsableLine(Lines(output)[k])
  }

  /** The output accumulated after the passes that made the observations in `trace`. */
  function Drained(trace: seq<Observation>): string
  {
    if trace == [] then [] else Drained(trace[..|trace| - 1]) + trace[|trace| - 1].chunk
  }

  /** One iteration of the getline loop: strip the '\r', then the else-if chain. */
  method ParseOneLine(s: Snapshot, raw: string, now: int) returns (s': Snapshot)
    requires ParsableLine(raw)
    ensures s' == ParseLine(s, raw, now)
  {
    var line := raw;
    if line[|line| - 1] == '\r' {
      line := line[..|line| - 1];
    }
    s' := s;
    if Contains(line, RunMarker) {
      s' := s'.(current := line[13..], startTime := now);
    } else if Contains(line, OkMarker) || Contains(line, FailedMarker) {
      if s'.current != [] {
        if s'.current in s'.remaining {
          var status := if Contains(line, OkMarker) then "Passed" else "Failed";
          s' := s'.(completed := s'.completed + [(s'.current, status)],
                    remaining := RemoveFirst(s'.remaining, s'.current));
        }
      }
      s' := s'.(current := []);
    } else if Contains(line, SkippedMarker) {
      if s'.current != [] {
        if s'.current in s'.remaining {
          s' := s'.(skipped := s'.skipped + [s'.current],
                    remaining := RemoveFirst(s'.remaining, s'.current));
        }
      }
      s' := s'.(current := []);
    }
  }

  /** The getline loop over the whole output read so far, with the clock reading `now`. */
  method ParseOutput(s: Snapshot, output: string, now: int) returns (s': Snapshot)
    requires Parsable(output)
    ensures s' == ParseAll(s, Lines(output), now)
  {
    var lines := Lines(output);
    s' := s;
    for i := 0 to |lines|
      invariant ParseAll(s', lines[i..], now) == ParseAll(s, lines, now)
    {
      assert lines[i..][1..] == lines[i + 1..];
      s' := ParseOneLine(s', lines[i], now);
    }
    assert lines[|lines|..] == [];
  }

  /** One pass of the `while(true)` loop: the exit check, the drain, the parse, the
      timeout check; `stop` is whether the loop breaks. */
  method Poll(s: Snapshot, output: string, o: Observation, timeout: int)
    returns (s': Snapshot, output': string, stop: bool)
    requires Parsable(output + o.chunk)
    ensures Step(s', output', stop) == Pass(s, output, o, timeout)
  {
    s' := s;
    var processExited := false;
    if o.queried && o.exitCode != StillActive {
      processExited := true;
      if o.exitCode != 0 && s'.timedOut == [] {
        if s'.current != [] {
          s' := s'.(interrupted := s'.interrupted + [s'.current],
                    remaining := RemoveFirst(s'.remaining, s'.current));
        }
      }
    }
    output' := output + o.chunk;
    s' := ParseOutput(s', output', o.parseTime);
    stop := false;
    if s'.current != [] {
      var elapsed := ElapsedSeconds(s'.startTime, o.checkTime);
      if elapsed >= timeout {
        s' := s'.(timedOut := s'.timedOut + [s'.current],
                  remaining := RemoveFirst(s'.remaining, s'.current), current := []);
        stop := true;
      }
    }
    if processExited {
      stop := true;
    }
  }

  /** The output accumulated over one more pass. */
  lemma DrainedSnoc(trace: seq<Observation>, k: nat)
    requires k < |trace|
    ensures Drained(trace[..k + 1]) == Drained(trace[..k]) + trace[k].chunk
  {
    assert trace[..k + 1][..k] == trace[..k];
  }

  /** The poll loop continues where the passes already made left it. */
  lemma RunContinues(s: Snapshot, output: string, trace: seq<Observation>, k: nat, timeout: int)
    requires k < |trace|
    requires !Pass(s, output, trace[k], timeout).stop
    ensures var p := Pass(s, output, trace[k], timeout);
            Run(s, output, trace[k..], timeout) == Run(p.state, p.output, trace[k + 1..], timeout)
  {
    assert trace[k..][1..] == trace[k + 1..];
  }

  /** The poll loop ends with the pass that breaks. */
  lemma RunStops(s: Snapshot, output: string, trace: seq<Observation>, k: nat, timeout: int)
    requires k < |trace|
    requires Pass(s, output, trace[k], timeout).stop
    ensures Run(s, output, trace[k..], timeout) == Pass(s, output, trace[k], timeout)
  {
  }

  /** One pass of the loop keeps the loop's invariant: the output grows by the pass's bytes,
      and the rest of the loop is the pass that breaks or the loop over the observations
      after it, which still hold an observation of the exit. */
  lemma PollAdvances(spec: Step, s0: Snapshot, output0: string, trace: seq<Observation>, k: nat,
                     timeout: int, s: Snapshot, output: string, stop: bool)
    requires k < |trace| && output0 == Drained(trace[..k])
    requires exists j :: k <= j < |trace| && Exited(trace[j])
    requires Run(s0, output0, trace[k..], timeout) == spec
    requires Step(s, output, stop) == Pass(s0, output0, trace[k], timeout)
    ensures output == Drained(trace[..k + 1])
    ensures stop ==> Step(s, output, true) == spec
    ensures !stop ==> Run(s, output, trace[k + 1..], timeout) == spec
    ensures !stop ==> exists j :: k + 1 <= j < |trace| && Exited(trace[j])
  {
    DrainedSnoc(trace, k);
    if stop {
      RunStops(s0, output0, trace, k, timeout);
    } else {
      RunContinues(s0, output0, trace, k, timeout);
      var j :| k <= j < |trace| && Exited(trace[j]);
      assert k != j;
    }
  }

  /** ExecuteTest after the process was created: the poll loop over the trace, then the
      bytes read after the loop appended to the output. A failed CreateProcessA throws;
      that is the None result. The trace has to hold an observation of the exit, since
      without one the loop only ends through the timeout, and every output the loop
      parses has to be free of the inputs on which the parse is undefined. */
  method ExecuteTest(batch: seq<string>, start: int, trace: seq<Observation>, tail: string,
                     timeout: int, spawned: bool)
    returns (r: Option<ExecuteResult>)
    requires exists j :: 0 <= j < |trace| && Exited(trace[j])
    requires forall k :: 0 < k <= |trace| ==> Parsable(Drained(trace[..k]))
    ensures r == if spawned then Some(ExecuteSpec(batch, start, trace, tail, timeout)) else None
  {
    if !spawned {
      return None;
    }
    var s := Initial(batch, start);
    var output := "";
    var k := 0;
    var stop := false;
    ghost var spec := Run(s, output, trace, timeout);
    assert trace[..0] == [];
    assert trace[0..] == trace;
    while !stop
      invariant 0 <= k <= |trace|
      invariant output == Drained(trace[..k])
      invariant !stop ==> exists j :: k <= j < |trace| && Exited(trace[j])
      invariant !stop ==> Run(s, output, trace[k..], timeout) == spec
      invariant stop ==> Step(s, output, true) == spec
      decreases |trace| - k
    {
      DrainedSnoc(trace, k);
      assert Parsable(output + trace[k].chunk);
      var s0, output0 := s, output;
      s, output, stop := Poll(s, output, trace[k], timeout);
      PollAdvances(spec, s0, output0, trace, k, timeout, s, output, stop);
      k := k + 1;
    }
    output := output + tail;
    r := Some(ExecuteResult(0, output, s.completed, s.skipped, s.timedOut, s.remaining, s.interrupted));
  }

  // ---------------------------------------------------------------------------
  // The job SubmitTestBatch enqueues
  // ---------------------------------------------------------------------------

  /** The lambda SubmitTestBatch hands to the pool, for one batch: build the command, run
      it, add the number of resolved names to the writer's counter, write the result, and
      return the names to resubmit as a new batch, if any. When the process cannot be
      created the exception ends the job: nothing is counted or written and nothing is
      resubmitted. */
  method RunBatch(writer: ResultWriter.ResultWriter, exePath: string, batch: seq<string>,
                  start: int, trace: seq<Observation>, tail: string, timeout: int, spawned: bool)
    returns (cmd: string, next: Option<seq<string>>)
    requires exists j :: 0 <= j < |trace| && Exited(trace[j])
    requires forall k :: 0 < k <= |trace| ==> Parsable(Drained(trace[..k]))
    modifies writer
    ensures cmd == exePath + FilterFlag + Filter(batch)
    ensures var res := ExecuteSpec(batch, start, trace, tail, timeout);
            if spawned then
              writer.completed == old(writer.completed) + Resolved(res) &&
              writer.lines == old(writer.lines) + ResultWriter.FormatResult(res) &&
              next == (if res.remainingTests != [] then Some(res.remainingTests) else None)
            else
              writer.completed == old(writer.completed) && writer.lines == old(writer.lines) &&
              next == None
    ensures writer.completed - old(writer.completed) == |writer.lines| - |old(writer.lines)|
  {
    cmd := BuildCommand(exePath, batch);
    var result := ExecuteTest(batch, start, trace, tail, timeout, spawned);
    if result.None? {
      return cmd, None;
    }
    var res := result.value;
    writer.completed := writer.completed + (|res.completeTests| + |res.timedOutTests| +
                                             |res.skippedTests| + |res.interruptedTests|);
    writer.AddResult(res);

    next := if res.remainingTests != [] then Some(res.remainingTests) else None;
  }
}
