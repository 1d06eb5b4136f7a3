/**
 * The discovery side of the runner (src/TestPreprocess.cpp): turning the
 * `--gtest_list_tests` listing into `Suite.Case` names, and splitting a
 * `:`-separated wildcard filter into anchored regular-expression strings.
 * Running the binary and compiling or matching the expressions are not modelled.
 */
module Preprocess {
  import opened Text

  // ---------------------------------------------------------------------------
  // ParseTestOutput
  // ---------------------------------------------------------------------------

  /** `line.find('.') == line.size() - 1`: the first '.' is the last character.
      The empty line passes as well, because size() - 1 wraps round to npos. */
  predicate IsSuiteLine(line: string)
  {
    line == [] || FindFrom(line, '.', 0) == |line| - 1
  }

  /** find_first_not_of(" ") from `from`, with npos written as |s|. */
  function FirstNonSpace(s: string, from: nat): (i: nat)
    requires from <= |s|
    ensures from <= i <= |s|
    ensures i < |s| ==> s[i] != ' '
    ensures forall j :: from <= j < i ==> s[j] == ' '
    decreases |s| - from
  {
    if from == |s| then |s| else if s[from] != ' ' then from else FirstNonSpace(s, from + 1)
  }

  /** The variables of the getline loop: the names found so far and `current_suite`. */
  datatype ListState = ListState(tests: seq<string>, suite: string)

  /** One pass of the getline loop. */
  function ListStep(st: ListState, line: string): (r: ListState)
    ensures st.tests <= r.tests && |r.tests| <= |st.tests| + 1
    ensures IsSuiteLine(line) || st.suite == [] ==> r.tests == st.tests
    ensures line == [] ==> r.suite == []
    ensures r.tests != st.tests ==> r.suite == st.suite
  {
    if IsSuiteLine(line) then
      st.(suite := if line == [] then [] else line[..|line| - 1])
    else if st.suite != [] then
      var start := FirstNonSpace(line, 0);
      if start < |line| then st.(tests := st.tests + [st.suite + "." + line[start..]]) else st
    else
      st
  }

  /** A suite line keeps or resets the suite and adds nothing; any other line leaves the
      suite alone and adds `suite.rest` exactly when a suite is open and the line has a
      character other than a space, `rest` being the line from that character on. */
  lemma ListStepCases(st: ListState, line: string)
    ensures IsSuiteLine(line) ==> ListStep(st, line).tests == st.tests
    ensures !IsSuiteLine(line) ==> ListStep(st, line).suite == st.suite
    ensures ListStep(st, line).tests != st.tests <==>
              !IsSuiteLine(line) && st.suite != [] && exists j :: 0 <= j < |line| && line[j] != ' '
    ensures ListStep(st, line).tests != st.tests ==>
              ListStep(st, line).tests == st.tests + [st.suite + "." + line[FirstNonSpace(line, 0)..]]
  {
    var start := FirstNonSpace(line, 0);
    if start < |line| {
      assert line[start] != ' ';
    }
  }

  /** The getline loop run over `lines` from state `st`. */
  function ListFrom(st: ListState, lines: seq<string>): ListState
    decreases lines
  {
    if lines == [] then st else ListFrom(ListStep(st, lines[0]), lines[1..])
  }

  /** What ParseTestOutput returns for `output`. */
  function ParseTests(output: string): seq<string>
  {
    ListFrom(ListState([], []), Lines(output)).tests
  }

  method ParseTestOutput(output: string) returns (tests: seq<string>)
    ensures tests == ParseTests(output)
  {
    tests := [];
    var currentSuite: string := [];
    var lines := Lines(output);
    var i := 0;
    while i < |lines|
      invariant 0 <= i <= |lines|
      invariant ListFrom(ListState(tests, currentSuite), lines[i..]) == ListFrom(ListState([], []), lines)
    {
      var line := lines[i];
      if IsSuiteLine(line) {
        currentSuite := if line == [] then [] else line[..|line| - 1];
      } else if currentSuite != [] {
        var start := FirstNonSpace(line, 0);
        if start < |line| {
          tests := tests + [currentSuite + "." + line[start..]];
        }
      }
      assert lines[i..][1..] == lines[i + 1..];
      i := i + 1;
    }
  }

  /** At most one name per line of the listing. */
  lemma {:induction false} ListFromCount(st: ListState, lines: seq<string>)
    ensures st.tests <= ListFrom(st, lines).tests
    ensures |ListFrom(st, lines).tests| <= |st.tests| + |lines|
    decreases lines
  {
    if lines != [] {
      ListFromCount(ListStep(st, lines[0]), lines[1..]);
    }
  }

  lemma ParseTestsCount(output: string)
    ensures |ParseTests(output)| <= |Lines(output)|
  {
    ListFromCount(ListState([], []), Lines(output));
  }

  /** A suite name taken from a suite line has no '.' in it. */
  lemma SuiteHasNoDot(line: string)
    requires IsSuiteLine(line) && line != []
    ensures '.' !in line[..|line| - 1]
  {
    FindFromFirst(line, '.', 0);
    assert forall j :: 0 <= j < |line| - 1 ==> line[..|line| - 1][j] == line[j];
  }

  /** A name the parser emits splits at its first '.' into a non-empty suite and a
      non-empty case that does not start with a space. */
  predicate SplitsAsListed(name: string)
  {
    var i := FindFrom(name, '.', 0);
    0 < i < |name| - 1 && name[i + 1] != ' '
  }

  lemma {:induction false} ListFromNames(st: ListState, lines: seq<string>)
    requires '.' !in st.suite
    requires forall k :: 0 <= k < |st.tests| ==> SplitsAsListed(st.tests[k])
    ensures forall k :: 0 <= k < |ListFrom(st, lines).tests| ==> SplitsAsListed(ListFrom(st, lines).tests[k])
    decreases lines
  {
    if lines != [] {
      var st' := ListStep(st, lines[0]);
      var line := lines[0];
      if IsSuiteLine(line) && line != [] {
        SuiteHasNoDot(line);
      }
      if st'.tests != st.tests {
        var start := FirstNonSpace(line, 0);
        var name := st.suite + "." + line[start..];
        assert st'.tests == st.tests + [name];
        var i := FindFrom(name, '.', 0);
        FindFromFirst(name, '.', 0);
        assert name[|st.suite|] == '.';
        assert forall j :: 0 <= j < |st.suite| ==> name[j] == st.suite[j];
        assert i == |st.suite|;
        assert start < |line|;
        assert name[i + 1] == line[start];
        assert SplitsAsListed(name);
      }
      assert ListFrom(st, lines) == ListFrom(st', lines[1..]);
      ListFromNames(st', lines[1..]);
    } else {
      assert ListFrom(st, lines) == st;
    }
  }

  /** Line `k` of the listing is a non-empty suite line, and no suite line follows it
      before line `i`: the suite it opens is still current at line `i`. */
  predicate SuiteOpenAt(lines: seq<string>, k: int, i: int)
  {
    0 <= k < i <= |lines| && lines[k] != [] && IsSuiteLine(lines[k]) &&
    forall m :: k < m < i ==> !IsSuiteLine(lines[m])
  }

  /** `name` is what line `j` adds under the suite line `k`: the suite line without its
      '.', a '.', and line `j` from its first character other than a space. */
  predicate ListedAt(lines: seq<string>, k: int, j: int, name: string)
  {
    k < j && SuiteOpenAt(lines, k, j + 1) && FirstNonSpace(lines[j], 0) < |lines[j]| &&
    name == lines[k][..|lines[k]| - 1] + "." + lines[j][FirstNonSpace(lines[j], 0)..]
  }

  /** `name` is added by some case line before line `i`. */
  ghost predicate Listed(lines: seq<string>, i: int, name: string)
  {
    exists k, j :: 0 <= k < j < i && ListedAt(lines, k, j, name)
  }

  /** What the getline loop knows after reading the first `i` lines: the open suite, if any,
      is taken from the last suite line so far, and every name is listed before line `i`. */
  ghost predicate ListInvariant(lines: seq<string>, i: int, st: ListState)
  {
    (st.suite == [] || exists k :: SuiteOpenAt(lines, k, i) && st.suite == lines[k][..|lines[k]| - 1]) &&
    forall n :: 0 <= n < |st.tests| ==> Listed(lines, i, st.tests[n])
  }

  lemma ListedLater(lines: seq<string>, i: int, name: string)
    requires i < |lines| && Listed(lines, i, name)
    ensures Listed(lines, i + 1, name)
  {
    var k, j :| 0 <= k < j < i && ListedAt(lines, k, j, name);
    assert 0 <= k < j < i + 1 && ListedAt(lines, k, j, name);
  }

  /** Reading line `i` keeps the invariant. */
  lemma ListStepOrigin(lines: seq<string>, i: int, st: ListState)
    requires 0 <= i < |lines| && ListInvariant(lines, i, st)
    ensures ListInvariant(lines, i + 1, ListStep(st, lines[i]))
  {
    var line := lines[i];
    var r := ListStep(st, line);
    ListStepCases(st, line);
    forall n | 0 <= n < |st.tests|
      ensures Listed(lines, i + 1, st.tests[n])
    {
      ListedLater(lines, i, st.tests[n]);
    }
    if IsSuiteLine(line) {
      if line != [] {
        assert SuiteOpenAt(lines, i, i + 1);
      }
    } else if st.suite != [] {
      var k :| SuiteOpenAt(lines, k, i) && st.suite == lines[k][..|lines[k]| - 1];
      assert SuiteOpenAt(lines, k, i + 1);
      if r.tests != st.tests {
        assert ListedAt(lines, k, i, r.tests[|st.tests|]);
        assert Listed(lines, i + 1, r.tests[|st.tests|]);
      }
    }
  }

  lemma {:induction false} ListPrefixOrigin(lines: seq<string>, i: int)
    requires 0 <= i <= |lines|
    ensures ListInvariant(lines, i, ListFrom(ListState([], []), lines[..i]))
    decreases i
  {
    if i > 0 {
      var st := ListFrom(ListState([], []), lines[..i - 1]);
      ListPrefixOrigin(lines, i - 1);
      var last: seq<string> := [lines[i - 1]];
      assert lines[..i] == lines[..i - 1] + last;
      ListFromConcat(ListState([], []), lines[..i - 1], last);
      assert last[1..] == [];
      assert ListFrom(st, last) == ListStep(st, lines[i - 1]);
      ListStepOrigin(lines, i - 1, st);
    }
  }

  lemma ParsedNamesSplit(output: string)
    ensures forall k :: 0 <= k < |ParseTests(output)| ==> SplitsAsListed(ParseTests(output)[k])
    ensures forall k :: 0 <= k < |ParseTests(output)| ==>
              Listed(Lines(output), |Lines(output)|, ParseTests(output)[k])
  {
    ListFromNames(ListState([], []), Lines(output));
    ListPrefixOrigin(Lines(output), |Lines(output)|);
    assert Lines(output)[..|Lines(output)|] == Lines(output);
  }

  /** An empty line ends the current suite: the case lines after it are dropped
      until the next suite line. */
  lemma {:induction false} EmptyLineDropsCases(st: ListState, cases: seq<string>)
    requires forall k :: 0 <= k < |cases| ==> !IsSuiteLine(cases[k])
    ensures ListFrom(st, [""] + cases) == st.(suite := [])
  {
    assert ListStep(st, "") == st.(suite := []);
    assert ([""] + cases)[1..] == cases;
    ClosedSuiteDropsCases(st.(suite := []), cases);
  }

  lemma {:induction false} ClosedSuiteDropsCases(st: ListState, cases: seq<string>)
    requires st.suite == []
    requires forall k :: 0 <= k < |cases| ==> !IsSuiteLine(cases[k])
    ensures ListFrom(st, cases) == st
    decreases cases
  {
    if cases != [] {
      assert ListStep(st, cases[0]) == st;
      ClosedSuiteDropsCases(st, cases[1..]);
    }
  }

  // The listing GoogleTest prints, for the round trip.

  /** `  case` lines under a suite line. */
  function CaseLines(cases: seq<string>): seq<string>
  {
    if cases == [] then [] else ["  " + cases[0]] + CaseLines(cases[1..])
  }

  /** The `--gtest_list_tests` listing of a catalog of suites and their cases. */
  function Listing(catalog: seq<(string, seq<string>)>): seq<string>
  {
    if catalog == [] then []
    else [catalog[0].0 + "."] + CaseLines(catalog[0].1) + Listing(catalog[1..])
  }

  function Qualified(suite: string, cases: seq<string>): seq<string>
  {
    if cases == [] then [] else [suite + "." + cases[0]] + Qualified(suite, cases[1..])
  }

  /** Every `Suite.Case` of a catalog, in listing order. */
  function Catalog(catalog: seq<(string, seq<string>)>): seq<string>
  {
    if catalog == [] then [] else Qualified(catalog[0].0, catalog[0].1) + Catalog(catalog[1..])
  }

  predicate PlainName(s: string)
  {
    s != [] && '.' !in s && '\n' !in s
  }

  predicate PlainCases(cases: seq<string>)
  {
    forall j :: 0 <= j < |cases| ==> PlainName(cases[j]) && cases[j][0] != ' '
  }

  predicate WellFormedCatalog(catalog: seq<(string, seq<string>)>)
  {
    forall k :: 0 <= k < |catalog| ==> PlainName(catalog[k].0) && PlainCases(catalog[k].1)
  }

  lemma {:induction false} ListFromConcat(st: ListState, a: seq<string>, b: seq<string>)
    ensures ListFrom(st, a + b) == ListFrom(ListFrom(st, a), b)
    decreases a
  {
    if a == [] {
      assert a + b == b;
    } else {
      assert (a + b)[0] == a[0];
      assert (a + b)[1..] == a[1..] + b;
      ListFromConcat(ListStep(st, a[0]), a[1..], b);
    }
  }

  /** A `  case` line under a non-empty suite adds `suite.case`. */
  lemma CaseStep(st: ListState, c: string)
    requires st.suite != [] && PlainName(c) && c[0] != ' '
    ensures ListStep(st, "  " + c) == st.(tests := st.tests + [st.suite + "." + c])
  {
    var line := "  " + c;
    assert forall j :: 0 <= j < |line| ==> line[j] != '.';
    assert FindFrom(line, '.', 0) == |line|;
    assert line[0] == ' ' && line[1] == ' ' && line[2] == c[0];
    assert FirstNonSpace(line, 0) == 2;
    assert line[2..] == c;
  }

  lemma {:induction false} CaseLinesParse(tests: seq<string>, suite: string, cases: seq<string>)
    requires suite != [] && PlainCases(cases)
    ensures ListFrom(ListState(tests, suite), CaseLines(cases)) == ListState(tests + Qualified(suite, cases), suite)
    decreases cases
  {
    if cases != [] {
      var st := ListState(tests, suite);
      var line := "  " + cases[0];
      var more := tests + [suite + "." + cases[0]];
      assert PlainCases(cases[1..]);
      calc {
        ListFrom(st, CaseLines(cases));
        { assert CaseLines(cases) == [line] + CaseLines(cases[1..]);
          assert ([line] + CaseLines(cases[1..]))[1..] == CaseLines(cases[1..]); }
        ListFrom(ListStep(st, line), CaseLines(cases[1..]));
        { CaseStep(st, cases[0]); }
        ListFrom(ListState(more, suite), CaseLines(cases[1..]));
        { CaseLinesParse(more, suite, cases[1..]); }
        ListState(more + Qualified(suite, cases[1..]), suite);
        { assert more + Qualified(suite, cases[1..]) == tests + Qualified(suite, cases); }
        ListState(tests + Qualified(suite, cases), suite);
      }
    }
  }

  /** A `Suite.` line opens the suite. */
  lemma HeaderStep(st: ListState, s: string)
    requires PlainName(s)
    ensures ListStep(st, s + ".") == st.(suite := s)
  {
    var header := s + ".";
    assert forall j :: 0 <= j < |s| ==> header[j] != '.';
    FindFromIs(header, '.', 0, |s|);
    assert header[..|header| - 1] == s;
  }

  /** One suite of the listing: its header and case lines add its qualified names, and
      parsing goes on in that suite. */
  lemma SuiteParse(tests: seq<string>, suite: string, s: string, cases: seq<string>, rest: seq<string>)
    requires PlainName(s) && PlainCases(cases)
    ensures ListFrom(ListState(tests, suite), [s + "."] + CaseLines(cases) + rest) ==
            ListFrom(ListState(tests + Qualified(s, cases), s), rest)
  {
    var cl := CaseLines(cases);
    calc {
      ListFrom(ListState(tests, suite), [s + "."] + cl + rest);
      { assert ([s + "."] + cl + rest)[1..] == cl + rest;
        HeaderStep(ListState(tests, suite), s); }
      ListFrom(ListState(tests, s), cl + rest);
      { ListFromConcat(ListState(tests, s), cl, rest); }
      ListFrom(ListFrom(ListState(tests, s), cl), rest);
      { CaseLinesParse(tests, s, cases); }
      ListFrom(ListState(tests + Qualified(s, cases), s), rest);
    }
  }

  lemma WellFormedTail(catalog: seq<(string, seq<string>)>)
    requires catalog != [] && WellFormedCatalog(catalog)
    ensures PlainName(catalog[0].0) && PlainCases(catalog[0].1) && WellFormedCatalog(catalog[1..])
  {
    assert forall k :: 0 <= k < |catalog| - 1 ==> catalog[1..][k] == catalog[k + 1];
  }

  lemma {:induction false} ListingParse(tests: seq<string>, suite: string, catalog: seq<(string, seq<string>)>)
    requires WellFormedCatalog(catalog)
    ensures ListFrom(ListState(tests, suite), Listing(catalog)).tests == tests + Catalog(catalog)
    decreases catalog
  {
    if catalog != [] {
      var s := catalog[0].0;
      var cases := catalog[0].1;
      var q := Qualified(s, cases);
      var rest := Listing(catalog[1..]);
      WellFormedTail(catalog);
      calc {
        ListFrom(ListState(tests, suite), Listing(catalog)).tests;
        ListFrom(ListState(tests, suite), [s + "."] + CaseLines(cases) + rest).tests;
        { SuiteParse(tests, suite, s, cases, rest); }
        ListFrom(ListState(tests + q, s), rest).tests;
        { ListingParse(tests + q, s, catalog[1..]); }
        tests + q + Catalog(catalog[1..]);
        tests + (q + Catalog(catalog[1..]));
        tests + Catalog(catalog);
      }
    }
  }

  predicate NoNewlines(ls: seq<string>)
  {
    forall k :: 0 <= k < |ls| ==> '\n' !in ls[k]
  }

  lemma {:induction false} CaseLinesNoNewline(cases: seq<string>)
    requires PlainCases(cases)
    ensures NoNewlines(CaseLines(cases))
    decreases cases
  {
    if cases != [] {
      assert PlainCases(cases[1..]);
      CaseLinesNoNewline(cases[1..]);
      assert '\n' !in "  " + cases[0];
    }
  }

  lemma {:induction false} ListingHasNoNewline(catalog: seq<(string, seq<string>)>)
    requires WellFormedCatalog(catalog)
    ensures NoNewlines(Listing(catalog))
    decreases catalog
  {
    if catalog != [] {
      assert WellFormedCatalog(catalog[1..]);
      ListingHasNoNewline(catalog[1..]);
      CaseLinesNoNewline(catalog[0].1);
      assert '\n' !in catalog[0].0 + ".";
    }
  }

  /** Round trip: parsing the listing GoogleTest prints for a catalog gives back
      every `Suite.Case`, in order. */
  lemma ListingRoundTrip(catalog: seq<(string, seq<string>)>)
    requires WellFormedCatalog(catalog)
    ensures ParseTests(Unlines(Listing(catalog))) == Catalog(catalog)
  {
    ListingHasNoNewline(catalog);
    LinesUnlines(Listing(catalog));
    ListingParse([], [], catalog);
  }

  // ---------------------------------------------------------------------------
  // GenerateFilters: the split and the wildcard translation
  // ---------------------------------------------------------------------------

  function TranslateChar(c: char): string
  {
    match c
    case '*' => ".*"
    case '?' => "."
    case '.' => "\\."
    case _ => [c]
  }

  /** The wildcard segment with every character translated, left to right. */
  function Translate(p: string): (r: string)
    ensures |r| == |p| + CountChar(p, '*') + CountChar(p, '.')
  {
    if p == [] then [] else TranslateChar(p[0]) + Translate(p[1..])
  }

  /** The anchored expression built for one segment. */
  function Pattern(segment: string): string
  {
    "^" + Translate(segment) + "$"
  }

  /** The segments the while loop cuts from `filter` starting at `pos`. */
  function SegmentsFrom(filter: string, pos: nat): seq<string>
    requires pos <= |filter|
    decreases |filter| - pos
  {
    if pos == |filter| then []
    else
      var end := FindFrom(filter, ':', pos);
      [filter[pos..end]] + SegmentsFrom(filter, if end == |filter| then end else end + 1)
  }

  /** No segment holds the separator. */
  lemma {:induction false} SegmentsNoColon(filter: string, pos: nat)
    requires pos <= |filter|
    ensures forall k :: 0 <= k < |SegmentsFrom(filter, pos)| ==> ':' !in SegmentsFrom(filter, pos)[k]
    decreases |filter| - pos
  {
    if pos < |filter| {
      var end := FindFrom(filter, ':', pos);
      var next := if end == |filter| then end else end + 1;
      FindFromFirst(filter, ':', pos);
      assert ':' !in filter[pos..end];
      SegmentsNoColon(filter, next);
    }
  }

  function Segments(filter: string): seq<string>
  {
    SegmentsFrom(filter, 0)
  }

  function Patterns(segs: seq<string>): (r: seq<string>)
    ensures |r| == |segs|
  {
    if segs == [] then [] else [Pattern(segs[0])] + Patterns(segs[1..])
  }

  /** The expressions GenerateFilters compiles, as strings. */
  function Filters(filter: string): seq<string>
  {
    Patterns(Segments(filter))
  }

  /** The for loop over the characters of one segment, and the anchoring. */
  method TranslateSegment(pattern: string) returns (regexPattern: string)
    ensures regexPattern == Pattern(pattern)
  {
    regexPattern := "";
    assert pattern[0..] == pattern;
    for k := 0 to |pattern|
      invariant regexPattern + Translate(pattern[k..]) == Translate(pattern)
    {
      assert pattern[k..][1..] == pattern[k + 1..];
      regexPattern := regexPattern + TranslateChar(pattern[k]);
    }
    assert pattern[|pattern|..] == [];
    regexPattern := "^" + regexPattern + "$";
  }

  /** The segments cut from a position depend only on the filter from that position on. */
  lemma {:induction false} SegmentsFromSame(f: string, g: string, p: nat, q: nat)
    requires p <= |f| && q <= |g| && f[p..] == g[q..]
    ensures SegmentsFrom(f, p) == SegmentsFrom(g, q)
    decreases |f| - p
  {
    if p < |f| {
      var e := FindFrom(f, ':', p);
      var d := FindFrom(g, ':', q);
      var ne := if e == |f| then e else e + 1;
      var nd := if d == |g| then d else d + 1;
      FindFromSame(f, g, ':', p, q);
      assert |f| - p == |g| - q;
      assert ne - p == nd - q;
      SegmentsFromCons(f, p, e, ne);
      SegmentsFromCons(g, q, d, nd);
      SliceSame(f, g, p, q, p, e, q, d);
      SliceSame(f, g, p, q, ne, ne, nd, nd);
      SegmentsFromSame(f, g, ne, nd);
    }
  }

  /** Cutting `x + y` from inside `y` gives the segments of `y`. */
  lemma SegmentsFromShift(x: string, y: string, p: nat)
    requires p <= |y|
    ensures SegmentsFrom(x + y, |x| + p) == SegmentsFrom(y, p)
  {
    assert (x + y)[|x| + p..] == y[p..];
    SegmentsFromSame(x + y, y, |x| + p, p);
  }

  /** One pass of the loop: the segment up to the next ':', then the segments after it. */
  lemma SegmentsFromCons(filter: string, pos: nat, end: nat, next: nat)
    requires pos < |filter| && end == FindFrom(filter, ':', pos)
    requires next == if end == |filter| then end else end + 1
    ensures SegmentsFrom(filter, pos) == [filter[pos..end]] + SegmentsFrom(filter, next)
  {
  }

  /** One pass of the while loop keeps the patterns built so far, followed by those
      of the segments still to come, equal to the whole result. */
  lemma FiltersStep(filter: string, pos: nat, end: nat, next: nat, filters: seq<string>)
    requires pos < |filter| && end == FindFrom(filter, ':', pos)
    requires next == if end == |filter| then end else end + 1
    requires filters + Patterns(SegmentsFrom(filter, pos)) == Filters(filter)
    ensures filters + [Pattern(filter[pos..end])] + Patterns(SegmentsFrom(filter, next)) == Filters(filter)
  {
    var rest := SegmentsFrom(filter, next);
    assert SegmentsFrom(filter, pos) == [filter[pos..end]] + rest;
    assert ([filter[pos..end]] + rest)[1..] == rest;
  }

  method GenerateFilters(filter: string) returns (filters: seq<string>)
    ensures filters == Filters(filter)
  {
    filters := [];
    var pos := 0;
    while pos < |filter|
      invariant 0 <= pos <= |filter|
      invariant filters + Patterns(SegmentsFrom(filter, pos)) == Filters(filter)
      decreases |filter| - pos
    {
      var end := FindFrom(filter, ':', pos);
      var next := if end == |filter| then end else end + 1;
      FiltersStep(filter, pos, end, next, filters);
      var regexPattern := TranslateSegment(filter[pos..end]);
      filters := filters + [regexPattern];
      pos := next;
    }
  }

  function CountChar(s: string, c: char): nat
  {
    if s == [] then 0 else (if s[0] == c then 1 else 0) + CountChar(s[1..], c)
  }

  lemma {:induction false} CountCharAppend(a: string, b: string, c: char)
    ensures CountChar(a + b, c) == CountChar(a, c) + CountChar(b, c)
  {
    if a == [] {
      assert a + b == b;
    } else {
      assert (a + b)[0] == a[0];
      assert (a + b)[1..] == a[1..] + b;
      CountCharAppend(a[1..], b, c);
    }
  }

  lemma {:induction false} CountCharAbsent(s: string, c: char)
    requires c !in s
    ensures CountChar(s, c) == 0
  {
    if s != [] {
      CountCharAbsent(s[1..], c);
    }
  }

  /** The ':' count is unchanged across a stretch that holds no ':'. */
  lemma CountCharSkip(filter: string, pos: nat, end: nat)
    requires pos <= end <= |filter|
    requires forall j :: pos <= j < end ==> filter[j] != ':'
    ensures CountChar(filter[pos..], ':') == CountChar(filter[end..], ':')
  {
    assert filter[pos..] == filter[pos..end] + filter[end..];
    CountCharAppend(filter[pos..end], filter[end..], ':');
    CountCharAbsent(filter[pos..end], ':');
  }

  lemma {:induction false} SegmentsFromCount(filter: string, pos: nat)
    requires pos <= |filter|
    ensures |SegmentsFrom(filter, pos)| ==
            CountChar(filter[pos..], ':') + (if pos == |filter| || filter[|filter| - 1] == ':' then 0 else 1)
    decreases |filter| - pos
  {
    if pos < |filter| {
      var end := FindFrom(filter, ':', pos);
      SegmentsFromCons(filter, pos, end, if end == |filter| then end else end + 1);
      FindFromFirst(filter, ':', pos);
      CountCharSkip(filter, pos, end);
      if end < |filter| {
        assert filter[end..][1..] == filter[end + 1..];
        SegmentsFromCount(filter, end + 1);
      } else {
        assert filter[|filter| - 1] != ':';
      }
    }
  }

  /** One segment per ':'-separated field: none for the empty filter, none after a
      trailing ':', and an empty field before or between separators is kept. */
  lemma SegmentCount(filter: string)
    ensures |Segments(filter)| ==
            CountChar(filter, ':') + (if filter == [] || filter[|filter| - 1] == ':' then 0 else 1)
  {
    SegmentsFromCount(filter, 0);
    assert filter[0..] == filter;
  }

  /** A field without ':' followed by ':' is cut off as the first segment. */
  lemma SegmentsOfCons(n: string, rest: string)
    requires ':' !in n
    ensures Segments(n + ":" + rest) == [n] + Segments(rest)
  {
    var x := n + ":";
    var f := x + rest;
    assert forall j :: 0 <= j < |n| ==> f[j] == n[j];
    FindFromIs(f, ':', 0, |n|);
    assert f[0..|n|] == n;
    SegmentsFromShift(x, rest, 0);
    assert Segments(f) == [n] + SegmentsFrom(f, |n| + 1);
  }

  /** An empty field, at the start of the filter or between two ':', is kept as a segment
      and becomes the expression that only matches the empty name. */
  lemma EmptySegmentPattern(n: string, rest: string)
    requires ':' !in n
    ensures Segments(n + "::" + rest) == [n, ""] + Segments(rest)
    ensures Filters(n + "::" + rest) == [Pattern(n), "^$"] + Filters(rest)
  {
    assert n + "::" + rest == n + ":" + (":" + rest);
    assert ":" + rest == [] + ":" + rest;
    SegmentsOfCons(n, ":" + rest);
    SegmentsOfCons([], rest);
    var segs := Segments(n + "::" + rest);
    assert segs == [n, ""] + Segments(rest);
    assert segs[1..] == [""] + Segments(rest);
    assert segs[1..][1..] == Segments(rest);
    assert Pattern("") == "^$";
    assert Patterns(segs[1..]) == ["^$"] + Patterns(Segments(rest));
    assert Patterns(segs) == [Pattern(n)] + Patterns(segs[1..]);
  }

  lemma {:induction false} TranslateAppend(a: string, b: string)
    ensures Translate(a + b) == Translate(a) + Translate(b)
  {
    if a == [] {
      assert a + b == b;
    } else {
      assert (a + b)[0] == a[0];
      assert (a + b)[1..] == a[1..] + b;
      TranslateAppend(a[1..], b);
    }
  }

  /** Reads an expression built by Translate back into the wildcard it came from. */
  function Untranslate(r: string): string
  {
    if r == [] then []
    else if |r| >= 2 && r[0] == '.' && r[1] == '*' then "*" + Untranslate(r[2..])
    else if |r| >= 2 && r[0] == '\\' && r[1] == '.' then "." + Untranslate(r[2..])
    else if r[0] == '.' then "?" + Untranslate(r[1..])
    else [r[0]] + Untranslate(r[1..])
  }

  /** No character translates to something starting with '*'. */
  lemma TranslateNeverStartsWithStar(p: string)
    ensures Translate(p) == [] || Translate(p)[0] != '*'
  {
  }

  /** The translation loses nothing: for a wildcard without a backslash, the
      expression determines the wildcard. */
  lemma {:induction false} TranslateRoundTrip(p: string)
    requires '\\' !in p
    ensures Untranslate(Translate(p)) == p
  {
    if p != [] {
      var t := Translate(p[1..]);
      TranslateRoundTrip(p[1..]);
      TranslateNeverStartsWithStar(p[1..]);
      var c := p[0];
      if c == '*' {
        assert Translate(p) == ".*" + t;
        assert (".*" + t)[2..] == t;
      } else if c == '?' {
        assert Translate(p) == "." + t;
        assert ("." + t)[1..] == t;
      } else if c == '.' {
        assert Translate(p) == "\\." + t;
        assert ("\\." + t)[2..] == t;
      } else {
        assert Translate(p) == [c] + t;
        assert ([c] + t)[1..] == t;
      }
      assert p == [p[0]] + p[1..];
    }
  }
}
