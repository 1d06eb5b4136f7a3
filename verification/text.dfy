/**
 * String helpers shared by the batch runner: the standard library calls the
 * C++ code leans on (std::getline over a string stream, std::string::find,
 * the trailing '\r' strip), written once as total functions.
 */
module Text {

  datatype Option<T> = None | Some(value: T)

  /** Index of the first `c` in `s` at or after `from`, or |s| when there is none
      (std::string::find, with npos written as |s|). */
  function FindFrom(s: string, c: char, from: nat): (i: nat)
    requires from <= |s|
    ensures from <= i <= |s|
    ensures i < |s| ==> s[i] == c
    decreases |s| - from
  {
    if from == |s| then |s|
    else if s[from] == c then from
    else FindFrom(s, c, from + 1)
  }

  /** Nothing between `from` and the index FindFrom returns is a `c`; together with
      FindFrom's own contract this makes it the first occurrence. */
  lemma {:induction false} FindFromFirst(s: string, c: char, from: nat)
    requires from <= |s|
    ensures forall j :: from <= j < FindFrom(s, c, from) ==> s[j] != c
    decreases |s| - from
  {
    if from < |s| && s[from] != c {
      FindFromFirst(s, c, from + 1);
    }
  }

  /** The pieces std::getline yields from a string stream over `s`: split on
      '\n', the separators dropped, and no empty piece after a final '\n'. */
  function Lines(s: string): seq<string>
    decreases |s|
  {
    if s == [] then []
    else
      var i := FindFrom(s, '\n', 0);
      if i == |s| then [s] else [s[..i]] + Lines(s[i + 1..])
  }

  /** The inverse direction: every line followed by '\n'. */
  function Unlines(ls: seq<string>): string
  {
    if ls == [] then [] else ls[0] + "\n" + Unlines(ls[1..])
  }

  /** FindFrom returns `i` when `i` is a `c` (or the end) and nothing before it from `from` is. */
  lemma {:induction false} FindFromIs(s: string, c: char, from: nat, i: nat)
    requires from <= i <= |s|
    requires i < |s| ==> s[i] == c
    requires forall j :: from <= j < i ==> s[j] != c
    ensures FindFrom(s, c, from) == i
    decreases i - from
  {
    if from < i {
      FindFromIs(s, c, from + 1, i);
    }
  }

  /** Searching depends only on the text from the starting point on. */
  lemma {:induction false} FindFromSame(s: string, t: string, c: char, p: nat, q: nat)
    requires p <= |s| && q <= |t| && s[p..] == t[q..]
    ensures FindFrom(s, c, p) - p == FindFrom(t, c, q) - q
    decreases |s| - p
  {
    if p < |s| {
      assert |s| - p == |t| - q;
      assert s[p] == s[p..][0] && t[q] == t[q..][0];
      if s[p] != c {
        assert s[p + 1..] == s[p..][1..] && t[q + 1..] == t[q..][1..];
        FindFromSame(s, t, c, p + 1, q + 1);
      }
    }
  }

  /** Slices taken at the same offsets from equal suffixes are equal. */
  lemma SliceSame(s: string, t: string, p: nat, q: nat, i: nat, j: nat, i': nat, j': nat)
    requires p <= |s| && q <= |t| && s[p..] == t[q..]
    requires p <= i <= j <= |s| && i' - q == i - p && j' - q == j - p
    ensures s[i..j] == t[i'..j'] && s[i..] == t[i'..]
  {
    assert |s| - p == |t| - q;
    forall k | i <= k < |s| ensures s[k] == t[k - p + q] {
      assert s[k] == s[p..][k - p];
    }
  }

  /** A line without '\n' followed by '\n' is read as that line, and reading goes on after it. */
  lemma LinesCons(l: string, u: string)
    requires '\n' !in l
    ensures Lines(l + "\n" + u) == [l] + Lines(u)
  {
    var s := l + "\n" + u;
    assert forall j :: 0 <= j < |l| ==> s[j] == l[j];
    FindFromIs(s, '\n', 0, |l|);
    assert s[..|l|] == l;
    assert s[|l| + 1..] == u;
  }

  /** A non-empty text without '\n' is read as one line. */
  lemma LinesSingle(l: string)
    requires l != [] && '\n' !in l
    ensures Lines(l) == [l]
  {
    FindFromIs(l, '\n', 0, |l|);
  }

  /** Splitting what Unlines produced gives the lines back, provided none of them holds a '\n'. */
  lemma {:induction false} LinesUnlines(ls: seq<string>)
    requires forall k :: 0 <= k < |ls| ==> '\n' !in ls[k]
    ensures Lines(Unlines(ls)) == ls
  {
    if ls != [] {
      LinesCons(ls[0], Unlines(ls[1..]));
      LinesUnlines(ls[1..]);
    }
  }

  /** `s` with a '\n' added at the end unless it is empty or ends in one already. */
  function Terminated(s: string): string
  {
    if s == [] || s[|s| - 1] == '\n' then s else s + "\n"
  }

  lemma TerminatedCons(l: string, t: string)
    ensures Terminated(l + "\n" + t) == l + "\n" + Terminated(t)
  {
    var s := l + "\n" + t;
    if t != [] {
      assert s[|s| - 1] == t[|t| - 1];
      assert s + "\n" == l + "\n" + (t + "\n");
    }
  }

  /** Joining the lines back restores the text, up to a '\n' added at the end of an unterminated last line. */
  lemma {:induction false} UnlinesLines(s: string)
    ensures Unlines(Lines(s)) == Terminated(s)
    decreases |s|
  {
    if s != [] {
      var i := FindFrom(s, '\n', 0);
      if i < |s| {
        var l := s[..i];
        var t := s[i + 1..];
        calc {
          Unlines(Lines(s));
          { assert ([l] + Lines(t))[1..] == Lines(t); }
          l + "\n" + Unlines(Lines(t));
          { UnlinesLines(t); }
          l + "\n" + Terminated(t);
          { TerminatedCons(l, t); }
          Terminated(l + "\n" + t);
          { assert s == l + "\n" + t; }
          Terminated(s);
        }
      } else {
        FindFromFirst(s, '\n', 0);
        assert s[|s| - 1] != '\n';
      }
    }
  }

  /** Extending a text does not move a newline it already has, nor put one before it. */
  lemma FirstNewlineOfExtension(a: string, b: string)
    ensures var i := FindFrom(a, '\n', 0);
            var i' := FindFrom(a + b, '\n', 0);
            (i < |a| ==> i' == i) && (i == |a| ==> |a| <= i')
  {
    var s := a + b;
    var i := FindFrom(a, '\n', 0);
    var i' := FindFrom(s, '\n', 0);
    FindFromFirst(a, '\n', 0);
    FindFromFirst(s, '\n', 0);
    assert forall j :: 0 <= j < |a| ==> s[j] == a[j];
    if i < |a| {
      assert s[i] == '\n';
    }
  }

  /** Every line read from a text is a prefix of the line at the same position read from
      any extension of it: the last line of `a` may be cut short, but it is not lost. */
  lemma {:induction false} LinesOfExtension(a: string, b: string, k: nat)
    requires k < |Lines(a)|
    ensures k < |Lines(a + b)| && Lines(a)[k] <= Lines(a + b)[k]
    decreases |a|
  {
    var s := a + b;
    var i := FindFrom(a, '\n', 0);
    FirstNewlineOfExtension(a, b);
    if i < |a| {
      assert s[..i] == a[..i];
      assert s[i + 1..] == a[i + 1..] + b;
      if k > 0 {
        LinesOfExtension(a[i + 1..], b, k - 1);
      }
    } else {
      var i' := FindFrom(s, '\n', 0);
      assert a <= s[..i'];
    }
  }

  /** std::string::find(m) != npos: `m` occurs somewhere in `s`. */
  predicate Contains(s: string, m: string)
    decreases |s|
  {
    |m| <= |s| && (s[..|m|] == m || Contains(s[1..], m))
  }

  /** What a prefix contains, the whole string contains. */
  lemma {:induction false} ContainsPrefix(s: string, t: string, m: string)
    requires s <= t && Contains(s, m)
    ensures Contains(t, m)
    decreases |s|
  {
    if s[..|m|] != m {
      assert s[1..] <= t[1..];
      ContainsPrefix(s[1..], t[1..], m);
    } else {
      assert t[..|m|] == s[..|m|];
    }
  }

  /** The line after `if(line[line.size() - 1] == '\r') line.erase(line.size() - 1);`.
      The C++ indexes out of range on an empty line; here an empty line is left as it is,
      and the callers that model that code exclude the case by precondition. */
  function StripCR(line: string): (r: string)
    ensures r <= line && |line| - 1 <= |r|
    ensures r == line <==> (line == [] || line[|line| - 1] != '\r')
  {
    if |line| > 0 && line[|line| - 1] == '\r' then line[..|line| - 1] else line
  }

  /** Stripping keeps the prefix order between a line and its continuation. */
  lemma StripCRPrefix(l: string, l': string)
    requires l <= l'
    ensures StripCR(l) <= StripCR(l')
  {
    if |l| < |l'| {
      assert l <= l'[..|l'| - 1];
    }
  }
}
