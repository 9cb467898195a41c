/**
 The library of the minigrep command-line tool (src/lib.rs): the configuration that
 `Config::build` extracts from the argument vector and the environment, and the two line
 matchers `search` and `search_case_insensitive` that `run` chooses between.
 */
module Minigrep {
  import opened Wrappers
  import opened Text

  /* ---------------------------------------------------------------------------
     Configuration
     --------------------------------------------------------------------------- */

  /** What one run searches for, in which file, and whether letter case is ignored. */
  datatype Config = Config(query: string, filePath: string, ignoreCase: bool)

  /** The error message `Config::build` returns for a short argument vector. */
  const NotEnoughArguments: string := "Not enough arguments"

  /** The environment variable whose presence turns on case-insensitive matching. */
  const IgnoreCaseVar: string := "IGNORE_CASE"

  /** `args[0]` is the program name, `args[1]` the query and `args[2]` the file path; any
      further arguments are ignored. The process environment is passed in as a map. */
  function Build(args: seq<string>, env: map<string, string>): (r: Result<Config, string>)
    ensures r.Err? <==> |args| < 3
    ensures r.Err? ==> r.error == NotEnoughArguments
    ensures r.Ok? ==> r.value.query == args[1] && r.value.filePath == args[2]
    ensures r.Ok? ==> (r.value.ignoreCase <==> IgnoreCaseVar in env)
  {
    if |args| < 3 then Err(NotEnoughArguments)
    else Ok(Config(args[1], args[2], IgnoreCaseVar in env))
  }

  /** Only the first three arguments and the presence of IGNORE_CASE matter: appending
      arguments or changing any environment entry other than whether IGNORE_CASE exists
      leaves the configuration as it was. */
  lemma BuildUsesOnlyItsInputs(args: seq<string>, extra: seq<string>,
                               env: map<string, string>, env': map<string, string>)
    requires |args| >= 3
    requires IgnoreCaseVar in env <==> IgnoreCaseVar in env'
    ensures Build(args + extra, env') == Build(args, env)
  {
  }

  /* ---------------------------------------------------------------------------
     Line matching
     --------------------------------------------------------------------------- */

  /** Whether `line` is a match for `query`: as a contiguous substring, or, when letter case
      is ignored, as a substring once both are lower-cased. */
  predicate Matches(line: string, query: string, ignoreCase: bool) {
    if ignoreCase then Contains(Lower(line), Lower(query)) else Contains(line, query)
  }

  /** The lines that match, in the order they come: the `matching_lines` vector that the
      loop of `search` and `search_case_insensitive` builds by pushing each match. */
  function MatchingLines(lines: seq<string>, query: string, ignoreCase: bool): (r: seq<string>)
    ensures |r| <= |lines|
    ensures forall l :: l in r ==> l in lines && Matches(l, query, ignoreCase)
    ensures forall j :: 0 <= j < |lines| && Matches(lines[j], query, ignoreCase) ==> lines[j] in r
    decreases |lines|
  {
    if lines == [] then []
    else
      var last := lines[|lines| - 1];
      var init := MatchingLines(lines[..|lines| - 1], query, ignoreCase);
      if Matches(last, query, ignoreCase) then init + [last] else init
  }

  /** One more line of input adds that line to the result exactly when it matches. */
  lemma MatchingLinesStep(lines: seq<string>, i: int, query: string, ignoreCase: bool)
    requires 0 <= i < |lines|
    ensures MatchingLines(lines[..i + 1], query, ignoreCase) ==
              MatchingLines(lines[..i], query, ignoreCase) +
              (if Matches(lines[i], query, ignoreCase) then [lines[i]] else [])
  {
    assert lines[..i + 1][..i] == lines[..i];
  }

  predicate StrictlyIncreasing(idx: seq<int>) {
    forall k, m :: 0 <= k < m < |idx| ==> idx[k] < idx[m]
  }

  /** `r` is the subsequence of `s` picked at the increasing positions `idx`. */
  predicate Picks(idx: seq<int>, r: seq<string>, s: seq<string>) {
    && |idx| == |r|
    && StrictlyIncreasing(idx)
    && forall k :: 0 <= k < |idx| ==> 0 <= idx[k] < |s| && r[k] == s[idx[k]]
  }

  /** The positions of the matching lines, in increasing order. */
  function MatchPositions(lines: seq<string>, query: string, ignoreCase: bool): (idx: seq<int>)
    ensures |idx| <= |lines|
    ensures StrictlyIncreasing(idx)
    ensures forall k :: 0 <= k < |idx| ==> 0 <= idx[k] < |lines|
    ensures forall j :: 0 <= j < |lines| ==> (j in idx <==> Matches(lines[j], query, ignoreCase))
    decreases |lines|
  {
    if lines == [] then []
    else
      var n := |lines| - 1;
      var init := MatchPositions(lines[..n], query, ignoreCase);
      if Matches(lines[n], query, ignoreCase) then init + [n] else init
  }

  /** Positions picked from a prefix of `s` pick the same elements from `s`, and the next
      position can be added at the end. */
  lemma PicksExtend(idx: seq<int>, r: seq<string>, s: seq<string>)
    requires s != []
    requires Picks(idx, r, s[..|s| - 1])
    ensures Picks(idx, r, s)
    ensures Picks(idx + [|s| - 1], r + [s[|s| - 1]], s)
  {
  }

  /** The matching lines are exactly the lines at the matching positions, in order: the
      result is the subsequence of `lines` that keeps every match and nothing else. */
  lemma {:induction false} MatchingLinesInOrder(lines: seq<string>, query: string, ignoreCase: bool)
    ensures Picks(MatchPositions(lines, query, ignoreCase), MatchingLines(lines, query, ignoreCase), lines)
    decreases |lines|
  {
    if lines != [] {
      var n := |lines| - 1;
      MatchingLinesInOrder(lines[..n], query, ignoreCase);
      PicksExtend(MatchPositions(lines[..n], query, ignoreCase),
                  MatchingLines(lines[..n], query, ignoreCase), lines);
    }
  }

  /** Two strictly increasing sequences with the same elements are the same sequence. */
  lemma {:induction false} IncreasingUnique(a: seq<int>, b: seq<int>)
    requires StrictlyIncreasing(a) && StrictlyIncreasing(b)
    requires forall x :: x in a <==> x in b
    ensures a == b
    decreases |a|
  {
    forall k | 0 <= k < |b| ensures b[k] in a {
      assert b[k] in b;
    }
    assert |b| > 0 ==> b[0] in a;
    if a != [] {
      assert a[0] in a;
      assert b != [] && b[0] in a;
      assert a[0] == b[0];
      forall x ensures x in a[1..] <==> x in b[1..] {
        assert x in a[1..] <==> x in a && x != a[0];
        assert x in b[1..] <==> x in b && x != b[0];
      }
      IncreasingUnique(a[1..], b[1..]);
      assert a == [a[0]] + a[1..];
      assert b == [b[0]] + b[1..];
    }
  }

  /** Conversely, any subsequence of `lines` taken at increasing positions that are exactly
      the matching ones is the result of the matcher. */
  lemma SelectionIsUnique(lines: seq<string>, query: string, ignoreCase: bool,
                          r: seq<string>, idx: seq<int>)
    requires Picks(idx, r, lines)
    requires forall j :: 0 <= j < |lines| ==> (j in idx <==> Matches(lines[j], query, ignoreCase))
    ensures r == MatchingLines(lines, query, ignoreCase)
  {
    var positions := MatchPositions(lines, query, ignoreCase);
    MatchingLinesInOrder(lines, query, ignoreCase);
    forall x ensures x in idx <==> x in positions {
      if x in idx {
        var k :| 0 <= k < |idx| && idx[k] == x;
      }
    }
    IncreasingUnique(idx, positions);
  }

  /** When every line matches, the matcher returns all lines unchanged. */
  lemma {:induction false} AllMatch(lines: seq<string>, query: string, ignoreCase: bool)
    requires forall j :: 0 <= j < |lines| ==> Matches(lines[j], query, ignoreCase)
    ensures MatchingLines(lines, query, ignoreCase) == lines
    decreases |lines|
  {
    if lines != [] {
      var n := |lines| - 1;
      AllMatch(lines[..n], query, ignoreCase);
      assert lines[..n] + [lines[n]] == lines;
    }
  }

  /** When no line matches, the matcher returns nothing. */
  lemma {:induction false} NoneMatch(lines: seq<string>, query: string, ignoreCase: bool)
    requires forall j :: 0 <= j < |lines| ==> !Matches(lines[j], query, ignoreCase)
    ensures MatchingLines(lines, query, ignoreCase) == []
    decreases |lines|
  {
    if lines != [] {
      NoneMatch(lines[..|lines| - 1], query, ignoreCase);
    }
  }

  /** Matching only looks at the lower-cased query when letter case is ignored. */
  lemma {:induction false} CaseInsensitiveSeesLoweredQuery(lines: seq<string>, query: string, query': string)
    requires Lower(query) == Lower(query')
    ensures MatchingLines(lines, query, true) == MatchingLines(lines, query', true)
    decreases |lines|
  {
    if lines != [] {
      CaseInsensitiveSeesLoweredQuery(lines[..|lines| - 1], query, query');
    }
  }

  /** Every exact match is also a case-insensitive match, so exact matching keeps exactly the
      case-insensitive matches that also match exactly. */
  lemma {:induction false} ExactRefinesCaseInsensitive(lines: seq<string>, query: string)
    ensures MatchingLines(MatchingLines(lines, query, true), query, false) == MatchingLines(lines, query, false)
    decreases |lines|
  {
    if lines != [] {
      var n := |lines| - 1;
      var last := lines[n];
      var ci := MatchingLines(lines[..n], query, true);
      ExactRefinesCaseInsensitive(lines[..n], query);
      if Contains(last, query) {
        ContainsLower(last, query);
      }
      if Matches(last, query, true) {
        assert MatchingLines(lines, query, true) == ci + [last];
        assert (ci + [last])[..|ci|] == ci;
      }
    }
  }

  /** When neither the query nor any line has an upper-case letter, ignoring case changes
      nothing. */
  lemma {:induction false} CaseInsensitiveOnLowerCase(lines: seq<string>, query: string)
    requires forall i :: 0 <= i < |query| ==> !IsUpper(query[i])
    requires forall j, i :: 0 <= j < |lines| && 0 <= i < |lines[j]| ==> !IsUpper(lines[j][i])
    ensures MatchingLines(lines, query, true) == MatchingLines(lines, query, false)
    decreases |lines|
  {
    if lines != [] {
      var n := |lines| - 1;
      LowerIdempotent(query);
      LowerIdempotent(lines[n]);
      CaseInsensitiveOnLowerCase(lines[..n], query);
    }
  }

  /** `search`: the lines of `contents` that contain `query`, in their original order. */
  function Search(query: string, contents: string): (r: seq<string>)
    ensures forall l :: l in r ==> l in Lines(contents) && Contains(l, query)
    ensures forall j :: 0 <= j < |Lines(contents)| && Contains(Lines(contents)[j], query) ==>
              Lines(contents)[j] in r
    ensures |r| <= |Lines(contents)|
  {
    MatchingLines(Lines(contents), query, false)
  }

  /** `search_case_insensitive`: the lines of `contents` whose lower-cased form contains the
      lower-cased `query`; the lines are returned as they appear in `contents`. */
  function SearchCaseInsensitive(query: string, contents: string): (r: seq<string>)
    ensures forall l :: l in r ==> l in Lines(contents) && Contains(Lower(l), Lower(query))
    ensures forall j :: 0 <= j < |Lines(contents)| && Contains(Lower(Lines(contents)[j]), Lower(query)) ==>
              Lines(contents)[j] in r
    ensures |r| <= |Lines(contents)|
  {
    MatchingLines(Lines(contents), query, true)
  }

  /** The empty query matches every line, so `search` returns all lines in order; a text
      without lines gives no result for any query. */
  lemma SearchEdgeCases(query: string, contents: string)
    ensures Search([], contents) == Lines(contents)
    ensures Search(query, []) == [] && SearchCaseInsensitive(query, []) == []
  {
    var lines := Lines(contents);
    forall j | 0 <= j < |lines| ensures Matches(lines[j], [], false) {
      EmptyQueryContained(lines[j]);
    }
    AllMatch(lines, [], false);
  }

  /** A query longer than every line matches none of them, in either mode (lower-casing
      keeps the length of a string). */
  lemma SearchLongQuery(query: string, contents: string)
    requires forall l :: l in Lines(contents) ==> |l| < |query|
    ensures Search(query, contents) == []
    ensures SearchCaseInsensitive(query, contents) == []
  {
    var lines := Lines(contents);
    forall j | 0 <= j < |lines|
      ensures !Matches(lines[j], query, false) && !Matches(lines[j], query, true)
    {
      assert lines[j] in lines;
    }
    NoneMatch(lines, query, false);
    NoneMatch(lines, query, true);
  }

  /** Each entry point returns the lines of the text at exactly the matching positions, in
      increasing order: an order-preserving filter of `Lines(contents)`. */
  lemma SearchInOrder(query: string, contents: string)
    ensures Picks(MatchPositions(Lines(contents), query, false), Search(query, contents), Lines(contents))
    ensures Picks(MatchPositions(Lines(contents), query, true), SearchCaseInsensitive(query, contents),
                  Lines(contents))
  {
    MatchingLinesInOrder(Lines(contents), query, false);
    MatchingLinesInOrder(Lines(contents), query, true);
  }

  /** Both matchers pick lines of the text, in order, and the exact matches are precisely the
      case-insensitive matches that also contain the query as written. */
  lemma SearchIsCaseInsensitiveThenExact(query: string, contents: string)
    ensures Search(query, contents) == MatchingLines(SearchCaseInsensitive(query, contents), query, false)
  {
    ExactRefinesCaseInsensitive(Lines(contents), query);
  }

  /** The loop of `search` and `search_case_insensitive`: walk the lines, test each one
      (lower-cased when case is ignored, against the query lowered once up front), and push
      the original line when it matches. */
  method ScanLines(query: string, contents: string, ignoreCase: bool) returns (matchingLines: seq<string>)
    ensures matchingLines == MatchingLines(Lines(contents), query, ignoreCase)
  {
    var lines := Lines(contents);
    var needle := if ignoreCase then Lower(query) else query;
    matchingLines := [];
    for i := 0 to |lines|
      invariant matchingLines == MatchingLines(lines[..i], query, ignoreCase)
    {
      var line := lines[i];
      var haystack := if ignoreCase then Lower(line) else line;
      var found := ContainsScan(haystack, needle);
      assert found == Matches(line, query, ignoreCase);
      MatchingLinesStep(lines, i, query, ignoreCase);
      if found {
        matchingLines := matchingLines + [line];
      }
    }
    assert lines[..|lines|] == lines;
  }

  /* ---------------------------------------------------------------------------
     Running one search
     --------------------------------------------------------------------------- */

  /** Why the file could not be read. */
  datatype IoError = IoError(reason: string)

  /** `run`, given the outcome of reading `config.filePath`: a read error is passed on before
      any matching; otherwise the output is each result of the matcher that `ignoreCase`
      selects, followed by a line break. */
  function Run(config: Config, fileText: Result<string, IoError>): (r: Result<string, IoError>)
    ensures fileText.Err? ==> r == Err(fileText.error)
    ensures fileText.Ok? ==> r.Ok?
  {
    match fileText
    case Err(e) => Err(e)
    case Ok(text) =>
      var results := if config.ignoreCase then SearchCaseInsensitive(config.query, text)
                     else Search(config.query, text);
      Ok(Unlines(results))
  }

  /** Read back line by line, the output of `run` is the sequence of lines of the text that
      match in the configured mode, in order. This holds for "\n" and "\r\n" line endings
      alike; only a line that itself ends in '\r' (a bare '\r' at the end of the text, or
      "\r\r\n") would read back without that '\r'. */
  lemma RunPrintsMatches(config: Config, text: string)
    requires forall l :: l in Lines(text) ==> !EndsWithCr(l)
    ensures Run(config, Ok(text)).Ok?
    ensures Lines(Run(config, Ok(text)).value) == MatchingLines(Lines(text), config.query, config.ignoreCase)
  {
    var results := MatchingLines(Lines(text), config.query, config.ignoreCase);
    forall l | l in results ensures '\n' !in l && !EndsWithCr(l) {
      assert l in Lines(text);
    }
    LinesOfUnlines(results);
  }
}
