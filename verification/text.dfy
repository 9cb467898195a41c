/**
 The standard-library string operations that the line matcher of src/lib.rs is built
 from, stated over `string` (a sequence of `char`):
 - `str::contains`, as the existence of a position where the query occurs;
 - `str::to_lowercase`, restricted to ASCII letters;
 - `str::lines`, splitting on "\n" and dropping one "\r" before it;
 - writing lines out one per line, as `println!` does for each result.
 */
module Text {

  /* ---------------------------------------------------------------------------
     Substring containment
     --------------------------------------------------------------------------- */

  /** `query` occurs in `line` starting at position `i`. */
  predicate OccursAt(line: string, query: string, i: int) {
    0 <= i <= |line| - |query| && line[i..i + |query|] == query
  }

  /** `line` contains `query` as a contiguous run of characters. The bound on `i` repeats
      the one inside OccursAt so that the quantifier has a range the compiler and the
      verifier can use. */
  predicate Contains(line: string, query: string) {
    exists i :: 0 <= i <= |line| - |query| && OccursAt(line, query, i)
  }

  /** A left-to-right scan over the start positions of `line`, the way a substring search
      decides containment. */
  method ContainsScan(line: string, query: string) returns (found: bool)
    ensures found <==> Contains(line, query)
  {
    var i := 0;
    while i + |query| <= |line|
      invariant 0 <= i
      invariant forall j :: 0 <= j < i ==> !OccursAt(line, query, j)
      decreases |line| - i
    {
      if line[i..i + |query|] == query {
        assert OccursAt(line, query, i);
        return true;
      }
      i := i + 1;
    }
    return false;
  }

  /** The empty query occurs in every line, at its start. */
  lemma EmptyQueryContained(line: string)
    ensures Contains(line, [])
  {
    assert OccursAt(line, [], 0);
  }

  /** Every character of a contained query is a character of the line; so a line that lacks
      some character of the query cannot contain it. */
  lemma ContainsOnlyLineChars(line: string, query: string, c: char)
    requires Contains(line, query)
    requires c in query
    ensures c in line
  {
  }

  /** An occurrence of a non-empty query starts with the query's first character. */
  lemma OccurrencesStartWithFirst(line: string, query: string)
    requires query != []
    ensures forall i :: OccursAt(line, query, i) ==> line[i] == query[0]
  {
  }

  /* ---------------------------------------------------------------------------
     ASCII lower-casing
     --------------------------------------------------------------------------- */

  predicate IsUpper(c: char) {
    'A' <= c <= 'Z'
  }

  /** Maps 'A'..'Z' to 'a'..'z' and leaves every other character alone. */
  function LowerChar(c: char): (d: char)
    ensures !IsUpper(d)
    ensures IsUpper(c) ==> d as int == c as int + 32
    ensures !IsUpper(c) ==> d == c
  {
    if IsUpper(c) then (c as int + 32) as char else c
  }

  /** `s` with every upper-case ASCII letter lowered. */
  function Lower(s: string): (r: string)
    ensures |r| == |s|
    ensures forall i :: 0 <= i < |s| ==> r[i] == LowerChar(s[i])
  {
    seq(|s|, i requires 0 <= i < |s| => LowerChar(s[i]))
  }

  /** Lowering twice is lowering once, and a string without upper-case letters is its own
      lower-case form. */
  lemma LowerIdempotent(s: string)
    ensures Lower(Lower(s)) == Lower(s)
    ensures (forall i :: 0 <= i < |s| ==> !IsUpper(s[i])) ==> Lower(s) == s
  {
  }

  /** Lowering commutes with taking a slice. */
  lemma LowerSlice(s: string, i: int, j: int)
    requires 0 <= i <= j <= |s|
    ensures Lower(s)[i..j] == Lower(s[i..j])
  {

  }

  /** Lower-casing keeps every occurrence: a line that contains the query also contains it
      once both are lowered. */
  lemma ContainsLower(line: string, query: string)
    requires Contains(line, query)
    ensures Contains(Lower(line), Lower(query))
  {
    var i :| 0 <= i <= |line| - |query| && OccursAt(line, query, i);
    LowerSlice(line, i, i + |query|);
    assert OccursAt(Lower(line), Lower(query), i);
  }

  /* ---------------------------------------------------------------------------
     Line splitting
     --------------------------------------------------------------------------- */

  /** Position of the first '\n' in `s`, or `|s|` when there is none. */
  function LineEnd(s: string): (k: nat)
    ensures k <= |s|
    ensures forall j :: 0 <= j < k ==> s[j] != '\n'
    ensures k < |s| ==> s[k] == '\n'
  {
    if s == [] || s[0] == '\n' then 0 else 1 + LineEnd(s[1..])
  }

  predicate EndsWithCr(s: string) {
    |s| > 0 && s[|s| - 1] == '\r'
  }

  /** Drops one '\r' that ends a line terminated by "\r\n". */
  function StripCr(piece: string): (r: string)
    ensures piece == r || piece == r + ['\r']
    ensures EndsWithCr(piece) <==> piece != r
  {
    if EndsWithCr(piece) then piece[..|piece| - 1] else piece
  }

  /** The lines of `s`, as `str::lines` yields them: the text is cut after every '\n', the
      '\n' of each piece is dropped together with one '\r' just before it, and a final '\n'
      does not start another, empty, line. A '\r' at the very end of the text, with no '\n'
      after it, stays part of the last line. */
  function Lines(s: string): (ls: seq<string>)
    ensures s == [] <==> ls == []
    ensures forall l :: l in ls ==> '\n' !in l
    decreases |s|
  {
    if s == [] then []
    else
      var k := LineEnd(s);
      if k == |s| then [s]
      else [StripCr(s[..k])] + Lines(s[k + 1..])
  }

  /** The text that writing each line followed by '\n' produces. */
  function Unlines(ls: seq<string>): (s: string)
    ensures ls == [] <==> s == []
    ensures s != [] ==> s[|s| - 1] == '\n'
  {
    if ls == [] then [] else ls[0] + "\n" + Unlines(ls[1..])
  }

  /** `s` with a '\n' added when its last line is not terminated. */
  function Terminated(s: string): string {
    if s == [] || s[|s| - 1] == '\n' then s else s + "\n"
  }

  /** LineEnd finds the first '\n' and nothing else. */
  lemma LineEndUnique(s: string, k: nat)
    requires k <= |s|
    requires forall j :: 0 <= j < k ==> s[j] != '\n'
    requires k < |s| ==> s[k] == '\n'
    ensures LineEnd(s) == k
  {
  }

  /** A text made of an unterminated line `p`, a '\n' and more text splits into `p`
      (less a '\r' before the '\n') followed by the lines of the rest. */
  lemma LinesAfterNewline(p: string, rest: string)
    requires '\n' !in p
    ensures Lines(p + "\n" + rest) == [StripCr(p)] + Lines(rest)
  {
    var s := p + "\n" + rest;
    LineEndUnique(s, |p|);
    assert s[..|p|] == p;
    assert s[|p| + 1..] == rest;
  }

  /** The lines of a text without carriage returns have none either. */
  lemma {:induction false} LinesWithoutCarriageReturns(s: string)
    requires '\r' !in s
    ensures forall l :: l in Lines(s) ==> '\r' !in l
    decreases |s|
  {
    if s != [] {
      var k := LineEnd(s);
      if k < |s| {
        var p, rest := s[..k], s[k + 1..];
        assert s == p + "\n" + rest;
        assert '\r' !in p && '\r' !in rest by {
          assert forall c :: c in p ==> c in s;
          assert forall c :: c in rest ==> c in s;
        }
        LinesAfterNewline(p, rest);
        LinesWithoutCarriageReturns(rest);
      }
    }
  }

  /** Splitting the written-out lines gives the lines back, provided none of them holds a
      '\n' or ends in a '\r' that the split would take for part of a "\r\n". */
  lemma {:induction false} LinesOfUnlines(ls: seq<string>)
    requires forall l :: l in ls ==> '\n' !in l && !EndsWithCr(l)
    ensures Lines(Unlines(ls)) == ls
  {
    if ls != [] {
      assert ls[0] in ls;
      LinesAfterNewline(ls[0], Unlines(ls[1..]));
      LinesOfUnlines(ls[1..]);
    }
  }

  /** Writing out the lines of a text without carriage returns reproduces the text, with a
      final '\n' added when it had none. */
  lemma {:induction false} UnlinesOfLines(s: string)
    requires '\r' !in s
    ensures Unlines(Lines(s)) == Terminated(s)
    decreases |s|
  {
    if s != [] {
      var k := LineEnd(s);
      if k < |s| {
        var p, rest := s[..k], s[k + 1..];
        assert s == p + "\n" + rest;
        assert '\r' !in p && '\r' !in rest by {
          assert forall c :: c in p ==> c in s;
          assert forall c :: c in rest ==> c in s;
        }
        LinesAfterNewline(p, rest);
        UnlinesOfLines(rest);
        var ls := [p] + Lines(rest);
        assert ls[1..] == Lines(rest);
        assert Unlines(Lines(s)) == p + "\n" + Terminated(rest);
        if rest != [] {
          assert s[|s| - 1] == rest[|rest| - 1];
        }
      }
    }
  }

  /** The one-line case: a text without '\n' is one line, with or without its ending. */
  lemma LinesOfLastLine(s: string, ending: string)
    requires s != [] && '\n' !in s && !EndsWithCr(s)
    requires ending == "\n" || ending == "\r\n"
    ensures Lines(s + ending) == Lines(s) == [s]
  {
    LineEndUnique(s, |s|);
    var p := if ending == "\n" then s else s + ['\r'];
    assert s + ending == p + "\n" + [];
    LinesAfterNewline(p, []);
  }

  /** A final line ending is optional: adding "\n" or "\r\n" after a non-empty text whose
      last line is unterminated (and does not end in '\r') leaves its lines unchanged. */
  lemma {:induction false} FinalLineEndingOptional(s: string, ending: string)
    requires s != [] && s[|s| - 1] != '\n' && !EndsWithCr(s)
    requires ending == "\n" || ending == "\r\n"
    ensures Lines(s + ending) == Lines(s)
    decreases |s|
  {
    var k := LineEnd(s);
    if k == |s| {
      assert '\n' !in s;
      LinesOfLastLine(s, ending);
    } else {
      var p, rest := s[..k], s[k + 1..];
      assert s == p + "\n" + rest;
      assert rest != [] by {
        assert k != |s| - 1;
      }
      assert s + ending == p + "\n" + (rest + ending);
      assert rest[|rest| - 1] == s[|s| - 1];
      LinesAfterNewline(p, rest);
      LinesAfterNewline(p, rest + ending);
      FinalLineEndingOptional(rest, ending);
    }
  }
}
