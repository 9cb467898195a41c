/** The unit tests of src/lib.rs, as facts about the model on the same three-line text. */
module MinigrepTests {
  import opened Text
  import opened Minigrep

  const Line0: string := "Rust:"
  const Line1: string := "safe, fast, productive."
  const Line2: string := "Pick three."

  /** The test text "Rust:\nsafe, fast, productive.\nPick three.": three lines, no final
      line break. */
  const Content: string := Line0 + "\n" + Line1 + "\n" + Line2

  /** Three plain lines joined by '\n', without a final one, split back into those lines. */
  lemma ThreeLines(a: string, b: string, c: string)
    requires '\n' !in a && '\n' !in b && '\n' !in c
    requires !EndsWithCr(a) && !EndsWithCr(b) && c != []
    ensures Lines(a + "\n" + b + "\n" + c) == [a, b, c]
  {
    var bc := b + "\n" + c;
    var whole := a + "\n" + b + "\n" + c;
    assert Lines(bc) == [b, c] by {
      LineEndUnique(c, |c|);
      LinesAfterNewline(b, c);
    }
    assert whole == a + "\n" + bc;
    assert Lines(whole) == [a] + Lines(bc) by {
      LinesAfterNewline(a, bc);
    }
    assert [a] + [b, c] == [a, b, c];
  }

  /** Matching three lines keeps each one that matches, in order. */
  lemma MatchingThree(a: string, b: string, c: string, query: string, ignoreCase: bool)
    ensures MatchingLines([a, b, c], query, ignoreCase) ==
              (if Matches(a, query, ignoreCase) then [a] else []) +
              (if Matches(b, query, ignoreCase) then [b] else []) +
              (if Matches(c, query, ignoreCase) then [c] else [])
  {
    var ma := if Matches(a, query, ignoreCase) then [a] else [];
    var mb := if Matches(b, query, ignoreCase) then [b] else [];
    var mc := if Matches(c, query, ignoreCase) then [c] else [];
    assert MatchingLines([a], query, ignoreCase) == ma by {
      assert [a][..0] == [];
    }
    assert MatchingLines([a, b], query, ignoreCase) == ma + mb by {
      assert [a, b][..1] == [a];
    }
    assert [a, b, c][..2] == [a, b];
  }

  /** The test text has three lines. */
  lemma ContentLines()
    ensures Lines(Content) == [Line0, Line1, Line2]
  {
    assert '\n' !in Line0;
    assert '\n' !in Line1;
    assert '\n' !in Line2;
    ThreeLines(Line0, Line1, Line2);
  }

  /** Which lines contain "duct": only the middle one. */
  lemma DuctMatches()
    ensures !Matches(Line0, "duct", false)
    ensures Matches(Line1, "duct", false)
    ensures !Matches(Line2, "duct", false)
  {
    assert OccursAt(Line1, "duct", 15);
    assert 'd' in "duct" && 'd' !in Line0 && 'd' !in Line2;
    if Contains(Line0, "duct") {
      ContainsOnlyLineChars(Line0, "duct", 'd');
    }
    if Contains(Line2, "duct") {
      ContainsOnlyLineChars(Line2, "duct", 'd');
    }
  }

  /** No line contains "rUsT" as written: none has an upper-case 'U'. */
  lemma RustExactMatches()
    ensures !Matches(Line0, "rUsT", false)
    ensures !Matches(Line1, "rUsT", false)
    ensures !Matches(Line2, "rUsT", false)
  {
    assert 'U' in "rUsT" && 'U' !in Line0 && 'U' !in Line1 && 'U' !in Line2;
    if Contains(Line0, "rUsT") {
      ContainsOnlyLineChars(Line0, "rUsT", 'U');
    }
    if Contains(Line1, "rUsT") {
      ContainsOnlyLineChars(Line1, "rUsT", 'U');
    }
    if Contains(Line2, "rUsT") {
      ContainsOnlyLineChars(Line2, "rUsT", 'U');
    }
  }

  lemma LowerQuery()
    ensures Lower("rUsT") == "rust"
  {
  }

  /** Ignoring case, "rUsT" matches the first line ("rust:" once lowered). */
  lemma RustFirstLine()
    ensures Matches(Line0, "rUsT", true)
  {
    LowerQuery();
    assert Lower(Line0) == "rust:";
    assert OccursAt(Lower(Line0), "rust", 0);
  }

  /** A line none of whose characters lowers to some character of the lowered query does
      not match ignoring case. */
  lemma NoMatchMissingChar(line: string, query: string, lowered: string, c: char)
    requires Lower(query) == lowered && c in lowered
    requires forall i :: 0 <= i < |line| ==> LowerChar(line[i]) != c
    ensures !Matches(line, query, true)
  {
  }

  /** Ignoring case, "rUsT" does not match the last line: it has no 'u' in either case. */
  lemma RustNotLastLine()
    ensures !Matches(Line2, "rUsT", true)
  {
    LowerQuery();
    assert 'u' in "rust";
    NoMatchMissingChar(Line2, "rUsT", "rust", 'u');
  }

  /** The middle line has no upper-case letter. */
  lemma MiddleLineIsLowerCase()
    ensures Lower(Line1) == Line1
  {
  }

  /** The only 'r' of the middle line is at position 13, where "roductive" starts. */
  lemma MiddleLineR()
    ensures forall i :: 0 <= i < |Line1| && Line1[i] == 'r' ==> i == 13
    ensures !OccursAt(Line1, "rust", 13)
  {
    assert Line1[13..17][1] == Line1[14];
  }

  /** A line already in lower case, whose only candidate start for the lowered query fails,
      does not match ignoring case. */
  lemma NoMatchIgnoringCase(line: string, query: string, lowered: string, p: int)
    requires Lower(query) == lowered && lowered != []
    requires Lower(line) == line
    requires forall i :: 0 <= i < |line| && line[i] == lowered[0] ==> i == p
    requires !OccursAt(line, lowered, p)
    ensures !Matches(line, query, true)
  {
    OccurrencesStartWithFirst(line, lowered);
  }

  /** Ignoring case, "rUsT" does not match the middle line. */
  lemma RustNotMiddleLine()
    ensures !Matches(Line1, "rUsT", true)
  {
    LowerQuery();
    MiddleLineIsLowerCase();
    MiddleLineR();
    NoMatchIgnoringCase(Line1, "rUsT", "rust", 13);
  }

  /** `one_result`: searching for "duct" gives the middle line. */
  lemma OneResult()
    ensures Search("duct", Content) == [Line1]
  {
    ContentLines();
    MatchingThree(Line0, Line1, Line2, "duct", false);
    DuctMatches();
  }

  /** `case_sensitive`: searching for "rUsT" as written gives nothing. */
  lemma CaseSensitive()
    ensures Search("rUsT", Content) == []
  {
    ContentLines();
    MatchingThree(Line0, Line1, Line2, "rUsT", false);
    RustExactMatches();
  }

  /** `case_insensitive`: ignoring case, "rUsT" gives the first line, kept as "Rust:". */
  lemma CaseInsensitive()
    ensures SearchCaseInsensitive("rUsT", Content) == [Line0]
  {
    ContentLines();
    MatchingThree(Line0, Line1, Line2, "rUsT", true);
    RustFirstLine();
    RustNotMiddleLine();
    RustNotLastLine();
  }
}
