# minigrep in Dafny

A model of the library of minigrep, a small command-line text search tool written in Rust.
The library's `run` prints every line of a file that contains a query, and `Config::build`
turns on case-insensitive matching when the environment variable `IGNORE_CASE` is set. The
`main` in this repository does not call the library yet: it prints the whole file.

The model covers three things from `src/lib.rs`:

- `Config::build`, which checks the argument vector and reads the `IGNORE_CASE` flag.
  The environment is passed in as a `map<string, string>`.
- The two line matchers, `search` and `search_case_insensitive`. Both walk `contents.lines()`
  and push every matching line onto a vector.
- The branch of `run` that picks one matcher. The file contents are passed in as a parameter.

Files:

- `wrappers.dfy`: module `Wrappers`, the `Result` type that `Config::build` and `run` return.
- `text.dfy`: module `Text`, the standard-library string operations the matchers use.
  `Contains` models `str::contains`, `Lower` models `str::to_lowercase` on ASCII letters,
  and `Lines` models `str::lines`. `Unlines` is the text that printing each line with
  `println!` produces. The module also holds the lemmas that connect these operations.
- `minigrep.dfy`: module `Minigrep`, holding `Config`, `Build`, the matcher `MatchingLines`
  with its two entry points `Search` and `SearchCaseInsensitive`, the loop `ScanLines`,
  and `Run`.
- `minigrep_tests.dfy`: module `MinigrepTests`, the three unit tests of `src/lib.rs`
  stated as lemmas.

`MatchingLines(lines, query, ignoreCase)` is the vector that the matcher loop builds. The flag
`ignoreCase` selects the match predicate `Matches`. It is exact containment, or containment
after both the line and the query are lower-cased. `MatchPositions` lists the positions of the
matching lines. `MatchingLinesInOrder` and `SelectionIsUnique` together prove that the result
is exactly the subsequence of the lines at those positions.

Line splitting follows the Rust standard library's `str::lines`. The text is cut after every
`'\n'`. The `'\n'` is dropped from each piece, and so is one `'\r'` just before it. So
`str::lines` breaks lines only at `"\n"` and `"\r\n"`, and a lone `'\r'` does not end a
line. A final `'\n'` does not start an empty last line. A `'\r'` at the very end of the
text, with no `'\n'` after it, stays part of the last line; this is how current Rust
behaves.

`Config::build` makes one length check and returns `"Not enough arguments"` when it fails.

## Model

| member | source | states |
|---|---|---|
| Minigrep.Build | src/lib.rs:12-27 | Fails exactly when there are fewer than three arguments, with the message "Not enough arguments". On success the query is `args[1]` and the file path is `args[2]`. `ignoreCase` holds exactly when `IGNORE_CASE` is in the environment, whatever its value. |
| Minigrep.BuildUsesOnlyItsInputs | src/lib.rs:17-20 | Extra arguments after the file path do not change the configuration. Neither does any change to the environment that keeps `IGNORE_CASE` present, or keeps it absent. |
| Minigrep.Matches | src/lib.rs:50 | The test each loop makes on one line. Exact mode: the line contains the query. Case-insensitive mode (lib.rs:61-63): the lower-cased line contains the lower-cased query. It is a predicate, so its meaning is its definition; what it implies is stated by `Search`, `SearchCaseInsensitive` and `ExactRefinesCaseInsensitive`. |
| Minigrep.MatchingLines | src/lib.rs:47-55 | The matcher loop returns no more lines than it reads. Every returned line is an input line that matches (sound). Every input line that matches is returned (complete). |
| Minigrep.MatchingLinesInOrder | src/lib.rs:47-55 | The result is the input lines at the matching positions, taken in increasing order. It is an order-preserving subsequence that keeps each matching line once. |
| Minigrep.SelectionIsUnique | src/lib.rs:47-55 | The converse: any subsequence taken at increasing positions that are exactly the matching ones equals the matcher's result. |
| Minigrep.Search | src/lib.rs:46-56 | Every result is a line of the contents that contains the query. Every line of the contents that contains the query is in the result. The result has at most as many entries as there are lines. |
| Minigrep.SearchCaseInsensitive | src/lib.rs:58-69 | Every result is an original, un-lowered line of the contents whose lower-cased form contains the lower-cased query. Every such line is in the result. |
| Minigrep.SearchEdgeCases | src/lib.rs:49-50 | The empty query returns all lines unchanged and in order. Text with no lines gives an empty result in both modes. |
| Minigrep.SearchLongQuery | src/lib.rs:50 | A query longer than every line gives an empty result, in both the exact and the case-insensitive mode. |
| Minigrep.SearchInOrder | src/lib.rs:46-69 | Both `search` and `search_case_insensitive` return the lines of the contents at exactly the matching positions, taken in increasing order: an order-preserving filter that keeps each matching line once. |
| Minigrep.SearchIsCaseInsensitiveThenExact | src/lib.rs:46-69 | Exact search equals case-insensitive search followed by filtering for exact containment. So every exact match is also a case-insensitive match, and it comes in the same relative order. |
| Minigrep.CaseInsensitiveSeesLoweredQuery | src/lib.rs:61 | In case-insensitive mode, two queries with the same lower-case form give the same result. |
| Minigrep.CaseInsensitiveOnLowerCase | src/lib.rs:61-63 | When the query and every line lack upper-case letters, the case-insensitive result equals the exact one. |
| Minigrep.ScanLines | src/lib.rs:46-69 | The loop walks the lines, lowers the query once, and tests each line (lowered when case is ignored) with a substring scan. It returns the original matching lines in order, as `MatchingLines` specifies. |
| Minigrep.Run | src/lib.rs:30-37 | A failed file read is returned unchanged, and no matching happens. A successful read always succeeds. |
| Minigrep.RunPrintsMatches | src/lib.rs:33-41 | Reading the printed output back line by line gives exactly the matching lines of the chosen mode, in order. This holds for files with `"\n"` or `"\r\n"` line endings. It requires only that no line of the text ends in `'\r'`, which happens only for a bare `'\r'` at the end of the text or a `"\r\r\n"`. |
| Text.Contains | src/lib.rs:50 | `str::contains`: the query occurs in the line at some position `i`, with `0 <= i <= |line| - |query|`. It is a predicate, so this is its definition. `ContainsScan` is the independent scan proved equal to it. |
| Text.ContainsScan | src/lib.rs:50 | A left-to-right scan answers true exactly when the query occurs in the line at some position. |
| Text.EmptyQueryContained | src/lib.rs:50 | Every line contains the empty query. |
| Text.ContainsOnlyLineChars | src/lib.rs:50 | Every character of a contained query occurs in the line. |
| Text.ContainsLower | src/lib.rs:61-63 | A line that contains the query still contains it after both are lower-cased. |
| Text.Lower | src/lib.rs:61-63 | `to_lowercase`, restricted to ASCII. Its ensures are its definition: the length is kept and each character is mapped by `LowerChar` ('A' to 'Z' become 'a' to 'z', all others are unchanged). Its properties are proved in `LowerIdempotent` and `ContainsLower`. |
| Text.LowerIdempotent | src/lib.rs:61-63 | Lower-casing twice is the same as lower-casing once. A string without upper-case letters is its own lower-case form. |
| Text.Lines | src/lib.rs:49 | Empty text has no lines, and non-empty text has at least one. No line contains a `'\n'`. |
| Text.Unlines | src/lib.rs:39-41 | The text that the `println!` loop writes: each line followed by `'\n'`. Its ensures say only that the text is empty exactly when there are no lines, and otherwise ends in `'\n'`. `LinesOfUnlines` and `UnlinesOfLines` relate it to `Lines`. |
| Text.LinesWithoutCarriageReturns | src/lib.rs:49 | The lines of a text without `'\r'` contain no `'\r'`. |
| Text.LinesOfUnlines | src/lib.rs:39-41 | Printing lines, one per line, and splitting the output gives the same lines back. This holds when no line contains `'\n'` or ends in `'\r'`. |
| Text.UnlinesOfLines | src/lib.rs:49 | For text without `'\r'`, splitting into lines and printing them one per line gives back the text, with a final `'\n'` added when it had none. |
| Text.FinalLineEndingOptional | src/lib.rs:49 | Adding a final `"\n"` or `"\r\n"` to a non-empty text whose last line is unterminated and does not end in `'\r'` leaves its lines unchanged. So a final line ending produces no spurious empty line. |
| MinigrepTests.ContentLines | src/lib.rs:75-78 | The test text has the three lines "Rust:", "safe, fast, productive." and "Pick three.". |
| MinigrepTests.OneResult | src/lib.rs:80-84 | `search("duct")` on the test text returns `["safe, fast, productive."]`. |
| MinigrepTests.CaseSensitive | src/lib.rs:86-90 | `search("rUsT")` on the test text returns nothing. |
| MinigrepTests.CaseInsensitive | src/lib.rs:92-96 | `search_case_insensitive("rUsT")` on the test text returns `["Rust:"]`. |

## Left out

- `src/main.rs` is not part of this model. It is input/output glue that indexes `args`
  directly, reads the file, prints it, and never calls the library.
- File reading (`fs::read_to_string`) is modelled only by its outcome, a parameter of `Run`
  that holds the text or an `IoError`. Which I/O errors can occur is not modelled.
- Printing (`println!`) is modelled as the text it writes (`Unlines`). Standard output
  itself is left out.
- The process environment is a `map<string, string>`. The `env::var` case where a present
  value that is not valid Unicode reads as unset is process behaviour and is not modelled.
- Text.Lower: lowers only the ASCII letters 'A' to 'Z'. Rust's `to_lowercase` applies the
  full Unicode case mappings, which depend on Unicode tables and can change a string's
  length. So `SearchCaseInsensitive` models the source exactly only for ASCII case
  differences.
- Minigrep.SearchLongQuery: the case-insensitive half relies on ASCII lower-casing keeping
  every string's length. In Rust it fails: the one-character line "İ" lowers to the
  two-character "i̇", which contains the longer two-character query "i̇".
- Text.ContainsScan: decides containment with a naive scan. Rust's `str::contains` uses a
  different search algorithm; only its answer is modelled, not its speed.
- The result vector holds borrowed slices of the contents in Rust. The model returns string
  values equal to those slices.
- `run` returns `Box<dyn Error>`. Here the error is the `IoError` given as input, and the
  process exit status and the standard-error message are left out.
