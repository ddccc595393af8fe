# minigrep, modelled in Dafny

minigrep is a small command-line grep: given a query, a file name and two
flags, it prints every line of the file that contains the query. The search
ignores case unless the `CASE_SENSITIVE` environment variable is set. With
line numbers on (a third argument `ln`), each printed
line is preceded by its 1-based number and a gutter that pads numbers below
1000 to a common width.

This project models the library core of that program, `src/lib.rs`:

- `rust_str.dfy` (module `RustStr`) holds pure models of the parts of Rust's
  string library that the core relies on. These are `str::lines` (split at
  line feeds, `"\r\n"` counted as one terminator, final terminator optional),
  `str::contains`, `str::to_lowercase` on ASCII letters, and `usize::to_string`.
- `matcher.dfy` (module `Matcher`) holds the `Line` record, the two searches,
  the dispatch between them, and the gutter helpers `number_len` and
  `separator`.
- `matcher_examples.dfy` (module `MatcherExamples`) proves the two unit tests
  of `src/lib.rs` about the model.
- `render.dfy` (module `Render`) holds the part of `run` after the file is
  read. It computes the capacity hint, then runs the output loop as a method
  over a growing string, proved against a specification function `Rendered`.

The searches are pipelines of iterator adapters, so they are modelled as
functions. `Select` is the `zip(1..).filter(..).map(..)` chain, and lemmas
prove that its result lists exactly the accepted lines. The output loop of
`run` is modelled as a method with a loop invariant.

## Model

| member | source | states |
|---|---|---|
| RustStr.Lines | src/lib.rs:48-49 | the lines of a text never contain a line feed, and there are at most as many lines as characters |
| RustStr.FirstNewline | src/lib.rs:48-49 | the position where the first line ends: a line feed there and none before it, or the end of the text |
| RustStr.StripCr | src/lib.rs:48-49 | a carriage return just before a line feed belongs to the terminator and is removed from the line |
| RustStr.FirstNewlineOfLine | src/lib.rs:48-49 | the first line ends at the line feed that follows a text without one |
| RustStr.LinesCount | src/lib.rs:48-49 | a text has one line per line feed, plus one for a last line without terminator; empty text has no lines |
| RustStr.LinesCons | src/lib.rs:48-49 | splitting `l + "\n" + rest` gives `l` (without a trailing carriage return) followed by the lines of `rest` |
| RustStr.LinesLast | src/lib.rs:48-49 | a non-empty last line without terminator is one line |
| RustStr.LinesOfUnlines | src/lib.rs:48-49 | splitting lines joined with line feeds gives them back, when none holds a line feed or ends in a carriage return |
| RustStr.UnlinesOfLines | src/lib.rs:48-49 | a text without carriage returns that is empty or ends in a line feed is rebuilt exactly from its lines |
| RustStr.CountAppend | src/lib.rs:32 | the number of occurrences of a character in a concatenation is the sum of the counts of the parts |
| RustStr.CountAtFirstNewline | src/lib.rs:48-49 | the line feeds of a text are its first one and those after it |
| RustStr.CountAbsent | src/lib.rs:48-49 | a text without a line feed counts none |
| RustStr.ContainsIff | src/lib.rs:51 | `contains` holds exactly when the pattern occurs at some position, in both directions |
| RustStr.Contains | src/lib.rs:51 | `str::contains`, tried at each start in turn; its meaning is proved by ContainsIff |
| RustStr.NotContainsWithoutFirst | src/lib.rs:51 | a pattern whose first character does not appear in the text is not contained |
| RustStr.NotContainsAfter | src/lib.rs:51 | a pattern that cannot start in the first k characters is contained only if it is contained in the rest |
| RustStr.ContainsEmpty | src/lib.rs:51 | the empty query is contained in every line |
| RustStr.LowerChar | src/lib.rs:63 | lower-casing yields no capital letter, moves A-Z to a-z and keeps every other character |
| RustStr.ToLowercase | src/lib.rs:63 | `to_lowercase`, one character at a time with LowerChar; properties in LowercaseSlice, LowercaseIdempotent, ContainsLowercase |
| RustStr.LowercaseSlice | src/lib.rs:63 | lower-casing commutes with taking a slice |
| RustStr.ContainsLowercase | src/lib.rs:63 | when a line contains the query, its lower-cased text contains the lower-cased query |
| RustStr.LowercaseIdempotent | src/lib.rs:63 | lower-casing twice gives the same text as lower-casing once |
| RustStr.NatToString | src/lib.rs:26 | the numeral of a line number is non-empty, all digits, with no leading zero |
| RustStr.DigitChar | src/lib.rs:26 | the digit character of a value below 10 is a digit whose value is that value |
| RustStr.ParseNatToString | src/lib.rs:26 | reading the numeral back gives the number |
| RustStr.NatToStringLength | src/lib.rs:26 | the numeral has 1, 2 or 3 digits below 10, 100 and 1000, and at least 4 from 1000 on |
| Matcher.SelectSound | src/lib.rs:48-56 | every returned line was accepted by the filter, has a number in range and carries the text of the line at that number |
| Matcher.Select | src/lib.rs:48-56 | the `zip(1..).filter(..).map(..)` chain; what it returns is proved by SelectSound, SelectIncreasing, SelectComplete |
| Matcher.SelectIncreasing | src/lib.rs:48-56 | the returned lines are in strictly increasing number order, which is file order |
| Matcher.SelectComplete | src/lib.rs:48-56 | every line the filter accepts is returned |
| Matcher.SelectExactlyMatching | src/lib.rs:48-56 | numbered from 1, the result is exactly the accepted lines, in order, with their own text |
| Matcher.SearchCaseSensitiveExact | src/lib.rs:47-57 | `search_case_sensitive` returns exactly the lines containing the query, in file order, under their 1-based numbers |
| Matcher.HasQuery | src/lib.rs:51 | the filter of the case-sensitive search: the line contains the query |
| Matcher.SearchCaseSensitive | src/lib.rs:47-57 | `search_case_sensitive`; exactly the lines containing the query, in file order, see SearchCaseSensitiveExact |
| Matcher.SearchCaseInsensitiveExact | src/lib.rs:59-68 | `search_case_insensitive` returns exactly the lines whose lower-cased text contains the lower-cased query, with the original text kept |
| Matcher.HasQueryIgnoringCase | src/lib.rs:63 | the filter of the case-insensitive search: the lower-cased line contains the lower-cased query |
| Matcher.SearchCaseInsensitive | src/lib.rs:59-68 | `search_case_insensitive`; exactly the lines matching ignoring case, original text kept, see SearchCaseInsensitiveExact |
| Matcher.MatchingIsUnique | src/lib.rs:47-68 | only one sequence lists exactly the accepted lines in order, so a search result is determined by the lines and the filter |
| Matcher.IncreasingSameNumbers | src/lib.rs:50 | two increasing result lists holding the same line numbers agree position by position |
| Matcher.SameFirst | src/lib.rs:50 | two increasing result lists holding the same line numbers start with the same number |
| Matcher.TailNumbersIn | src/lib.rs:50 | once their first numbers agree, the numbers of one list's tail all appear in the other's tail |
| Matcher.SearchNumbersInRange | src/lib.rs:6-10 | whichever search `run` picks, its numbers increase, lie in 1..number of lines, and each carries the text of the line at number - 1 |
| Matcher.Search | src/lib.rs:6-10 | the choice `run` makes between the two searches by the case flag; its results are characterised by SearchNumbersInRange |
| Matcher.SearchEmptyContents | src/lib.rs:6-10 | empty contents yield no matches in either mode |
| Matcher.EmptyQueryMatchesEveryLine | src/lib.rs:47-57 | the empty query returns every line of the file, numbered 1, 2, 3, ... |
| Matcher.SelectAcceptingAll | src/lib.rs:48-56 | a filter that accepts every line selects every line, numbered 1, 2, 3, ... |
| Matcher.EmptyQueryMatchesEveryLineIgnoringCase | src/lib.rs:59-68 | the empty query also returns every line, numbered 1, 2, 3, ..., when case is ignored |
| Matcher.InsensitiveFindsAll | src/lib.rs:47-68 | every case-sensitive match is also a case-insensitive match |
| Matcher.NumberLen | src/lib.rs:78-85 | the result is the digit count of the number below 1000, 0 from 1000 on, and never more than 3 |
| Matcher.Separator | src/lib.rs:87-101 | below 1000 the numeral and separator take 6 columns and the separator is spaces, a bar and a space; from 1000 on it is empty; it is never the bar-and-space string of the unreachable arm |
| Matcher.GutterAligned | src/lib.rs:78-101 | below 1000 the numeral plus separator is 6 characters, with the bar at column 4 and a space at column 5 |
| MatcherExamples.PoemLines | src/lib.rs:182-186 | the test text splits into its four lines |
| MatcherExamples.PoemFixedLines | src/lib.rs:183-185 | the three fixed test lines hold no line feed and do not end in a carriage return |
| MatcherExamples.DuctInProductive | src/lib.rs:181-184 | "duct" occurs in "safe, fast, productive." |
| MatcherExamples.DuctNotInRust | src/lib.rs:181-183 | "duct" does not occur in "Rust:" |
| MatcherExamples.DuctNotInPick | src/lib.rs:181-185 | "duct" does not occur in "Pick three." |
| MatcherExamples.DuctNotInDuctTape | src/lib.rs:181-186 | "duct" does not occur in "Duct tape.", since the search is case-sensitive |
| MatcherExamples.SelectCons | src/lib.rs:48-56 | selecting from a line followed by more lines: the line, if accepted, then the selection from the rest numbered one higher |
| MatcherExamples.SelectSecondOfFour | src/lib.rs:48-56 | of four lines, when only the second is accepted, the result is that line numbered 2 |
| MatcherExamples.SelectFirstAndLastOfFour | src/lib.rs:48-56 | of four lines, when only the first and last are accepted, the result is those lines numbered 1 and 4 |
| MatcherExamples.CaseSensitiveExample | src/lib.rs:180-195 | searching the test text for "duct" gives only line 2, "safe, fast, productive." |
| MatcherExamples.LoweredQuery | src/lib.rs:199 | "rUsT" lower-cases to "rust" |
| MatcherExamples.RustNotInProductive | src/lib.rs:199-202 | "rust" does not occur in "safe, fast, productive." |
| MatcherExamples.RustNotInThree | src/lib.rs:199-203 | "rust" does not occur in "pick three." |
| MatcherExamples.RustInTrust | src/lib.rs:199-204 | "rust" occurs in "trust me." |
| MatcherExamples.RustMatchesRust | src/lib.rs:199-201 | "Rust:" matches "rUsT" ignoring case |
| MatcherExamples.RustMissesProductive | src/lib.rs:199-202 | "safe, fast, productive." does not match "rUsT" ignoring case |
| MatcherExamples.RustMissesPick | src/lib.rs:199-203 | "Pick three." does not match "rUsT" ignoring case |
| MatcherExamples.RustMatchesTrust | src/lib.rs:199-204 | "Trust me." matches "rUsT" ignoring case |
| MatcherExamples.CaseInsensitiveExample | src/lib.rs:197-219 | searching the test text for "rUsT" ignoring case gives lines 1 "Rust:" and 4 "Trust me." in their original case |
| Render.Render | src/lib.rs:22-33 | the output loop builds exactly `Rendered` of the matches, whatever the reserved capacity |
| Render.RenderedLine | src/lib.rs:25-32 | what one match adds to the output; its shape is proved by GutterColumns, WideNumberHasNoGutter, RenderedLineNewlines |
| Render.Rendered | src/lib.rs:24-33 | the whole output, one rendered line per match in order; proved equal to the loop by Render and characterised by RenderedPlain, RenderedNewlines |
| Render.RenderedPrefix | src/lib.rs:24-33 | one more match extends the output by that match's rendered line |
| Render.PushedLine | src/lib.rs:25-32 | the pushes of the loop body append exactly one rendered line, with or without line numbers |
| Render.Run | src/lib.rs:6-33 | `run` renders exactly the matches of the search selected by the case flag |
| Render.UnlinesSnoc | src/lib.rs:30-32 | appending one more line and its line feed extends the joined text by that line and a line feed |
| Render.RenderedPlain | src/lib.rs:29-32 | without line numbers the output is each match's text followed by a line feed, in order |
| Render.PlainOutputSplitsBack | src/lib.rs:29-32 | without line numbers, splitting the output into lines gives back the matched texts |
| Render.NoNewlineInNumeral | src/lib.rs:26 | a numeral holds no line feed |
| Render.RenderedLineNewlines | src/lib.rs:25-32 | each rendered match holds exactly one line feed |
| Render.RenderedNewlines | src/lib.rs:24-33 | the output holds exactly one line feed per match |
| Render.RunNewlines | src/lib.rs:6-33 | the output of `run` holds exactly one line feed per matching line |
| Render.RunEmptyContents | src/lib.rs:6-33 | empty contents give empty output |
| Render.GutterColumns | src/lib.rs:25-32 | with line numbers, a match below 1000 renders as a 6-column gutter with the bar at column 4, then its text and a line feed |
| Render.WideNumberHasNoGutter | src/lib.rs:25-32 | with line numbers, a match numbered 1000 or more renders as numeral, text, line feed, with no separator |
| Render.LineCapacityLength | src/lib.rs:14-19 | each capacity summand equals the rendered length of its match, except it falls short by the numeral length for numbers of 1000 or more |
| Render.LineCapacity | src/lib.rs:14-19 | the summand for one match; related to its rendered length by LineCapacityLength |
| Render.Capacity | src/lib.rs:12-21 | the sum of the summands; bounded by the output length in CapacityBound |
| Render.Undercount | src/lib.rs:12-21 | how far the capacity falls short: the numerals of matches numbered 1000 or more, with line numbers on |
| Render.RenderedLength | src/lib.rs:12-33 | the output length is exactly the capacity plus the undercount |
| Render.UndercountZero | src/lib.rs:12-21 | there is no undercount exactly when line numbers are off or every match is numbered below 1000 |
| Render.CapacityBound | src/lib.rs:12-21 | the capacity never exceeds the output length; it equals it without line numbers or when every number is below 1000, and is strictly smaller otherwise |
| Render.RenderedSingle | src/lib.rs:24-33 | with line numbers, one match renders as its numeral, its separator, its text and a line feed |
| Render.RenderOneDigitExample | src/lib.rs:25-32 | line 2 renders as "2", three spaces, a bar and a space, followed by its text |
| Render.NumeralExamples | src/lib.rs:26 | the numerals of 2, 10, 100 and 1000 |
| Render.SeparatorExamples | src/lib.rs:87-101 | the separators of 2, 10, 100 and 1000: three spaces, two spaces or one space before the bar, and nothing |
| Render.RenderTwoDigitExample | src/lib.rs:25-32 | line 10 renders as "10", two spaces, a bar and a space, followed by its text |
| Render.RenderThreeDigitExample | src/lib.rs:25-32 | line 100 renders as "100", a space, a bar and a space, followed by its text |
| Render.RenderFourDigitExample | src/lib.rs:25-32 | line 1000 renders as "1000" followed directly by its text |

## Left out

- Reading the file (`fs::read_to_string`, src/lib.rs:4) and its error: the contents are a parameter of `Render.Run`.
- Printing the output (src/lib.rs:35): `Render.Run` returns the text instead.
- The diagnostic that `separator` writes to standard error for numbers of 1000 and more (src/lib.rs:94-97, `info` at 168-173): it does not affect the output text.
- Argument parsing (`Config::new`, src/lib.rs:127-166) and `src/main.rs`: `Render.Config` holds the three fields `run` uses after reading the file; the file name is not needed.
- RustStr.ToLowercase: lower-cases ASCII letters only. Rust's full Unicode lower-casing, which can change a text's length, is not modelled.
- Matcher.InsensitiveFindsAll: proved for lower-casing one ASCII character at a time. It fails for Rust's context-dependent mappings: `to_lowercase` turns a word-final 'Σ' into 'ς' but a lone 'Σ' into 'σ', so with contents "ΑΣ" and query "Σ" the case-sensitive search returns line 1 and the case-insensitive search returns nothing ("ας" does not contain "σ").
- RustStr.ContainsLowercase: proved for the per-character ASCII lower-casing of the model; with Rust's context-dependent mappings it fails on the same input ("ΑΣ" contains "Σ", but "ας" does not contain "σ").
- Lengths: strings are sequences of characters and lengths count characters. Rust counts bytes; the two agree on ASCII text.
- Line numbers are unbounded naturals: `usize` overflow of the `1..` counter cannot happen for a file held in memory.
- Matcher.Separator: the `4 => "| "` arm (src/lib.rs:92) is kept as written, but `number_len` never returns 4, so it is unreachable. Numbers of 1000 and more fall to the last arm (src/lib.rs:93-98) and get the empty separator.
- String::with_capacity allocation: the capacity is computed (`Render.Capacity`) and related to the output length, but memory allocation itself is not modelled.
