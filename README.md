# drugs.py — a verified model of the name-extraction and SMILES-lookup pipeline

`drugs.py` reads a tab-delimited export of approved drug products, pulls the
active-ingredient field out of every row, splits multi-ingredient fields on
`;`, drops the column header, removes parentheses and leading whitespace,
deduplicates the names, asks PubChem for the canonical SMILES of each name and
appends one `smiles,name` line per distinct SMILES to an output file. It sleeps
for a second after the 1st, 6th, 11th, ... name, that is after the names at
positions 0, 5, 10, ... of its loop.

This project models that pipeline in Dafny, from the list of input lines to the
rows written, and proves what each stage does.

- `base.dfy` (module `Base`): `Option`, duplicate-free sequences, the element set of a sequence.
- `pystr.dfy` (module `PyStr`): the Python string operations the script uses.
  These are `rstrip()`, `lstrip()`, `replace(c, "")`, `split(sep)` and `split()`.
  Each one is characterised by its contract or by lemmas: a prefix or suffix
  description for the strips, join/split inverse lemmas for `split(sep)`, and
  splitting laws for `split()`.
- `parser.dfy` (module `Parser`): the search for six greedy `(.*\t)` groups, as
  its effect on one line; what a line adds to the accumulator; the accumulation
  loop as a method proved against a fold.
- `names.dfy` (module `Names`): `split(";")` and `pop(0)`, the first
  deduplication, the cleaning loop as a method, the final deduplication, and
  the properties of cleaning.
- `output.dfy` (module `Output`): the lookup as a parameter, tokenising of the
  response, the per-name and outer writing loops as methods, and the pause rule.
- `driver.dfy` (module `Driver`): the whole run.

Python's `set` has no defined iteration order. Both deduplications are Dafny
`set`s, and every loop over a `list(set(...))` picks its next element with `:|`,
so the proofs hold for every order. The rows are therefore specified as a
duplicate-free sequence together with its exact element set.

Where a plain reading of the tool and its code differ, the model follows the code:

- The pattern's first group is greedy, so group 6 is the field just before the
  last tab of the line, not a fixed column. It is the sixth field only when the
  line has exactly six tabs. For the seven-tab rows of the FDA product file it
  is the seventh column, as the script's usage text says.
- The header dropped by `pop(0)` is the first `;`-piece of the first matching
  line, not that whole field.
- The emptiness test comes before cleaning. An entry made only of parentheses
  and whitespace therefore yields the empty name, which is looked up like any
  other (`RenormalizeIsIdentity` shows it is the one name a second pass would drop).
- Trailing whitespace inside a piece is kept (`CleanKeepsTrailingSpace`).

## Model

| member | source | states |
|---|---|---|
| `PyStr.RStrip` | drugs.py:79 | the result is the longest prefix of the input that does not end in whitespace: a prefix, all of the removed suffix is whitespace, and the result does not end in whitespace |
| `PyStr.LStrip` | drugs.py:93 | the result is the longest suffix of the input that does not start with whitespace |
| `PyStr.LStripAppend` | drugs.py:93 | once something visible remains, appending text after it commutes with left-stripping |
| `PyStr.Remove` | drugs.py:91-92 | `replace(c, "")` leaves no `c`, and every character of the result comes from the input |
| `PyStr.RemoveCounts` | drugs.py:91-92 | every other character keeps its number of occurrences; the length drops by the number of `c`s |
| `PyStr.RemoveAppend` | drugs.py:91-92 | deleting distributes over concatenation, so the order of the kept characters is preserved |
| `PyStr.RemoveAbsent` | drugs.py:91-92 | deleting a character that does not occur is the identity |
| `PyStr.Split` | drugs.py:83 | `split(sep)` gives at least one piece and no piece contains the separator |
| `PyStr.SplitCount` | drugs.py:83 | there is exactly one more piece than there are separators |
| `PyStr.JoinSplit` | drugs.py:83 | joining the pieces with the separator gives the input back |
| `PyStr.SplitJoin` | drugs.py:83 | splitting a join of separator-free pieces gives those pieces back, so the split is the unique such cut |
| `PyStr.SplitAppend` | drugs.py:83 | the pieces of `a + sep + b` are the pieces of `a` followed by those of `b` |
| `PyStr.SplitNoSep` | drugs.py:83 | a string without the separator is a single piece |
| `PyStr.Word` | drugs.py:37 | the longest whitespace-free prefix of a string |
| `PyStr.SplitWhitespace` | drugs.py:35-38 | `split()` gives tokens that are non-empty and whitespace-free |
| `PyStr.SplitWhitespaceOfSpaces` | drugs.py:37 | a string of whitespace has no token |
| `PyStr.SplitWhitespaceOfWord` | drugs.py:37 | a non-empty whitespace-free string is exactly one token |
| `PyStr.SplitWhitespaceAtSpace` | drugs.py:37 | a whitespace character separates: the tokens of `a + c + b` are those of `a` then those of `b`; with the two lemmas above this fixes `split()` on every string |
| `PyStr.SplitWhitespaceJoin` | drugs.py:37 | round trip: tokens joined with single spaces split back into the same tokens |
| `PyStr.SplitWhitespaceLStrip` | drugs.py:37 | leading whitespace yields no token: `split()` of the left-stripped string is `split()` of the string |
| `PyStr.SplitWhitespaceRStrip` | drugs.py:37 | trailing whitespace yields no token: `split()` of the right-stripped string is `split()` of the string |
| `PyStr.SqueezeTrimmed` | drugs.py:37 | on a string with no whitespace at either end, one pass that writes a single space per whitespace run gives the tokens joined by single spaces |
| `PyStr.SplitWhitespaceCollapse` | drugs.py:37 | the other direction of the round trip: the tokens joined with single spaces are the string stripped at both ends with every inner whitespace run reduced to one space (`Collapse`, defined without reference to `split()`), so `split()` loses exactly the whitespace layout and nothing else |
| `Parser.Capture` | drugs.py:75-78 | the pattern matches iff the line has at least six tabs; group 6 is then the tab-separated field just before the last tab plus that tab (field n-1 of n+1), so it is never empty and the truth test on it never rejects a match |
| `Parser.ContributionIsStrippedField` | drugs.py:77-81 | a matching line adds its field before the last tab, with trailing whitespace removed, followed by `;` |
| `Parser.ExtractActiveIngredients` | drugs.py:72-81 | the loop's accumulator equals the left fold of the lines' contributions, in line order |
| `Parser.AccumulatedPieces` | drugs.py:79-83 | splitting the accumulator on `;` gives the `;`-pieces of every contributed field in line order and one final empty piece; the accumulator is empty or ends in `;` |
| `Parser.OnePiecePerMatch` | drugs.py:74-83 | when no captured field holds a `;`, there is exactly one piece per matching line |
| `Names.Remaining` | drugs.py:83-84 | after `pop(0)` the list is the pieces without the first one, plus the final empty piece; with no matching line it is empty and the pop cannot fail |
| `Names.RemainingCount` | drugs.py:74-84 | when no captured field holds a `;`, the list after `pop(0)` has exactly one entry per matching line |
| `Names.Clean` | drugs.py:90-93 | a cleaned entry holds no parenthesis and does not start with whitespace |
| `Names.CleanIdempotent` | drugs.py:91-93 | cleaning a cleaned name changes nothing |
| `Names.CleanKeepsTrailingSpace` | drugs.py:91-93 | whitespace after the last visible character of an entry survives cleaning |
| `Names.CleanNames` | drugs.py:87-93 | the loop appends one name per non-empty entry, and its names are exactly the cleaned non-empty entries |
| `Names.NameSet` | drugs.py:83-95 | every final name is free of parentheses and does not start with whitespace |
| `Names.RenormalizeIsIdentity` | drugs.py:89-95 | normalising the final names again yields the same set, minus the empty name |
| `Names.NoMatchNoNames` | drugs.py:72-84 | with no line of six tabs there are no pieces and no names, and no error |
| `Output.GetSmilesFromName` | drugs.py:35-54 | the result is absent exactly when the request failed; otherwise it is `split()` of the response body: its tokens are non-empty and whitespace-free, they survive a join/split round trip, and joined with single spaces they give the body with both ends stripped and each inner whitespace run reduced to one space |
| `Output.WriteName` | drugs.py:103-106 | one row per distinct SMILES of the name: duplicate-free, exactly the rows `(t, name)` for the distinct tokens `t`, and as many as there are distinct tokens |
| `Output.WriteRows` | drugs.py:99-109 | the rows written are duplicate-free and are exactly `(t, n)` for every name `n` and distinct token `t` of its lookup; a failed or empty lookup writes nothing; the run pauses after positions 0, 5, 10, ..., which is ceil(n/5) pauses, one after each position that is a multiple of five, and the list of pauses is the one `PausePositions` builds position by position |
| `Output.PausePositionsShape` | drugs.py:100-109 | the positions after which the run sleeps, collected in loop order, are ceil(n/5) many and the k-th is `5 * k` |
| `Output.PauseSchedule` | drugs.py:108-109 | the positions 0, 5, 10, ... below n are exactly the positions i < n with i % 5 == 0 |
| `Output.RowTextInjective` | drugs.py:106 | two rows of the same name with the same text line are the same row |
| `Output.CommaAmbiguity` | drugs.py:106 | commas are not escaped: two different rows can write the same line |
| `Driver.Run` | drugs.py:68-109 | the whole run: the names are exactly the name set of the input lines, the rows are duplicate-free and exactly the expected rows for those names, and the pauses follow the multiple-of-five rule |

## Left out

- The HTTP request (drugs.py:44-54): the URL, `urllib.parse.quote`, `urlopen` and the read are a parameter `fetch` that gives the response body or `None`; `None` stands for a handled `HTTPError`. Other exceptions propagate in the script and are not modelled.
- Reading the input file and `splitlines()` (drugs.py:64-68): the model starts from the list of lines. A line never contains a line feed, so the pattern's `.` matches every character of it.
- Opening, appending to and closing the output file (drugs.py:99, drugs.py:111-112): the rows are returned as `Row` values. The line written for a row is `Row.Text()`. Append mode, which keeps earlier contents, is not modelled.
- `time.sleep`, all progress and usage printing, the argument check and `exit()` (drugs.py:29-33, drugs.py:60-62, drugs.py:70, drugs.py:97, drugs.py:114): process control and output only. The pause is kept as the list of positions after which the run sleeps.
- The regular-expression engine: the effect of the pattern on one line is modelled directly (`Parser.Capture`), not a backtracking matcher.
- `bytes.decode()` (drugs.py:36): the response body is already a string.
- Whitespace is the ASCII characters for which Python's `str.isspace()` holds. Non-ASCII whitespace is not modelled.
- The order in which Python iterates a `set`: unspecified, so every loop over a set takes elements in any order.
- The cleaning loop calls `Names.Clean` instead of spelling out the two `replace` calls and the `lstrip`; `Clean` is exactly that sequence.
