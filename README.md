# document-extraction: a verified model of the table and text helpers of main.py

main.py reads a tender document (a PDF), pulls out its text and its tables, and fills a
JSON report with tender details, a timeline, financial details, eligibility criteria,
technical specifications and contacts. This project models in Dafny the parts of main.py
that do more than apply a regular expression once, and proves what they guarantee.

- `clean_text` (module `Text`). It replaces every run of whitespace by one blank and strips
  both ends. Whitespace is Python's: `str.isspace()`, which the pattern `\s` and `str.strip()`
  use as well. Along the way the module defines `str.strip()` and the substring test `sub in s`.
- `extract_financial_info_from_table` (module `Financial`). It is a nested loop over the rows
  of all tables. A row with at least five cells whose fourth and fifth cells are non-empty, and
  which is not the header row, stores the amount found in each of those cells. The tender fee is
  stored under `tender_fee` and the EMD (earnest money deposit) under `emd`. A later row
  overwrites an earlier one, separately for each key. The amount search
  `([0-9,]+(?:\.\d{2})?)…` is modelled exactly, with `\d` taken as ASCII (see "Left out"):
  `FindAmount` returns the longest amount starting at the first digit or comma. The header
  test of main.py:165 is a substring test, so a row whose fee cell reads
  `Tender Fee: 5,000.00` and whose EMD cell reads `EMD 1,200.50` is skipped as a header
  (`Financial.LabelledAmountsSkipped`).
- `extract_timeline_info` (module `Timeline`). Three dates come from the free text and default
  to `"Not found"`. The technical bid opening date comes from the tables: in a row whose text
  mentions `Opening of Technical e-Bid`, the first cell that starts with a date is stored,
  stripped. A later such row overwrites an earlier one.
- The contact lists of `extract_contact_info` (module `Contact`). `list(set(matches))` keeps
  each match once.

Module `Tables` holds the shape of the table data, as cells that are strings or `None`. It
also holds the "last row that yields a value wins" scan that both table loops perform.
Module `Wrappers` holds `Option`.

The loops of main.py are methods with loops. Each is proved against a function that states
the result in terms of all rows visited (`Financial.LastCandidate`,
`Timeline.LastBidOpening`). What main.py promises is proved about those functions as lemmas.

## Model

| member | source | states |
|---|---|---|
| Text.CleanText | main.py:69-78 | The result has no leading or trailing whitespace, no two adjacent whitespace characters and no whitespace other than `' '`; with all whitespace removed it equals the input with all whitespace removed |
| Text.IsSpace | main.py:78 | The whitespace of Python's `\s` on `str` patterns, of `str.isspace()` and of argument-less `str.strip()`: blank, `\t`-`\r`, the separators U+001C-U+001F, U+0085, U+00A0, U+1680, U+2000-U+200A, U+2028, U+2029, U+202F, U+205F, U+3000 |
| Text.CollapseSpaces | main.py:78 | `re.sub(r'\s+', ' ', s)`: empty exactly when `s` is, and begins with whitespace exactly when `s` does; its shape and kept characters are stated by `Text.CollapseShape` and `Text.CollapseKeepsNonSpaces` |
| Text.Strip | main.py:78 | `str.strip()` (also `cell.strip()` at main.py:131): the result is trimmed and no longer than the input; `Text.StripByBounds` fixes it as the slice between the outermost non-whitespace characters |
| Text.CleanTextIsJoinOfWords | main.py:78 | `clean_text(t)` equals `" ".join(t.split())`: the whitespace-separated words of `t`, joined by single blanks |
| Text.CleanTextIdempotent | main.py:78 | Cleaning a cleaned text changes nothing |
| Text.CleanTextFixesNormalized | main.py:78 | A text that is already normalised (trimmed, single blanks only) is returned unchanged |
| Text.CleanTextFixesNoSpaces | main.py:78 | A text without whitespace is returned unchanged |
| Text.CleanOfAllSpaces | main.py:78 | A text made only of whitespace (or empty) cleans to the empty string |
| Text.CollapseShape | main.py:78 | After `re.sub(r'\s+', ' ', …)` no two whitespace characters are adjacent and every whitespace character is a blank |
| Text.CollapseKeepsNonSpaces | main.py:78 | `re.sub(r'\s+', ' ', …)` keeps every non-whitespace character, in order |
| Text.CollapseFixesNormalized | main.py:78 | `re.sub(r'\s+', ' ', …)` leaves a text with only single blanks unchanged |
| Text.StripIsSlice | main.py:78 | `strip()` returns a contiguous part of its input, with only whitespace before and after it |
| Text.StripByBounds | main.py:78 | When a slice is bounded by non-whitespace and only whitespace lies outside it, `strip()` returns exactly that slice |
| Text.StripKeepsNonSpaces | main.py:78 | `strip()` removes only whitespace |
| Text.StripShape | main.py:78 | Stripping a text that has only single blanks gives a normalised text |
| Text.Contains | main.py:165 | `sub in s` holds exactly when `sub` occurs in `s` at some position |
| Tables.AllRowsMembers | main.py:159-160 | The nested loops visit every row of every table |
| Tables.Truthy | main.py:164 | `if tender_fee and emd`: a cell is true when it is present and not the empty string |
| Tables.LastMatch | main.py:131 | The value an overwriting scan holds after visiting rows (the assignments at main.py:131, 169 and 172); characterised by `Tables.LastMatchIsLast` |
| Tables.LastMatchIsLast | main.py:159-172 | An overwriting scan ends empty exactly when no row yields a value; otherwise it holds the value of some row after which no row yields one |
| Tables.LastMatchIgnores | main.py:159-172 | A row that yields nothing can be removed from anywhere without changing the scan's result |
| Financial.AmountAt | main.py:156 | The greedy match of `[0-9,]+(?:\.\d{2})?` is the longest prefix that matches the pattern |
| Financial.FindAmount | main.py:156-157 | The search finds nothing exactly when the cell has no digit or comma; otherwise group 1 is the longest amount starting at the first digit or comma |
| Financial.FindAmountOfAmount | main.py:156-157 | A cell holding just an amount yields that whole amount |
| Financial.AmountHasNoSpaces | main.py:169 | An amount has no whitespace and is never `"Not found"` |
| Financial.CleanAmount | main.py:169 | `clean_text` leaves an extracted amount unchanged |
| Financial.Candidate | main.py:161-172 | A row contributes a value to a column only if it is searched (five or more cells, cells 3 and 4 non-empty, not the header), and the value is an amount |
| Financial.IsHeader | main.py:165 | The header test: `Tender Fee` occurs in the fourth cell and `EMD` in the fifth, as substrings |
| Financial.Searched | main.py:161-166 | A row the loop body searches: at least five cells, the fourth and fifth truthy, and not the header |
| Financial.CandidateIff | main.py:161-172 | A row has a candidate for a column exactly when it is searched and that column's cell holds a digit or comma |
| Financial.ReportedFromLastAmountRow | main.py:159-172 | A key is reported exactly when some searched row holds a digit or comma in that key's cell, and its value is the amount found in the last such row |
| Financial.LastCandidateStep | main.py:159-172 | Visiting one more row replaces a column's value exactly when that row has a candidate for the column |
| Financial.UnsearchedRowIgnored | main.py:161-166 | A short row, a row with an empty fee or EMD cell, and the header row change nothing |
| Financial.VisitRow | main.py:161-172 | The loop body keeps the report equal to the last candidates of the rows seen, column by column |
| Financial.ExtractFinancialInfo | main.py:145-177 | The report has `tender_fee` exactly when some row has a fee candidate, holding the last such row's value; the same for `emd`, independently; no other keys |
| Financial.ReportedValuesAreAmounts | main.py:167-172 | Every reported value matches the amount pattern, has no whitespace and is not `"Not found"` |
| Financial.NothingFoundIsEmpty | main.py:153-177 | When no row yields an amount (none is searched, or the searched cells hold no digit or comma) the report is empty: the normal path never writes `"Not found"` |
| Financial.LabelledAmountsSkipped | main.py:165-166 | A row whose fee cell mentions `Tender Fee` and whose EMD cell mentions `EMD` is skipped, even when both cells carry amounts |
| Financial.FeeOnlyRow | main.py:167-172 | A row with an amount only in its fee cell yields a tender fee and no EMD |
| Financial.EmdOnlyRow | main.py:167-172 | A row with an amount only in its EMD cell yields an EMD and no tender fee |
| Financial.LastOfTwoRows | main.py:159-172 | Of two rows, the second one's candidate wins when it has one, otherwise the first one's stays |
| Financial.FeeAndEmdFromDifferentRows | main.py:159-172 | The tender fee and the EMD can come from different rows |
| Timeline.FirstDateIsFirst | main.py:129-132 | The inner loop stores the first cell that starts with a date, stripped |
| Timeline.StartsWithDate | main.py:130 | `re.match(r"\d{2}.\d{2}.\d{4}", s)`: two digits, a character other than a newline, two digits, a character other than a newline, four digits, at the start |
| Timeline.IsDateCell | main.py:130 | The cells the inner loop stops at: a string cell that starts with a date; an empty cell is tested as `str(None)`, which never matches |
| Timeline.HasMarker | main.py:128 | `"Opening of Technical e-Bid" in str(row)`: some string cell contains the marker |
| Timeline.FirstDate | main.py:129-132 | The value the inner loop with `break` stores: the first date cell, stripped; characterised by `Timeline.FirstDateIsFirst`, `Timeline.FirstDateNone` and `Timeline.FirstDateFound` |
| Timeline.BidOpening | main.py:128-132 | What one row contributes: the first date cell, stripped, when the row carries the marker, and nothing otherwise |
| Timeline.FirstDateNone | main.py:129-132 | A row without a date cell stores nothing |
| Timeline.FirstDateFound | main.py:129-132 | A row yields a value exactly when it has a date cell, and the value is a stripped date cell |
| Timeline.VisitRow | main.py:128-132 | A row that mentions the marker and has a date cell sets `technical_bid_opening` to its first date cell, stripped; any other row changes nothing |
| Timeline.ExtractTimelineInfo | main.py:104-142 | The report always holds the three free-text dates, each the match or `"Not found"`; it holds `technical_bid_opening` exactly as the last contributing marker row gives it; no other keys |
| Timeline.OpeningFromLastMarkerRow | main.py:126-132 | `technical_bid_opening` is present exactly when some row mentions the marker and has a date cell, and it comes from the last such row |
| Timeline.StripKeepsDate | main.py:130-131 | Stripping a cell that starts with a date keeps the date at its start |
| Timeline.OpeningIsTrimmedDate | main.py:130-131 | The stored opening date starts with a date, has no surrounding whitespace and is never `"Not found"` |
| Timeline.MarkerRowTakesFirstDate | main.py:128-132 | In a marker row the label cell and empty cells are passed over and the first date cell wins over later ones |
| Contact.Distinct | main.py:238 | `list(set(xs))` has no repeated element and holds exactly the elements of `xs` |
| Contact.DistinctCount | main.py:238 | The deduplicated list is as long as the number of distinct matches |
| Contact.DistinctOfDistinct | main.py:238 | Matches without repetitions are kept as they are, in the model's order; for main.py the same elements, see `Contact.ListOfSetIsPermutation` |
| Contact.DistinctIdempotent | main.py:238 | Deduplicating twice is deduplicating once, in the model's order; for main.py the same elements, see `Contact.ListOfSetIsPermutation` |
| Contact.ListOfSetIsPermutation | main.py:238 | Any list without repetitions holding the same elements is a permutation of the model's result, so the model fixes nothing but the order |
| Contact.ExtractContactInfo | main.py:235-245 | The e-mail and phone lists each hold every match once and nothing else |

## Left out

- `load_model` (main.py:12-27) and the PDF reading (main.py:30-67) are I/O and a
  machine-learning model. The text and tables they produce are inputs.
- `extract_tender_info` (main.py:81-101), `extract_eligibility_info` (main.py:180-205) and
  `extract_technical_info` (main.py:208-224) each apply free-text regular expressions
  once. They are not part of this model.
- The `main` function (main.py:249-285) writes a JSON file and prints. It is not part of this
  model.
- Timeline.ExtractTimelineInfo: the three free-text date searches (main.py:116-123) are not
  modelled. Their results are parameters: the captured date, or `None`.
- Contact.ExtractContactInfo: the `re.findall` calls for e-mails and phones (main.py:237-241)
  are not modelled. Their lists of matches are parameters.
- The `except` branches (main.py:133-140, 173-175, 242-244) are not modelled. They write
  `"Not found"` or empty lists after an exception. With cells that are strings or `None`, the
  modelled code raises none. The logging is left out with them.
- Contact.Distinct: Python lists a set in hash order. The model keeps first occurrences, and
  `Contact.ListOfSetIsPermutation` shows that the order is the only thing it fixes.
- Financial.FindAmount: `\d` in the cents part is taken as ASCII `0-9`. Python also matches
  other Unicode decimal digits there.
- Timeline.StartsWithDate: `\d` is likewise taken as ASCII `0-9`.
- Timeline.HasMarker: `marker in str(row)` is modelled as "some cell contains the marker". The
  list's text form quotes each string cell, writes an empty cell as an unquoted `None`, and
  separates cells with `', '`. The marker contains no quote, comma or escaped character, so it
  cannot span two cells and occurs in a quoted cell exactly when it occurs in the string; `None`
  does not contain it.
- Contact.DistinctOfDistinct: the list equality holds in the model's first-occurrence order.
  For main.py:238, whose set order is Python's own, it holds only up to order (same elements,
  each once; see `Contact.ListOfSetIsPermutation`).
- Contact.DistinctIdempotent: likewise, deduplicating twice gives the same list in the model's
  order; for main.py:238 it gives the same elements, each once, in an order Python chooses.
