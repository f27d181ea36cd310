# Publication count updater, modelled in Dafny

`scripts/update_publications.py` keeps a homepage's publication count current.
It asks PubMed how many papers match the author query. It rounds that count
down to a multiple of ten and rewrites two places in `index.html`:

- the statistics box `<div class="stat-number">110+</div> <div class="stat-label">SCI Publications`;
- the sentence `With over 110 SCI-indexed publications`.

It then appends an entry to `publication_log.json`, keeping the last hundred
entries. The process exits with status 0 only when the page actually changed.

This project models that core:

- `Decimal`: Python's `str()` of an integer, and the value of a digit string.
- `Rounding`: `(pub_count // 10) * 10` and the stat text `f"{rounded}+"`.
- `Pattern`: the shape both regular expressions share, `head\d+\+?middle\s*tail`. It holds:
  - a matcher for that shape, which is greedy, and a proof that a backtracking matcher could find no other match;
  - Python's `re.sub` over the shape, as a left-to-right scan that resumes after each replaced match;
  - the general facts about that scan: a text whose every occurrence already shows the value is left alone, every occurrence in the output shows the value, and a second expression's substitution preserves that when the two cannot overlap.
- `HtmlStats`: the two concrete expressions, the page rewrite `PatchStats`, and `update_html_stats` as the method `UpdateHtmlStats`.
- `PublicationLog`: the log entry, `[-100:]`, the log list as a class updated in place, and `save_publication_log`.
- `Updater`: `main` together with the exit status.

An empty list of recent PubMed identifiers does not stop the run. Only a failed count query does (exit status 1, nothing written).

## Model

| member | source | states |
|---|---|---|
| `Decimal.NatToString` | scripts/update_publications.py:86 | `str()` of a natural number is a non-empty digit string without a leading zero; it has one digit exactly when the number is below ten |
| `Decimal.NatToStringRoundTrip` | scripts/update_publications.py:86 | reading the decimal text back gives the number |
| `Decimal.NatToStringInjective` | scripts/update_publications.py:86 | different numbers are written differently |
| `Decimal.NatToStringCanonical` | scripts/update_publications.py:86 | `str()` of a natural number has no leading zero, except for `0` itself |
| `Decimal.CanonicalIsNatToString` | scripts/update_publications.py:86 | a digit string without a leading zero is the text `str()` writes for its value, so the no-leading-zero rule and the value together fix the text |
| `Decimal.IntToString` | scripts/update_publications.py:86 | the text is all digits exactly when the number is non-negative, has no leading zero and reads back as the number; a negative number is `-` followed by the digits of its magnitude, again without a leading zero |
| `Rounding.RoundedCount` | scripts/update_publications.py:85 | the rounded count is a multiple of ten, at most the count and more than the count minus ten, for negative counts too (floor division) |
| `Rounding.RoundedCountUnique` | scripts/update_publications.py:85 | those three facts determine the rounded count |
| `Rounding.StatText` | scripts/update_publications.py:86 | the stat text ends in `+`; before it come the digits of the rounded count without a leading zero, or for a negative count a minus sign and the digits of its magnitude |
| `Rounding.StatTextIsDecimal` | scripts/update_publications.py:86 | for a non-negative count the stat text is exactly `str(rounded_count)` followed by `+` |
| `Rounding.StatTextOf123` | scripts/update_publications.py:84-86 | a count of 123 is shown as `120+` |
| `Pattern.DigitRun` | scripts/update_publications.py:90 | `\d+` takes a prefix of digits that no further digit follows |
| `Pattern.SpaceRun` | scripts/update_publications.py:90 | `\s*` takes a prefix of white space that no further white space follows |
| `Pattern.MatchAt` | scripts/update_publications.py:90-95 | a match found at a position is a well-formed match whose text begins there |
| `Pattern.MatchAtComplete` | scripts/update_publications.py:90-95 | wherever some match's text begins, the matcher finds exactly that match, so the greedy scan agrees with backtracking |
| `Pattern.Showing` | scripts/update_publications.py:91 | a rewritten occurrence is itself a match that shows the new value |
| `Pattern.FrontStable` | scripts/update_publications.py:92-97 | a match that starts before a substituted region is the same match it was before the substitution |
| `Pattern.SubstituteSettled` | scripts/update_publications.py:92 | `re.sub` leaves a text unchanged when every occurrence already shows the replacement value |
| `Pattern.SubstituteWithoutOccurrence` | scripts/update_publications.py:92 | `re.sub` leaves a text without occurrences unchanged |
| `Pattern.SubstituteSettles` | scripts/update_publications.py:92 | after `re.sub`, every occurrence in the output shows the replacement value: the scan misses none and creates no other |
| `Pattern.SettledAcross` | scripts/update_publications.py:92-97 | the second substitution keeps every occurrence of the first expression showing its value |
| `Pattern.Scan` | scripts/update_publications.py:92 | the scan cuts the text into copied characters and matches that together spell the text |
| `Pattern.SubstituteIsRewrittenScan` | scripts/update_publications.py:92 | `re.sub`'s output is the scan with each match rewritten; the rewrite keeps the head, the middle, the white space and the tail, and every other character is copied |
| `HtmlStats.StatReplacementKeepsGroups` | scripts/update_publications.py:91 | the statistics box becomes group 1, then the stat text, then group 2 |
| `HtmlStats.SentenceReplacementIsLiteral` | scripts/update_publications.py:96 | the sentence becomes `With over {rounded_count} SCI-indexed publications` |
| `HtmlStats.StatWellFormed` | scripts/update_publications.py:90-95 | both expressions can match a text in at most one way |
| `HtmlStats.StatNeverRunsIntoStat` | scripts/update_publications.py:90 | statistics boxes cannot overlap |
| `HtmlStats.StatNeverRunsIntoSentence` | scripts/update_publications.py:90-95 | a statistics box cannot overlap the start of a sentence |
| `HtmlStats.SentenceNeverRunsIntoStat` | scripts/update_publications.py:90-95 | a sentence cannot overlap the start of a statistics box |
| `HtmlStats.SentenceNeverRunsIntoSentence` | scripts/update_publications.py:95 | sentences cannot overlap |
| `HtmlStats.SentenceText` | scripts/update_publications.py:96 | the sentence's number is the digits of the rounded count without a leading zero, preceded by a minus sign for a negative count |
| `HtmlStats.SentenceTextIsDecimal` | scripts/update_publications.py:96 | for a non-negative count the sentence's number is exactly `str(rounded_count)` |
| `HtmlStats.ValuesValid` | scripts/update_publications.py:85-96 | for a non-negative count, both replacement values are again matched by their expressions |
| `HtmlStats.PatchWithoutFields` | scripts/update_publications.py:88-106 | a page with neither field is left unchanged, so `update_html_stats` returns False |
| `HtmlStats.PatchShowsCount` | scripts/update_publications.py:88-97 | after the rewrite, every statistics box and every sentence shows the rounded count |
| `HtmlStats.PatchKeepsShownCount` | scripts/update_publications.py:88-99 | a page that already shows the rounded count everywhere is left unchanged |
| `HtmlStats.PatchUnchangedIff` | scripts/update_publications.py:99-106 | the page changes exactly when some field shows another count |
| `HtmlStats.PatchIdempotent` | scripts/update_publications.py:88-97 | rewriting twice with the same count gives the same page as rewriting once |
| `HtmlStats.UpdateHtmlStats` | scripts/update_publications.py:76-110 | an unreadable page gives False and is not written; otherwise the page becomes the rewritten content, and the result is True exactly when the content changed, which is when some field showed another count |
| `PublicationLog.RecentPmids` | scripts/update_publications.py:119 | the entry records the first ten identifiers, or all of them when there are fewer, and none when there are none |
| `PublicationLog.KeepLast` | scripts/update_publications.py:131 | `[-n:]` keeps the last `min(len, n)` elements in order |
| `PublicationLog.Appended` | scripts/update_publications.py:129-131 | after an append the log holds at most a hundred entries; the last is the new one, and before it stand the most recent old entries in their order |
| `PublicationLog.AppendedKeepsAll` | scripts/update_publications.py:129-131 | below a hundred entries nothing is dropped |
| `PublicationLog.AppendedDropsOldest` | scripts/update_publications.py:129-131 | at a hundred entries exactly the oldest is dropped |
| `PublicationLog.KeepLastTail` | scripts/update_publications.py:131 | cutting to the last n before appending more does not change the last n afterwards |
| `PublicationLog.AppendAllKeepsNewest` | scripts/update_publications.py:129-131 | after any number of runs the log holds the last hundred entries ever written, oldest first |
| `PublicationLog.UpdateLog.constructor` | scripts/update_publications.py:127 | a missing log starts as an empty list of updates |
| `PublicationLog.UpdateLog.Load` | scripts/update_publications.py:123-125 | an existing log starts with the updates read from the file |
| `PublicationLog.UpdateLog.Append` | scripts/update_publications.py:129-131 | the list becomes the old list with the entry appended, cut to the last hundred |
| `PublicationLog.SavePublicationLog` | scripts/update_publications.py:112-138 | a missing log becomes a log holding just this run's entry; an existing one gets the entry appended and is cut to the last hundred; an unreadable one is left as it is |
| `Updater.RunUpdate` | scripts/update_publications.py:140-165 | a failed count query exits with 1 and changes nothing; otherwise the page is rewritten and the run recorded, the exit status is 0 exactly when the page changed, and the page afterwards shows the count everywhere |

## Left out

- The two PubMed queries (`get_pubmed_count`, `get_recent_publications`) are HTTP requests. Their outcomes enter `RunUpdate` as parameters: the count as an optional integer, the identifiers as a list. `get_recent_publications` returns an empty list on any failure, so `pmids` is never `None`.
- Reading and writing `index.html` and `publication_log.json`, and JSON parsing and formatting, are file I/O. The page enters as an optional string, where None means it could not be read. The log enters as `Missing`, `Present(updates)` or `Unreadable`. `Unreadable` stands for a file that is not JSON or has no `updates` list; the script reports that case and writes nothing.
- Log entries of other shapes that a hand-edited file might hold are not modelled: `LogEntry` is the only entry kind.
- `datetime.now().isoformat()` is a clock reading, so it enters as an opaque `timestamp` string.
- Console output (`print`) is not modelled.
- UpdateHtmlStats: a failing write of the page is not modelled. The script would catch it and return False; the model assumes writes succeed.
- SavePublicationLog: a failing write of the log is not modelled. The script catches the error, but `open(log_path, 'w')` has already emptied the file when `json.dump` fails partway, so such a failure leaves an empty or partial log; only a failing `open` leaves the old file. The model assumes the write succeeds.
- MatchAt: `\d` is modelled as the ASCII digits `0`-`9`. In a `str` pattern, Python's `\d` also accepts other Unicode decimal digits, such as Arabic-Indic digits.
- PatchShowsCount: stated only for non-negative counts. For a negative count, `str()` puts a `-` before the digits, and `\d+` cannot match that.
- PatchUnchangedIff: stated only for non-negative counts, for the same reason. A negative count cannot come from PubMed.
- PatchIdempotent: stated only for non-negative counts, for the same reason.
- ValuesValid: stated only for non-negative counts, for the same reason.
- UpdateHtmlStats: the link to `ShowsCount` is stated only for non-negative counts. The link between the result and the content changing holds for every count.
- RunUpdate: the link to `ShowsCount` is stated only for non-negative counts. The exit status rule holds for every count.
