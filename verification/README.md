# Financial PDF analyzer — a Dafny model of its extraction core

The analyzer takes a financial statement as a PDF, gets its text, and pulls four headline
figures out of it: Revenue, Gross Profit, Net Income and EBITDA. It gets the text in one of
two ways:

- from the PDF's text layer, with the page texts joined in page order;
- from OCR of the rendered pages, when the text layer is empty or only white space.

Each figure comes from one case-insensitive regular expression, `KEYWORD[:\s]*([\d,\.]+)`.
The value is group 1 of the first match, kept as the raw matched string. The request ends in
one of two ways: a table of the metrics found, or an error saying that none were extracted.

The model covers:

- `wrappers.dfy`: `Option`.
- `chars.dfy`: the character classes the patterns use. `\s` and `str.strip()` share
  Python's white-space table. `\d` is ASCII digits. `IGNORECASE` is modelled as ASCII case
  folding.
- `scan.dfy`: greedy runs of a class, and the generic leftmost scan that `re.search`
  performs over start positions `0..len(text)`.
- `keyword.dfy`: the four metrics, in the pattern table's order, and their keywords. A keyword is a
  sequence of words separated by `\s+` (`Gross\s+Profit`, `Net\s+Income`).
- `matcher.dfy`: one pattern, both matched at a fixed position and searched for.
  `Splits` and `GreedyAt` give the pattern's semantics declaratively. `MatchAt` and `Search`
  compute them, and lemmas prove that the two agree.
- `extract.dfy`: `extract_financial_metrics`. Its result is a list of entries in the
  dictionary's insertion order.
- `casefold.dfy`: the consequences of `re.IGNORECASE`.
- `strip.dfy`: `str.strip()` and the blank test.
- `textlayer.dfy` and `ocr.dfy`: the two text-acquisition loops.
- `pipeline.dfy`: the fallback, the extraction, and the found/not-found branch.
- `scenarios.dfy`: concrete inputs that show the leftmost-match and raw-value behaviour.

## Model

| member | source | states |
|---|---|---|
| Chars.FoldKeepsClasses | app.py:44 | characters equal under case folding are in the same pattern class, and value characters equal under folding are identical |
| Scan.RunEnd | app.py:36-39 | a greedy `*`/`+` run: the end lies between the start and the text's end, every character consumed is in the class, and the next character is not |
| Scan.RunEndUnique | app.py:36-39 | a run that cannot be extended ends where `RunEnd` says, so the greedy run is unique |
| Scan.FirstFrom | app.py:44 | the leftmost scan finds nothing iff no position in range matches; a position it finds matches, and every earlier position fails |
| Keyword.TableIsComplete | app.py:35-40 | the pattern table lists each metric exactly once, at its own index, with a well-formed keyword |
| Keyword.KeywordEnd | app.py:36-39 | matching a keyword at a start position either fails or ends between that position and the text's end; `Keyword.KeywordEndSpec` states which end it is |
| Keyword.KeywordEndSpec | app.py:37-38 | the keyword matcher ends at `j` iff the text from `i` to `j` is the keyword's words, case-insensitively, separated by one or more white-space characters |
| Matcher.MatchAt | app.py:36-39 | a match at a fixed position yields a non-empty group made only of digits, commas and dots |
| Matcher.SplitsUnique | app.py:36-39 | every way the pattern can split a match at a given start gives the same keyword end and the same separator end, so the separators are consumed entirely |
| Matcher.MatchAtSpec | app.py:36-39 | `MatchAt` succeeds iff the pattern admits some split at that start, and the value it returns is exactly the greedy group 1 |
| Matcher.NoSplitsWithoutMatch | app.py:36-39 | a start position where the matcher fails admits no split of the pattern |
| Matcher.Search | app.py:44 | `re.search` finds nothing iff no start position from 0 to the text's length matches; otherwise it returns the match at the leftmost matching start |
| Matcher.SearchAtLeftmost | app.py:44 | the search returns the match at the leftmost matching position |
| Matcher.SearchSpec | app.py:44-46 | the search succeeds iff the pattern matches somewhere, and it returns `v` iff `v` is the greedy group at the leftmost start admitting a split |
| Matcher.MissingLetterNoMatch | app.py:44 | if a letter of the keyword's first word occurs nowhere in the text in either case, the pattern matches nowhere |
| Extractor.ExtractFrom | app.py:42-47 | the loop over the pattern table keeps at most one entry per pattern. Entries are in table order, and each entry is a pattern's metric paired with that pattern's search result |
| Extractor.ExtractMetrics | app.py:33-47 | at most four entries, in insertion order, each a raw number that the metric's pattern search returns |
| Extractor.LookupExtract | app.py:43-46 | `extracted[key]` is present exactly when the key's pattern matches, and it holds group 1 of the leftmost match |
| Extractor.PresentIffMatches | app.py:45-46 | a metric appears in the result iff its pattern matches somewhere in the text |
| Extractor.EmptyIffNoMatch | app.py:42-47 | the result is empty iff none of the four patterns matches anywhere |
| Extractor.NoKeywordNoMetrics | app.py:35-47 | a text in which no keyword's first word occurs at any position, in any case, yields no metrics |
| CaseFold.MatchAtUpToCase | app.py:44 | two texts that differ only in letter case give the same match at every position |
| CaseFold.SearchUpToCase | app.py:44 | two texts that differ only in letter case give the same search result |
| CaseFold.ExtractUpToCase | app.py:44 | two texts that differ only in letter case yield the same metrics |
| CaseFold.ExtractIgnoresCase | app.py:44 | ASCII lower-casing or upper-casing the whole text leaves the extracted metrics unchanged |
| Strip.TrailingStart | app.py:58 | the trailing-white-space scan stops right after the last non-space character, and only white space follows it |
| Strip.Strip | app.py:58 | `strip()` returns a contiguous slice of the input, with only white space cut on either side, that neither starts nor ends with white space |
| Strip.BlankIffAllSpace | app.py:58 | `Strip.IsBlank`, the model of `not text.strip()`, holds iff every character of the text is white space, the empty text included |
| TextLayer.ExtractTextBased | app.py:18-23 | the text-layer loop returns the pages' texts joined in page order, with missing or empty texts skipped |
| TextLayer.ConcatAppend | app.py:18-23 | joining two consecutive page ranges concatenates their texts |
| TextLayer.BlankPageContributesNothing | app.py:20-22 | a page with no text or an empty text changes nothing, wherever it sits |
| TextLayer.PageAtOffset | app.py:18-23 | each page's text appears unaltered in the result, right after the text of the pages before it |
| Ocr.ExtractTextOcr | app.py:27-31 | the OCR loop returns every recognised page text joined in page order |
| Ocr.JoinIsConcat | app.py:27-31 | the OCR loop equals the text-layer loop on pages that all have a text, because appending an empty text changes nothing |
| Pipeline.ChooseText | app.py:56-60 | the OCR text replaces the text layer iff the text layer is empty or only white space |
| Pipeline.AnalyzeText | app.py:56-68 | a successful request reports between one and four entries, in table order, each a raw number |
| Pipeline.TextLayerWins | app.py:56-62 | when the text layer has a non-white-space character, the OCR text has no influence on the outcome |
| Pipeline.OcrFallback | app.py:56-62 | when the text layer is blank, the outcome is that of the OCR text alone |
| Pipeline.NoMetricsIffNoMatch | app.py:62-68 | through `Pipeline.Report`, the model of `if metrics:`, the request ends in the "no financial metrics" error iff none of the four patterns matches the analysed text |
| Scenarios.CommaIsAValue | app.py:36 | on `Revenue, net` the Revenue value is the lone `,`, because the value class admits a value with no digit |
| Scenarios.CommaMatchesAt0 | app.py:36 | on `Revenue, net` the Revenue pattern matches at position 0 and captures the lone `,` |
| Scenarios.LaterOccurrenceWins | app.py:44 | on `Revenue grew; Revenue: 10` the first occurrence has no number after it, so the search moves on and returns `10` |
| Scenarios.RevenueGrewNothingBefore14 | app.py:36 | on `Revenue grew; Revenue: 10` the Revenue pattern matches at no position before the second keyword |
| Scenarios.RevenueGrewMatchesAt14 | app.py:36 | on `Revenue grew; Revenue: 10` the Revenue pattern matches at the second keyword and captures `10` |

## Left out

- The Streamlit page: the title, the uploader, the info, warning, success and error messages, and the table rendering (app.py:11, 14, 55, 59, 65-68). The model ends in an `Outcome` instead.
- The temporary file and its removal (app.py:50-52, 70). These are file-system I/O. The removal runs only when the request reaches line 70, so an exception earlier leaves the file behind.
- PDF parsing (`PdfReader`, `page.extract_text()`). The page texts are an input, `seq<Option<string>>`. A PDF that cannot be read raises in the library, and that is not modelled.
- Rendering and recognition (`convert_from_path`, `pytesseract.image_to_string`). The recognised page texts are an input. The source runs OCR only when the text layer is blank. Pure functions cannot observe that laziness, so `Analyze` receives the OCR texts either way, and `TextLayerWins` states that they are then ignored.
- Analyze: carries no contract of its own. Its behaviour is `AnalyzeText` applied to the two loops, and both loops are proved separately.
- Unicode `\d`: Python matches every Unicode decimal digit, and the model matches ASCII `0-9` only.
- Unicode case folding: Python's `IGNORECASE` also matches a few non-ASCII characters with ASCII keyword letters, for these keywords U+017F (with `s`) and U+0130/U+0131 (with `i`). The model folds ASCII letters only.
- Numeric parsing of the values (removing commas, converting to a number): the code keeps the raw matched string, so the model does too. A value such as `,` or `1.2.3` is therefore accepted, as `Scenarios.CommaIsAValue` shows.
- A longer end-to-end example with several metrics in one statement. The general lemmas cover this case, and the concrete scenarios are limited to short texts.
- Benchmark comparison, variance figures and report export: app.py contains no code for them.
