# CogSearch text query, modelled in Dafny

CogSearch is an HTTP-triggered function. It sends a search term to a
search index, reads the ranked hits in pages of 500, decodes each hit's
storage path and writes the hits as a semicolon-separated attachment.
Storage paths are stored as base64, with the `=` padding replaced by one
trailing digit. This project models the function's core:

- `simple_text_query`, which covers:
  - the paging sweep;
  - the padding fix;
  - the decode-and-classify step;
  - the per-page dedup fold.
- The CSV assembly in `main`.

The model follows the code as written in two places where the code is
surprising:

- The seen-set, result list and undecoded list are re-created inside the
  paging loop. Only the final page's hits are returned, and dedup works
  per page.
- Every hit with a new key goes into the result list, whether or not its
  path decoded: line 126 appends every new key. Line 116 runs before the
  dedup check at line 123, so a flagged duplicate still adds an undecoded
  entry.

Files:

- `wrappers.dfy`: `Option` and `Result`.
- `padding.dfy` (module `PathDecoder`): the padding fix, its inverse (the
  index-side compaction), and the decode/classify step.
- `records.dfy` (module `Records`): hits and the four-field rows.
- `accumulate.dfy` (module `Accumulator`): the page fold. Also a
  reference definition of the page result that uses no seen-set: first
  occurrences per key, plus undecoded entries in page order.
- `paging.dfy` (module `PagedQuery`): the index as a provider, the sweep
  loop and its request count.
- `csv.dfy` (module `CsvOutput`): the response text and its line count.

The base64, UTF-8 and `rstrip` library call is a parameter
`decode: string -> Option<string>`. `None` stands for the exception the
code swallows. The search index is a `Provider`: a fixed ranking of hits
plus a reported total, stable over the sweep. An empty storage path makes
`file_path[-1]` raise. That exception ends the request, so it is modelled
as `Failure(EmptyPath)`.

## Model

| member | source | states |
|---|---|---|
| PathDecoder.FixPadding | CogSearch/__init__.py:103-108 | A trailing `0`, `1` or `2` is replaced by that many `=`, and the rest of the path is kept. Any other path is unchanged. The path must be non-empty, since `file_path[-1]` raises otherwise. |
| PathDecoder.FixPaddingInvertsCompaction | CogSearch/__init__.py:103-108 | Round trip: fixing the padding of any compacted base64 string gives back that base64 string. |
| PathDecoder.CompactionInvertsFixPadding | CogSearch/__init__.py:103-108 | Converse round trip: a path ending in a pad digit, with no literal `=` just before the digit, is the compaction of its fixed form. |
| PathDecoder.FixPaddingChangesIffDigit | CogSearch/__init__.py:103-108 | The fix changes a path exactly when the path ends in `0`, `1` or `2`. |
| PathDecoder.FixPaddingIdempotent | CogSearch/__init__.py:103-108 | A second fix changes nothing unless the first one dropped a `0`. |
| PathDecoder.DecodePath | CogSearch/__init__.py:100-113 | The decoded value is the raw path, or else the library's successful decode of the fixed path. The fixed path is the padding fix of the raw one. |
| PathDecoder.Flagged | CogSearch/__init__.py:101-115 | A hit is flagged undecoded exactly when the library returned the fixed path itself, or when the library failed and the path did not end in a pad digit. |
| PathDecoder.FailedDecodeFlaggedIffNoDigit | CogSearch/__init__.py:101-116 | After a failed decode, the decoded value is the raw path. The hit is flagged undecoded exactly when the raw path does not end in a pad digit. |
| PathDecoder.SuccessfulDecodeFlaggedIffIdentity | CogSearch/__init__.py:110-116 | After a successful decode, the hit is flagged exactly when the decoded text equals the fixed path. |
| PathDecoder.CompactedPathDecodes | CogSearch/__init__.py:101-116 | A path stored as compacted base64 of some text decodes to that text. It is flagged only when the text equals its own base64 form. |
| Records.RenderRow | CogSearch/__init__.py:118-121 | Each field is its value followed by `;`, and the last-modified date by `;\n`. A missing date leaves only its separator. |
| Records.RowKeyInjective | CogSearch/__init__.py:119-123 | Two rows have the same dedup key exactly when their decoded paths are equal. |
| Accumulator.Visit | CogSearch/__init__.py:99-127 | One hit fails exactly when its path is empty. Otherwise it adds the key to the seen-set. A hit whose key was already seen leaves the rows alone, and a hit with a new key appends its row. |
| Accumulator.CollectPageFailsIffEmptyPath | CogSearch/__init__.py:99-103 | A page fails exactly when one of its hits has an empty storage path. |
| Accumulator.VisitKeepsKeyIndex | CogSearch/__init__.py:123-127 | If the seen dict holds exactly the keys of the result list and no key is repeated, the same holds after one more hit. |
| Accumulator.CollectPage | CogSearch/__init__.py:95-127 | After a completed page, the seen dict holds exactly the keys of the result list, no key is repeated, and there is at most one row per hit. Its full result is stated by CollectPageMatchesReference. |
| Accumulator.CollectPageMatchesReference | CogSearch/__init__.py:95-127 | The fold over a page equals the reference definition. The rows are the first occurrence of each key, in page order. The undecoded entries are every flagged hit in page order. The seen-set is the set of keys. |
| Accumulator.FirstOccurrencesUnique | CogSearch/__init__.py:123-127 | No two kept rows share a key, and every key of the input is kept. |
| Accumulator.FirstOccurrenceKept | CogSearch/__init__.py:123-127 | A row with no earlier row of the same key is kept: first occurrence wins. |
| Accumulator.FirstOccurrencesFromInput | CogSearch/__init__.py:126 | Every kept row is a row of the input. |
| Accumulator.DuplicateLeavesRows | CogSearch/__init__.py:115-124 | A later duplicate leaves the result list unchanged, but a flagged duplicate still adds its undecoded entry. |
| Accumulator.PageResult | CogSearch/__init__.py:95-127 | On a page without empty paths, the fold succeeds. Its keys are unique and cover every key of the page. Each first occurrence is present, every row comes from the page, and the undecoded list is every flagged hit in order. |
| PagedQuery.RequestCountIsFirstCovering | CogSearch/__init__.py:86-93 | The stopping rule gives one request for a total of 0, and otherwise ceil(total / 500): the first `k` whose `k` pages cover the total. |
| PagedQuery.SweptIsPrefix | CogSearch/__init__.py:84-93 | The first `k` requests together read the ranking's first `k * size` hits, in order, with none repeated or skipped. |
| PagedQuery.SweepReadsAll | CogSearch/__init__.py:84-93 | With a truthful total, the full sweep reads the whole ranking. |
| PagedQuery.SteppedAreMultiples | CogSearch/__init__.py:84-93 | Skip offsets that start at 0 and grow by the page size are exactly 0, P, 2P, … |
| PagedQuery.StoppedSweepCount | CogSearch/__init__.py:86-93 | A sweep whose earlier requests did not cover the total and whose last one did made exactly `RequestCount` requests. |
| PagedQuery.SweepWithinLastSkip | CogSearch/__init__.py:86-93 | The skips never pass the last skip of the full sweep, and a covering sweep stops exactly there. |
| PagedQuery.CoveredExtends | CogSearch/__init__.py:88-103 | The hits up to the end of one more page all have paths exactly when the earlier hits do and that page's hits do. |
| PagedQuery.FinalPageAtLastSkip | CogSearch/__init__.py:86-103 | Whether the sweep stopped on an exception or on the stopping rule, the outcome can be read off the last offset of a complete sweep. An empty path before the stopping page also lies before the end of the last page. A covering stop happens exactly at that last offset. |
| PagedQuery.Sweep | CogSearch/__init__.py:83-97 | The skips are 0, P, 2P, …, and every earlier request left the total uncovered. It fails exactly when a hit before the end of the last page of a complete sweep has an empty path. On success it made `RequestCount` requests, the last one covers the total, and the result is the handler's result on that last page only. The offsets are a ghost trace, which the code does not return. |
| PagedQuery.SimpleTextQuery | CogSearch/__init__.py:77-128 | The paging loop with 500-hit pages. It fails exactly when a hit before the end of the last page has an empty path. Otherwise the returned lists are the page fold of the final page alone, at offset `LastSkip`, because the lists are reset on every iteration. |
| CsvOutput.Render | CogSearch/__init__.py:148-161 | An empty result list gives the fixed message. Otherwise the attachment is every row's fields in list order, followed by exactly the `undecoded;` lines. |
| CsvOutput.RowsTextConcat | CogSearch/__init__.py:153-157 | The rows are written in list order: the text for `a + b` is the text for `a` followed by the text for `b`. |
| CsvOutput.UndecodedTextConcat | CogSearch/__init__.py:159-161 | The undecoded entries are written in list order, each after `undecoded;`: the text for `a + b` is the text for `a` followed by the text for `b`. |
| CsvOutput.RowIsOneLine | CogSearch/__init__.py:118-121 | A row whose fields contain no line break renders as one line. |
| CsvOutput.EntryIsOneLine | CogSearch/__init__.py:103-116 | An undecoded entry of a path without line breaks is one line. |
| CsvOutput.AttachmentLines | CogSearch/__init__.py:151-161 | The attachment holds one line per row plus one line per undecoded entry. |
| CsvOutput.Respond | CogSearch/__init__.py:145-161 | The request fails exactly when a hit within the swept range has an empty path. Otherwise the response renders the final page's two lists. |

## Left out

- The search client's construction and network call (lines 81, 88). It is replaced by the `Provider` datatype, whose total stays stable across requests. With a total that grows between calls the loop has no bound, and that is not modelled.
- Index errors and partial pages returned by the service: a page is always the slice of the ranking at the requested offset.
- `get_secrets`, Key Vault, managed identity, `load_dotenv` and the global `SECRETS` dict (lines 31, 61-75). These only read credentials.
- `base64.b64decode(...).decode("utf-8").rstrip()` (line 111). It is the `decode` parameter. Python's decoder is lenient, so no strict base64 decoder is written here.
- The HTML input form (lines 40-59), which is only user interface.
- Reading the search term from the query string, the JSON body or the form (lines 133-143), which is HTTP plumbing.
- Encoding the CSV to bytes and building the HTTP response and headers (lines 163-169).
- Logging (line 131).
- A hit whose name or path field is missing (`None`). The code would raise `TypeError` on it, and the model's hits always carry strings.
- Order of evaluation within one hit: the name and date fields cannot raise in the model, so only the empty-path error is kept.
