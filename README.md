# AthenaResult: decoding, caching and formatting Athena query results

This project models the client side of `athena.py`'s `AthenaResult`. That part
runs after a query has finished and its result pages are available:

- `result()` flattens every page's rows, in page order and then row order. It
  decodes each cell to its `VarCharValue`, or to `""` when there is none. It
  caches the rows in `self.results` and removes the first row in place.
- `to_string(delim)` joins the cached rows, or freshly fetched ones when none
  are cached, into a text body. The cells of a row are separated by `delim`,
  the rows by newlines, and the body ends in one newline. The body is cached
  in `self.results_str`.
- `to_s3(bucket, file_name)` uploads the cached body. It builds a tab-delimited
  body first when none is cached.
- `_format_results(page, header)` is a second decoder. It skips cells that
  have no value, and it drops the first row only when `header` is false.
- `_result_csv(path, id)` gives the location of the query's CSV output:
  `<path>/<id>.csv`, with a slash added only when `path` lacks one.

Modules:

- `Wrappers` defines `Option` and `Result`.
- `Text` covers Python's `str.join` and `str.split` with a one-character
  separator, the delimited body, and reading a body back into rows.
- `Decoding` holds the service's page, row and cell structure, flattening,
  the decoding loop, and the value-skipping decoder.
- `Athena` holds the class `AthenaResult`.

The paginator's output is the constant field `pages`, which never changes.
The class invariant `Valid()` says that cached rows always equal
`FetchedRows(pages)`. It also says that the cached text is those rows joined
with the delimiter used to build it. The ghost field `fetchCount` counts how
many times the pages were fetched from the service.

The model keeps the following behaviour of the code as written:

- `result(header)` never reads `header` (athena.py:72-97). Both `header=True`
  and `header=False` drop the first row. Yet the module docstring
  (athena.py:11-13) and the `--header` flag ("Output includes header",
  athena.py:146-147, used at 158) promise that the header can be kept.
- `result()` never reads the cache and fetches on every call. Only
  `to_string` checks `self.results` first (athena.py:101-102), and `to_s3`
  reaches a fetch only through `to_string` (athena.py:110-111).
- `self.results` is the same list that `result()` then shortens with
  `pop(0)` (athena.py:93-95), so the cache lacks the first row as well.
- A reader of the body might expect that splitting it on newlines and then
  on the delimiter gives back the rows. `Text.DelimitedRoundTrip` proves
  this holds exactly when there is at least one row and every row has at
  least one cell. This is for a one-character delimiter other than newline,
  with cells that hold neither the delimiter nor a newline. With no rows the
  body is `"\n"`, which reads back as `[[""]]`. An empty row reads back as
  `[""]`.

## Model

| member | source | states |
|---|---|---|
| `Decoding.DecodeCell` | athena.py:91 | a cell decodes to its `VarCharValue`, or to "" when it has none |
| `Decoding.DecodeRow` | athena.py:89-91 | a decoded row has exactly as many cells as the source row; a cell with a value keeps it at its position, and a cell without one becomes "" |
| `Decoding.DecodeRows` | athena.py:87-92 | the reference definition of the decoding loop: one decoded row per source row, with the same width, each cell its value or "" |
| `Decoding.DecodeData` | athena.py:87-92 | the nested decoding loop keeps the number of rows and each row's width; a cell with `VarCharValue` v becomes v, and a cell without it becomes "" |
| `Decoding.Flatten` | athena.py:83-84 | the flattened list has exactly as many rows as all pages together |
| `Decoding.FlattenAppend` | athena.py:83-84 | flattening the pages distributes over concatenation of page lists |
| `Decoding.FlattenAt` | athena.py:83-84 | row j of page p lands at position (rows on earlier pages) + j: page order first, then row order |
| `Decoding.FetchedRows` | athena.py:80-97 | the reference definition of what `result()` returns: [] with no page; otherwise one row fewer than all pages hold (none when they hold none), entry i being the decoded flattened row i + 1 |
| `Decoding.FetchedRowsPlacement` | athena.py:80-97 | when there is a page, `result()` returns total-rows minus one rows, and every row except the very first appears decoded, one place earlier than its flattened position |
| `Decoding.FetchedRowsEmpty` | athena.py:80-97 | `result()` yields [] exactly when all pages together hold at most one row (no page, empty pages, or only the first row) |
| `Decoding.PresentCount` | athena.py:123-128 | the number of cells with a value is at most the row's width, and equals it exactly when every cell has a value |
| `Decoding.PresentValues` | athena.py:123-128 | the reference definition of the value-skipping loop: it keeps one string per cell that has a value, so it is never wider than the row and is full width exactly when no cell is missing |
| `Decoding.PresentValuesFrom` | athena.py:123-128 | every string the skipping decoder keeps is the value of some cell of the row |
| `Decoding.PresentValuesAgree` | athena.py:123-128 | on rows whose every cell has a value, the skipping decoder and the defaulting decoder agree |
| `Text.Join` | athena.py:103-104 | `sep.join(parts)` is as long as all parts together plus one separator fewer than there are parts; no parts give "" |
| `Text.Split` | athena.py:103-104 | the reading-back split (Python `str.split`, one-character separator) gives one piece more than there are separators, and no piece holds the separator |
| `Text.SplitWithout` | athena.py:103-104 | a string without the separator splits to itself |
| `Text.SplitAfter` | athena.py:103-104 | splitting `p + sep + rest`, where `p` has no separator, yields `p` followed by the pieces of `rest` |
| `Text.SplitJoin` | athena.py:103-104 | splitting a join on a one-character separator that no part contains recovers the parts |
| `Text.JoinSnoc` | athena.py:103-104 | joining one more part onto the end appends the separator and that part |
| `Text.JoinAvoids` | athena.py:103-104 | a character that is in neither the separator nor any part is not in the join |
| `Text.Lines` | athena.py:103 | one delimited line per row |
| `Text.DelimitedText` | athena.py:103-104 | the body always ends in "\n", and no rows give exactly "\n" |
| `Text.BodyAsLines` | athena.py:103-104 | for at least one row, the trailing newline acts as a separator before a final empty line |
| `Text.LineRoundTrip` | athena.py:103 | a row whose cells avoid the delimiter comes back from join-then-split exactly when it has at least one cell |
| `Text.ParseText` | athena.py:103-104 | reading a body back gives one row per newline-separated piece except the last |
| `Text.DelimitedRoundTrip` | athena.py:103-104 | reading the body back gives the rows exactly when there is at least one row and every row is non-empty, for clean cells and a one-character delimiter other than newline |
| `Athena.AthenaResult.constructor` | athena.py:63-70 | a new result stores the query id and database, stores `ResultCsv(s3Path, queryId)` as its path, and starts with both caches empty |
| `Athena.AthenaResult.Result` | athena.py:72-97 | fetches every time and returns `FetchedRows(pages)` whatever `header` is; with no page the cache is unchanged, otherwise the cache equals the returned, header-less rows |
| `Athena.AthenaResult.ToString` | athena.py:99-106 | fetches only when no rows are cached and otherwise leaves the cached rows alone; returns the delimited body of the rows and caches it as the text |
| `Athena.AthenaResult.ToS3` | athena.py:108-114 | with text cached, nothing changes and nothing is fetched; otherwise it caches the tab-delimited body, fetching exactly when no rows are cached either; the upload's body is the cached text, with the given bucket and key |
| `Athena.AthenaResult.FormatResults` | athena.py:116-132 | errors exactly when `header` is false and the page has no rows (pop from an empty list); otherwise it returns one value-only row per source row, with the first row dropped exactly when `header` is false, and no row is wider than its source row |
| `Athena.EndsWithSlash` | athena.py:136 | `p.endswith('/')`: the path is some prefix followed by a slash |
| `Athena.AthenaResult.ResultCsv` | athena.py:134-138 | the path starts with the given directory and ends with `<queryId>.csv` preceded by a slash; exactly one slash is added when the directory lacks a trailing one |
| `Athena.ResultCsvNormalised` | athena.py:136-138 | adding the slash yourself names the same file exactly when the directory did not already end in one |
| `Athena.TwoPageExample` | athena.py:83-104 | two pages [a,b],[1,2] and [3,4] give rows [1,2],[3,4] and the text "1\t2\n3\t4\n" |

## Left out

- `Athena.__init__`, `Athena.query` and its polling loop are left out. They build the remote client, start the query, sleep, and retry without bound. All of that is remote I/O and timing.
- `Athena.repair_table` is left out. It only formats `MSCK REPAIR TABLE <table>` and hands it to the remote `query`.
- The readiness call `get_query_results` at the top of `result()` is left out. Its answer is never used.
- The paginator is the fixed input `pages`. The model cannot express a paginator that answers differently on different calls, or a paginator that fails.
- The S3 upload in `to_s3` is a foreign call. `ToS3` returns the `Upload` record (bucket, key, body) that it would send.
- The command-line entry point and `csv.writer`'s escaping and quoting are left out. They are argument parsing and library code.
- Python object identity is not modelled. `result()` shares one list between `self.results` and its return value; the model gives both the same value, since nothing else mutates that list here. `_format_results` builds tuples; the model uses sequences.
- Text.DelimitedRoundTrip: stated only for one-character delimiters. With a multi-character delimiter, keeping the delimiter out of every cell is not enough for the round trip. For example, delimiter "aa" and cells ["a", ""] join to "aaa", and splitting that gives ["", "a"].
