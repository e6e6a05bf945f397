# Rapport Writer Assistance — selection and matching rules

Rapport Writer Assistance (`RapportLCV_3fcoklat.py`) is a Streamlit app. It
writes a culture-programme report for one function (`Fungsi`) of one unit
(`HSH`). For each report section it asks the DeepSeek chat API for a text.
The behaviour that is not user interface or foreign I/O is a small set of
rules, and this project models them and proves their properties:

- **Unit names.** `normalize_hsh` strips a name, upper-cases it and joins
  its words with single spaces. `find_matching_hsh` picks the first list
  element whose normalised name equals the target's. Failing that, it picks
  the first one whose normalised name and the target's contain one another.
  (module `Hsh`, built on `Text`, `Search` and `Matching`)
- **Benchmark cascade.** The two comparison analyses choose benchmark rows
  in four steps:
  1. every row whose `HSH_normalized` equals the subject's key;
  2. else the first row, in table order, whose key and the subject's key
     contain one another;
  3. else every row whose key contains `PERTAMINA GROUP`;
  4. else `head(1)`.

  (module `Benchmark`)
- **Safe lookups.** The positional `safe_get_value` reads columns `3 + i` of
  the subject row and `1 + i` of the benchmark row. The named variant reads
  columns by name. Both give `'N/A'` (or the default) when there is no value.
  (module `Tables`)
- **The comparisons and the impact section.** These are the not-found
  guards, the caught `KeyError`s and the data put side by side before the
  API call. (module `Analysis`)
- **The retry loop of `call_deepseek`.** What each attempt observes is a
  parameter `env: nat -> Outcome`. Instead of sleeping, the loop records
  each delay. (module `Api`)
- **Upload dispatch and the download filename.** (module `Uploads`)

Tables are values. A `Tables.Table` holds column names and rows of
`Values.Cell`. A cell is `Missing` (what `pd.isna` accepts) or the text
`str()` gives for the value. Every row has one cell per column, and column
names are distinct, as `read_excel` makes them.

The source loops become methods:
- the two scans of `find_matching_hsh`;
- the cascade with its `match_found`/`break` scan;
- the mask selections;
- the value-collecting loops;
- the retry loop.

Each method is proved equal to a function that specifies it, and the
properties are proved about those functions.

## Model

| member | source | states |
|---|---|---|
| Hsh.Normalize | RapportLCV_3fcoklat.py:31-36 | a missing value (`pd.isna`) gives `""`; every result is in normal form: no lower-case letter, no whitespace other than single inner spaces, nothing at either end (which words it holds: `Hsh.NormalizeWords`) |
| Hsh.NormalizeText | RapportLCV_3fcoklat.py:34-36 | `' '.join(str.strip().upper().split())` gives a string in normal form (which words it holds: `Hsh.NormalizeWords`) |
| Hsh.Strip | RapportLCV_3fcoklat.py:34 | `str.strip()` leaves no whitespace at either end and keeps the words of its input |
| Hsh.JoinSpace | RapportLCV_3fcoklat.py:35 | `' '.join(ws)` starts with the first character of the first word |
| Hsh.WordsOfJoin | RapportLCV_3fcoklat.py:35 | splitting words joined by single spaces gives the words back |
| Hsh.WordsUpper | RapportLCV_3fcoklat.py:34-35 | the words of an upper-cased string are its words upper-cased |
| Hsh.WordsTrailing | RapportLCV_3fcoklat.py:34-35 | whitespace after a string does not change its words |
| Hsh.WordsTrimmed | RapportLCV_3fcoklat.py:34-35 | stripping leaves the words unchanged and no whitespace at either end |
| Hsh.NormalizeWords | RapportLCV_3fcoklat.py:31-36 | the normalised name holds exactly the input's words, upper-cased, in order |
| Hsh.SameKeyIff | RapportLCV_3fcoklat.py:31-36 | two names get the same key exactly when their words agree once upper-cased |
| Hsh.Words | RapportLCV_3fcoklat.py:35 | `str.split()` yields non-empty words without whitespace |
| Hsh.WordsNoLower | RapportLCV_3fcoklat.py:34-35 | splitting an upper-cased string gives upper-cased words |
| Hsh.JoinIsNormal | RapportLCV_3fcoklat.py:35 | joining such words with single spaces gives normal form |
| Hsh.SplitJoinNormal | RapportLCV_3fcoklat.py:35 | splitting a string in normal form and joining it with spaces gives it back |
| Hsh.SplitFirstWord | RapportLCV_3fcoklat.py:35 | a string in normal form splits into its first word and the words of the rest after one space, and the rest is in normal form |
| Hsh.NormalFormFixed | RapportLCV_3fcoklat.py:31-36 | normalisation leaves a string in normal form unchanged |
| Hsh.NormalizeFixedIff | RapportLCV_3fcoklat.py:31-36 | the strings normalisation fixes are exactly those in normal form |
| Hsh.NormalizeIdempotent | RapportLCV_3fcoklat.py:31-36 | `normalize_hsh(normalize_hsh(x)) == normalize_hsh(x)` |
| Hsh.Keys | RapportLCV_3fcoklat.py:39-44 | one normalised key per list element |
| Hsh.KeyAt | RapportLCV_3fcoklat.py:41-44 | the key at position i is the normalisation of element i |
| Hsh.MatchedElement | RapportLCV_3fcoklat.py:38-47 | the result, when there is one, is a member of the list |
| Hsh.MatchedElementExact | RapportLCV_3fcoklat.py:40-42 | the first element whose normalisation equals the target's is returned, even if an earlier element only overlaps |
| Hsh.MatchedElementOverlap | RapportLCV_3fcoklat.py:43-46 | when no element normalises to the target's key, the first element whose key and the target's contain one another is returned |
| Hsh.MatchedElementNone | RapportLCV_3fcoklat.py:43-47 | `None` is returned exactly when no element's key and the target's key contain one another (an exact match counts as one) |
| Hsh.FindMatchingHsh | RapportLCV_3fcoklat.py:38-47 | the two loops with early return compute `MatchedElement` |
| Matching.EqualKeysOverlap | RapportLCV_3fcoklat.py:40-46 | equal keys also pass the substring test |
| Matching.MatchIndex | RapportLCV_3fcoklat.py:40-47 | returns the first exact index when one exists; otherwise the first overlapping index; `None` exactly when nothing overlaps |
| Matching.ExactMatchIndex | RapportLCV_3fcoklat.py:40-42 | the first key equal to the target is the index returned |
| Matching.OverlapMatchIndex | RapportLCV_3fcoklat.py:43-46 | when no key is equal, the first overlapping key is the index returned |
| Matching.ScanKeys | RapportLCV_3fcoklat.py:40-47 | the two scans with early return compute `MatchIndex` |
| Matching.ExactBeatsEarlierOverlap | RapportLCV_3fcoklat.py:40-46 | an exact match at i wins over an overlap-only match at an earlier k |
| Matching.EmptyTargetMatchesFirst | RapportLCV_3fcoklat.py:43-46 | an empty target name matches the first element when no key is empty |
| Search.FirstWhere | RapportLCV_3fcoklat.py:306-311 | the first position passing a test; `None` exactly when none passes |
| Search.FirstWhereAt | RapportLCV_3fcoklat.py:306-311 | the scan stops at the first passing position |
| Search.Indices | RapportLCV_3fcoklat.py:299-301 | a boolean mask keeps exactly the passing positions, in increasing order |
| Search.MaskRows | RapportLCV_3fcoklat.py:299-301 | the row-by-row loop computes the mask's positions |
| Search.IndicesMembership | RapportLCV_3fcoklat.py:299-303 | the selection is non-empty exactly when some row passes, and it holds every passing row |
| Search.FirstOfIndices | RapportLCV_3fcoklat.py:299-319 | the first position of a mask selection is the first passing position |
| Search.FirstIndexPasses | RapportLCV_3fcoklat.py:299-319 | the first selected position passes the test and no earlier position does |
| Benchmark.SelectRows | RapportLCV_3fcoklat.py:299-319 | every selected row exists; the selection is non-empty exactly when the benchmark table has rows |
| Benchmark.ContainsIgnoringCase | RapportLCV_3fcoklat.py:316 | `str.contains(token, case=False)` for an upper-case token: a key and its lower-cased form answer alike, and a key without lower-case letters is searched as it is |
| Benchmark.SelectBenchmark | RapportLCV_3fcoklat.py:299-319 | the mask / scan-with-break / mask / `head(1)` sequence computes `SelectRows` |
| Benchmark.ExactStep | RapportLCV_3fcoklat.py:299-303 | the exact step fires exactly when some key equals the target, and then every such row is selected |
| Benchmark.ExposedRow | RapportLCV_3fcoklat.py:402-422 | in the survey cascade and alike in the evidence cascade at lines 299-319, row 0 of the selection, which all later code reads, is by strict priority: the first exact row; else the first overlapping row; else the first `PERTAMINA GROUP` row; else row 0 |
| Benchmark.ExposedExact | RapportLCV_3fcoklat.py:299-303 | a selection by the exact step begins with the first row whose key equals the target |
| Benchmark.ExposedOverlap | RapportLCV_3fcoklat.py:305-311 | a selection by the overlap step follows an empty exact step and holds the first overlapping row |
| Benchmark.NoOverlapAfterScan | RapportLCV_3fcoklat.py:313-319 | past the overlap step no key overlaps the target |
| Benchmark.ExposedGroup | RapportLCV_3fcoklat.py:313-317 | a selection by the group step begins with the first row naming `PERTAMINA GROUP` |
| Benchmark.ExposedFirst | RapportLCV_3fcoklat.py:318-319 | `head(1)` is reached only when no key overlaps and none names the group |
| Tables.ColumnIndex | RapportLCV_3fcoklat.py:425-427 | the position of a named column; `None` exactly when the column is absent |
| Tables.ColumnIndexUnique | RapportLCV_3fcoklat.py:427-428 | column names are distinct, so a name identifies its column |
| Tables.SafeGetAt | RapportLCV_3fcoklat.py:326-333 | the cell's text; `"N/A"` when the column index is out of range, the row does not exist, or the value is missing |
| Tables.IsEmpty | RapportLCV_3fcoklat.py:293 | `frame.empty` holds exactly when no row has a cell (no rows, or no columns) |
| Tables.Shown | RapportLCV_3fcoklat.py:345 | a present value shows as its text and a missing one as `nan` |
| Tables.SafeGetNamed | RapportLCV_3fcoklat.py:425-432 | the cell's text; `default` when the column is absent, the row does not exist, or the value is missing |
| Tables.NamedAgreesWithPositional | RapportLCV_3fcoklat.py:425-432 | with default `'N/A'`, the named lookup equals the positional lookup at that column's position |
| Tables.Select | RapportLCV_3fcoklat.py:309 | `iloc[rows]` keeps the columns and the listed rows in order |
| Tables.SelectFirstRow | RapportLCV_3fcoklat.py:335-343 | a lookup in row 0 of a selection reads the first selected row of the whole table |
| Tables.RowsWhere | RapportLCV_3fcoklat.py:292 | `frame[frame['Fungsi'] == f]` keeps exactly the rows holding f |
| Tables.RowsWhereEmpty | RapportLCV_3fcoklat.py:292-293 | that selection is empty exactly when no row holds f |
| Tables.PositionalValues | RapportLCV_3fcoklat.py:335-343 | entry i pairs name i with the lookup at column `first + i` |
| Tables.NamedValues | RapportLCV_3fcoklat.py:435-437 | entry i pairs name i with the named lookup of that column in the given row, default `'N/A'` |
| Tables.CollectPositional | RapportLCV_3fcoklat.py:335-343 | the `enumerate` loop computes `PositionalValues` |
| Tables.PositionalBeyondWidth | RapportLCV_3fcoklat.py:328-331 | a listed column past the frame's width shows `"N/A"` |
| Analysis.BenchmarkKeys | RapportLCV_3fcoklat.py:306-308 | one key per benchmark row, read from `HSH_normalized` |
| Analysis.SubjectHsh | RapportLCV_3fcoklat.py:296 | `fungsi_data.iloc[0]['HSH']` when the column exists, else the selected HSH |
| Analysis.NotFoundMessage | RapportLCV_3fcoklat.py:294 | the message starts with `Data fungsi '` (with `Data survei untuk fungsi '` in the survey guard at line 397), then holds the selected function and a closing `'`, and ends with a full stop |
| Analysis.ErrorMessage | RapportLCV_3fcoklat.py:390-391 | a caught exception gives `Error dalam analisis evidence: ` followed by `str(e)`, and `Error dalam analisis survei: ` followed by `str(e)` in the survey analysis at line 496 |
| Analysis.SubjectValues | RapportLCV_3fcoklat.py:435-437 | the survey values are `Skor Survei`, `SKOR PEKERJA` and `SKOR MITRA KERJA`, in that order, each looked up by name in the first subject row with default `'N/A'`; the evidence values (lines 335-338) pair the nine measures with the positional lookup at column `3 + i` |
| Analysis.BenchmarkValues | RapportLCV_3fcoklat.py:440-442 | the survey values are `Skor Total`, `Skor Pekerja` and `Skor Mitra`, in the order the prompt lists them, each looked up by name in the first benchmark row with default `'N/A'`; the evidence values (lines 340-343) are read positionally from column `1 + i` |
| Analysis.Compare | RapportLCV_3fcoklat.py:321-351 | the `HSH Fungsi` line of the prompt (lines 351 and 450) shows the subject HSH of `SubjectHsh`; subject and benchmark lists have the same length; in the evidence analysis they pair the same nine measures, the subject's read at column `3 + i` of its first row; in the survey analysis (lines 435-442) the subject's three scores are read by name from its first row and sit opposite the benchmark's three scores |
| Analysis.BenchmarkName | RapportLCV_3fcoklat.py:345 | an empty selection shows `"Benchmark tidak tersedia"` |
| Analysis.Prepare | RapportLCV_3fcoklat.py:290-444 | a not-found result carries the not-found message of its analysis |
| Analysis.Section | RapportLCV_3fcoklat.py:290-391 | for the evidence analysis and alike for the survey analysis at lines 393-496: a missing `Fungsi` column gives the caught `KeyError`; a function no row holds gives the not-found message; otherwise a missing `HSH_normalized` gives the caught `KeyError`, and else the answer of `call_deepseek` |
| Analysis.Analyze | RapportLCV_3fcoklat.py:290-444 | the imperative analysis computes `Prepare` |
| Analysis.NotFoundIff | RapportLCV_3fcoklat.py:292-294 | for the evidence analysis and alike for the survey guard at lines 395-397: the comparison stops at the not-found guard exactly when a `Fungsi` column exists and no row holds the selected function |
| Analysis.FailedIff | RapportLCV_3fcoklat.py:290-301 | a `KeyError` is caught exactly when `Fungsi` is missing, or when `HSH_normalized` is missing once the subject row is found |
| Analysis.ReadyIsCompare | RapportLCV_3fcoklat.py:292-345 | a comparison that gets ready is the comparison of the rows holding the selected function |
| Analysis.SubjectIsFirstMatch | RapportLCV_3fcoklat.py:292-338 | subject values come from the first row, in table order, that holds the selected function |
| Analysis.BenchmarkIsSelectedRow | RapportLCV_3fcoklat.py:299-345 | on a non-empty benchmark table: the step shown is the cascade's; the benchmark name is the first cell of the first selected row; the evidence values are read from that row at `1 + i`, and the survey values (lines 440-442) by name from that row |
| Analysis.NoBenchmarkRows | RapportLCV_3fcoklat.py:318-345 | a benchmark table without rows shows `"Benchmark tidak tersedia"` and `"N/A"` for every value |
| Analysis.NoRowValues | RapportLCV_3fcoklat.py:326-333 | every lookup in a frame without rows gives `"N/A"` |
| Analysis.ImpactSection | RapportLCV_3fcoklat.py:259-288 | no impact content gives the fixed message; otherwise the API's answer |
| Analysis.ImpactWithoutContent | RapportLCV_3fcoklat.py:260-261 | without impact content the answer does not depend on the API |
| Api.Backoff | RapportLCV_3fcoklat.py:174-198 | the pause is `2 ** attempt` after status 429 and 1 after an exception |
| Api.ExitOf | RapportLCV_3fcoklat.py:167-198 | only 429 and the exceptions are retryable |
| Api.Final | RapportLCV_3fcoklat.py:167-198 | each kind of return carries its message: content, bad format, rate limit, the 400 message with default `Bad Request`, `Error API (status)`, connection error, unexpected error |
| Api.Run | RapportLCV_3fcoklat.py:162-200 | from attempt k: it gives up, with no request and no delay, exactly when k is past the last attempt; otherwise it makes between k+1 and `max_retries` requests |
| Api.Call | RapportLCV_3fcoklat.py:162-200 | `call_deepseek` gives up exactly when `max_retries <= 0`; otherwise it makes between 1 and `max_retries` requests |
| Api.CallDeepseek | RapportLCV_3fcoklat.py:162-200 | the `for`/`continue`/`return` loop computes `Call` |
| Api.RunCounts | RapportLCV_3fcoklat.py:162-200 | from attempt k: either it gives up at once with no delay, or it makes between k+1 and `max_retries` attempts with one delay fewer |
| Api.CallBounds | RapportLCV_3fcoklat.py:162-200 | at most `max_retries` requests, one delay fewer than requests; the give-up message only when `max_retries <= 0` |
| Api.RetriedCons | RapportLCV_3fcoklat.py:174-198 | a retryable attempt and its pause extend a trace of retries |
| Api.RunLast | RapportLCV_3fcoklat.py:162-198 | the last attempt of a run gives its text and exit, and stopping before `max_retries` means that outcome was not retryable |
| Api.RunDelays | RapportLCV_3fcoklat.py:174-198 | every attempt of a run before its last was retryable and was followed by its backoff |
| Api.RunTrace | RapportLCV_3fcoklat.py:162-198 | every attempt before the last was retryable and was followed by its backoff; the last attempt's outcome gives the result; stopping early means that outcome was not retryable |
| Api.ImmediateReturn | RapportLCV_3fcoklat.py:167-186 | a non-retryable first outcome (200, 400, any other status) is returned at once without delay |
| Api.PersistentRateLimit | RapportLCV_3fcoklat.py:174-178 | status 429 on every attempt gives exactly `max_retries` requests, delays 1, 2, 4, … and the rate-limit message |
| Api.DefaultRateLimit | RapportLCV_3fcoklat.py:115-178 | with the default two attempts, persistent 429 gives two requests and one pause of 1 |
| Uploads.SuffixLength | RapportLCV_3fcoklat.py:93 | counts the characters after the last `.`: none of them is a dot, and a dot precedes them unless they are the whole name |
| Uploads.AfterLastDot | RapportLCV_3fcoklat.py:93 | `split('.')[-1]` contains no dot |
| Uploads.AfterLastDotOfJoin | RapportLCV_3fcoklat.py:93 | `(base + '.' + ext).split('.')[-1] == ext` for a dot-free ext |
| Uploads.AfterLastDotOfPlain | RapportLCV_3fcoklat.py:93 | a dot-free name is its own last part |
| Uploads.Extension | RapportLCV_3fcoklat.py:93 | the lower-cased last part has no dot and no upper-case letter, and is the whole lower-cased name when the name has no dot |
| Uploads.ReadUploadedFile | RapportLCV_3fcoklat.py:89-104 | `None` exactly for no upload; a refused file gets `"Format file tidak didukung"` |
| Uploads.DispatchByExtension | RapportLCV_3fcoklat.py:95-104 | Excel exactly for `xlsx`/`xls`, PDF exactly for `pdf`, image exactly for `png`/`jpg`/`jpeg`, refused exactly otherwise |
| Uploads.LowerAfterLastDot | RapportLCV_3fcoklat.py:93 | lower-casing commutes with taking the last part |
| Uploads.DispatchIgnoresCase | RapportLCV_3fcoklat.py:93 | a name and its lower-cased form are dispatched alike |
| Uploads.DispatchOfJoin | RapportLCV_3fcoklat.py:93-104 | only the extension of `base.ext` decides the dispatch |
| Uploads.SafeName | RapportLCV_3fcoklat.py:735 | same length; every `' '` and `'/'` becomes `'_'`; every other character is kept |
| Uploads.SafeNameIdempotent | RapportLCV_3fcoklat.py:735 | sanitising twice is sanitising once |
| Uploads.TwoDigits | RapportLCV_3fcoklat.py:734 | `%m`/`%d`: two decimal digits that spell the number |
| Uploads.DownloadFilename | RapportLCV_3fcoklat.py:734-735 | `Rapp_` + the sanitised name + `_MM_DD.docx`: length, prefix and suffix, the month and day in the middle, and no `' '` or `'/'` anywhere |
| Text.Upper | RapportLCV_3fcoklat.py:34 | `upper()` keeps the length, leaves no lower-case letter, and fixes a string without one |
| Text.Lower | RapportLCV_3fcoklat.py:93 | `lower()` keeps the length, leaves no upper-case letter, and fixes a string without one |
| Text.SubstringIff | RapportLCV_3fcoklat.py:45 | `a in b`, modelled by the recursive predicate `Text.IsSubstring`, holds exactly when a occurs in b at some position |
| Matching.OverlapsIff | RapportLCV_3fcoklat.py:45 | the test `a in b or b in a` (`Matching.KeyOverlaps`, also at lines 308 and 411) holds exactly when one key occurs in the other at some position |
| Text.ReplaceChar | RapportLCV_3fcoklat.py:735 | `str.replace` of one character: same length, replaced pointwise |
| Text.NatToString | RapportLCV_3fcoklat.py:186 | `str(status)`: decimal digits with no leading zero that spell the number |

## Left out

- The Streamlit user interface, CSS and `main()`. This is presentation only.
- HTTP to the DeepSeek endpoint. Each attempt's result is the parameter `env`. A body that is not JSON makes `response.json()` raise `requests.exceptions.JSONDecodeError`, a `RequestException` since requests 2.27: that attempt is `RequestFailed`. A JSON body of the wrong shape (a 400 body that is not an object or whose `error` is not one, a 200 body whose first choice has no `message.content`) raises another exception: that attempt is `Crashed`. A 400 body without `error` or without `error.message` gives `Bad Request`.
- Api: the answer of a 200 response is modelled as an optional list of strings. A first choice whose `message.content` is JSON `null` therefore cannot be represented: there the source returns `None` without raising.
- `time.sleep`. The delays are recorded instead.
- Loading the Excel files (`load_excel_files`) and caching. The tables are given. The analyses read the `HSH_normalized` column the loader adds to the benchmark tables; `Analysis.KeyText` reads a missing value there as `""`, because the loader always writes a string.
- PDF text extraction, OCR and `df.to_string()`. The dispatch returns which reader would run, not the text. The `Error reading file` path that catches reader exceptions is not modelled.
- `get_content_hash` (md5), `create_word_document` (python-docx) and the prompt wording. The comparisons stop at the data they would interpolate into the prompt.
- The clock. `Uploads.DownloadFilename` takes the month and the day as parameters.
- Text.Upper, Text.Lower: case mapping covers ASCII letters only, because Python's Unicode case mapping (which can change a string's length) is not modelled. Whitespace is Python's `str.isspace` set.
- Tables.RowsWhere: compares a cell's text with the selected function. A numeric cell such as `5` therefore matches `"5"`, which pandas' `==` would not do.
- Tables.Shown: shows a missing value as `nan`, which is how an f-string prints a NaN. A missing value that is `None` would print as `None`.
- The `iterrows` scan uses the row label `idx` with `iloc`. The model uses positions. The two agree on the default index the loaded frames have.
- After an exception the code always waits 1 second; only status 429 backs off by `2 ** attempt`. `max_retries` attempts are made only when every attempt before the last is retryable (`Api.RunTrace`); the last attempt may end in any way, a success included. A non-retryable first outcome returns at once (`Api.ImmediateReturn`).
