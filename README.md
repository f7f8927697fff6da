# FreeUP Drive — a Dafny model of its listing, download and manifest core

FreeUP Drive is a Streamlit utility that backs up files from a Google Drive account.
This project models its core:

- `list_files_generator` (`src/drive_client.py`) turns the sidebar filters into a Drive
  search query and pages through the listing, yielding one inventory record per file
  and dropping files below the minimum size on the client side;
- `download_file` (`src/drive_client.py`) runs the media downloader's chunk loop,
  reports progress, optionally hashes the file and appends one JSON record to the
  manifest; its retry decorator runs the whole call again, at most five attempts;
- `human_size` and `write_manifest_entry` (`src/utils.py`);
- the parts of `src/app.py` that carry logic: the MIME-group presets, the guard
  against an inverted date range, `to_rfc3339`, the MB-to-bytes conversion, the scan
  that stores the inventory, the `size_h` column, the `to_download` selection and the
  sequential download loop with its overall progress bar.

## Modules

| file | module | what it holds |
|---|---|---|
| `wrappers.dfy` | `Wrappers` | `Option` (Python's `None`) and `Result` (a raised exception) |
| `seqs.dfy` | `Seqs` | small facts about sequence concatenation |
| `decimal.dfy` | `Decimal` | `str(int)`, `int(str)` and zero padding |
| `text.dfy` | `Text` | `str.join`, string order, and the lines a reader sees in a text file |
| `json.dfy` | `Json` | an insertion-ordered dict, `json.dumps` with its defaults, and a reader for what it writes |
| `utils.dfy` | `Utils` | `human_size`; the manifest file as a class with `write_manifest_entry` |
| `inventory_lister.dfy` | `InventoryLister` | the query builder and the paged lister |
| `transfer_engine.dfy` | `TransferEngine` | one download attempt, the retry decorator, the manifest record |
| `app_filters.dfy` | `AppFilters` | MIME groups, dates, MB sizes, the scan button |
| `app_download.dfy` | `AppDownload` | the inventory table, the selection, the sequential download loop |

How the outside world is represented:

- Drive, the network and the clock are parameters. The service is the sequence of
  responses to successive list requests; a request past its end, or one answered by
  `RequestFailed`, raised.
- A download attempt is the sequence of its `next_chunk()` results. A `Raise` step, or
  running out of steps before `done`, is an attempt that raised.
- The SHA-256 digest is a function parameter. Each file's `utcnow().isoformat()`
  reading is an input string.
- The local file system is a `Disk` class: a map from path to bytes. The manifest
  file is a `ManifestFile` class holding its text.
- Methods replace the loops and the state that changes step by step: the query
  parts, the page loop, the chunk loop, the retry loop, the MIME expansion and the
  download loop. Each such method is proved against a function that states what it
  computes.

Behaviour of the code worth noting, which the model follows:

- The "escaped" name term (`src/drive_client.py:69`) replaces each `'` with the Python
  literal `"\'"`, which is the one-character string `'`. The step is the identity, so
  a quote in the name reaches the query unchanged. `InventoryLister.SafeTermIsIdentity`
  states this.
- The sequential loop (`src/app.py:175-190`) has no `try`. The first file whose
  download exhausts its retries raises out of the loop, so the files after it are not
  tried and the overall bar is not moved for it.
- The retry decorator runs the undecorated body again from the start. The file is
  truncated again and the callback sees progress from zero. The values one file's bar
  receives can therefore go down: `TransferEngine.ProgressRestartsOnRetry`.
- `row.to_dict()` includes the `size_h` column added at `src/app.py:124`, so manifest
  records from the app carry `size_h`.

## Model

| member | source | states |
|---|---|---|
| Decimal.ParseInt | src/drive_client.py:82 | the model's `int(s)` succeeds exactly on an optional sign followed by at least one digit; otherwise it is the `ValueError` |
| Decimal.ParseIntToString | src/drive_client.py:82 | `int(str(i)) == i` for every integer |
| Decimal.ZeroPad | src/app.py:92-93 | the padded digits denote `n` and are as wide as asked, or as wide as `n`'s digits when those are wider |
| Text.JoinLength | src/drive_client.py:71 | `sep.join(parts)` holds every part and one `sep` between each two, so its length is their total plus `len(parts) - 1` separators; no parts give `''` |
| Text.JoinSnoc | src/drive_client.py:62-71 | joining one more part appends `sep` and that part, or gives the part alone when there was none |
| Text.LinesAppendRecord | src/utils.py:42 | appending a newline-free record and `"\n"` to a text whose last line is complete adds exactly that record as a new line, and the text stays complete |
| Text.LinesAppendRecords | src/drive_client.py:154-155 | appending several terminated records adds exactly those lines, in order |
| Json.Get | src/drive_client.py:147-151 | `d.get(k)` is present exactly when `k` is a key of `d` |
| Json.Set | src/drive_client.py:148-151 | `d[k] = v`: afterwards `k` maps to `v`, and every other key keeps its value |
| Json.SetUnique | src/drive_client.py:148-151 | assignment keeps the keys of a dict distinct |
| Json.SetKeys | src/drive_client.py:148-151 | an existing key keeps its place; a new key goes after all the others |
| Json.Dumps | src/drive_client.py:152 | `json.dumps` of a dict is an object text: it opens with `{` and closes with `}` |
| Json.DumpsPrintable | src/drive_client.py:152-155 | `json.dumps` with `ensure_ascii` writes only printable ASCII, so a record never contains a newline |
| Json.EscapeCharRoundTrip | src/drive_client.py:152 | each character, escaped as `json.dumps` escapes it (short escapes, `\uXXXX`, surrogate pairs beyond U+FFFF), decodes back to itself |
| Json.LoadsDumps | src/drive_client.py:152 | reading a written record gives back the same dict, with its keys in the same order |
| Utils.UnitIndex | src/utils.py:33 | `floor(log(num, 1024))` exactly: `1024**idx <= num < 1024**(idx+1)` |
| Utils.RoundHalfEven | src/utils.py:35 | `round(n / d)`: within half of `n / d`, with an exact tie going to the even neighbour |
| Utils.HumanSize | src/utils.py:27-36 | `None` and `0` give `'0B'` whatever the suffix; a negative count raises the math domain error |
| Utils.HumanSizeShape | src/utils.py:32-36 | below the exbibyte range the text is the rounded value, the unit of the largest power of 1024 not above `num`, and the suffix; the value is within half a hundredth of `num / 1024**idx` |
| Utils.HumanSizeTooLarge | src/utils.py:32-36 | from `1024**6` up to the float range (below `2**1024`), the unit index passes the end of `units`, and it raises `IndexError` |
| Utils.HundredthsRoundTrip | src/utils.py:35-36 | the number written for a value rounded to two places reads back as the same number of hundredths |
| Utils.HumanSizeExamples | tests/test_utils.py:3-7 | `0` gives `'0B'`, `1024` gives `'1.0KB'`, `1024*1024` gives `'1.0MB'`, `1536` gives `'1.5KB'`, and `None` gives `'0B'` |
| Utils.HumanSizeZeroIgnoresSuffix | src/utils.py:30-31 | zero gives `'0B'` for any suffix |
| Utils.HumanSizeJustBelowMebibyte | src/utils.py:33-36 | `1024*1024 - 1` keeps the unit `K` while its value rounds up: `'1024.0KB'` |
| Utils.ManifestFile.WriteManifestEntry | src/utils.py:39-42 | appends `json.dumps(entry)` and a newline and keeps the old text; a complete file gains exactly one line, which reads back as `entry` |
| InventoryLister.SafeTermIsIdentity | src/drive_client.py:69 | replacing `'` with `"\'"` leaves the name term unchanged |
| InventoryLister.BuildQuery | src/drive_client.py:56-71 | `q_parts` are the query clauses, joined with `" and "`; the query always starts with the trashed clause and the not-a-folder clause |
| InventoryLister.BuildMimeClause | src/drive_client.py:61-63 | one `mimeType = '…'` term per type, in order, OR-ed, in parentheses |
| InventoryLister.ClausesInOrder | src/drive_client.py:57-70 | the clauses come in a fixed order, each filter at most once: the two base clauses, then MIME, lower date, upper date, name |
| InventoryLister.ClausePresence | src/drive_client.py:61-70 | each optional clause is in the query exactly when its filter is truthy |
| InventoryLister.ClauseMembers | src/drive_client.py:57-70 | a clause is in the query exactly when it is a base clause or the clause of a truthy filter |
| InventoryLister.BaseQuery | src/drive_client.py:57 | with no optional filter the query is exactly `trashed = false and mimeType != 'application/vnd.google-apps.folder'` |
| InventoryLister.SizeOf | src/drive_client.py:82 | an absent or empty size is 0; any other text succeeds exactly when the model's `int` accepts it, with `int`'s value (a digit string is its value); a refused text ends the listing with that text |
| InventoryLister.Admit | src/drive_client.py:82-92 | a size `int` refuses raises; a parsed size is skipped exactly when a positive minimum exceeds it; a kept file without `id` or `name` raises `KeyError`, in that order, and otherwise yields its record, which carries its id, name, parsed size (at least the minimum) and the optional fields as given |
| InventoryLister.KeptFiles | src/drive_client.py:82-84 | the files the size filter lets through: exactly the files whose size parses and is not below a positive minimum |
| InventoryLister.AdmitAllKeepsKept | src/drive_client.py:81-92 | one page raises exactly when some file's size is refused or a kept file lacks `id` or `name`; otherwise it yields one record per kept file, in order, and no other |
| InventoryLister.ListingKeepsKept | src/drive_client.py:72-95 | a listing that ends without failure yields one record per kept file of all the pages it read, in order |
| InventoryLister.UnsizedSkippedUnderMinimum | src/drive_client.py:82-84 | a file without a size is skipped once a positive minimum is set |
| InventoryLister.AdmitPage | src/drive_client.py:81-92 | the loop over one page yields what the file-by-file filter gives, and stops at the first error |
| InventoryLister.ListFiles | src/drive_client.py:72-95 | the records, the failure and the request count agree with the listing function; the first request has no page token; each later one carries the previous page's token; every request has the query and the page size |
| InventoryLister.ListingRespectsMinimum | src/drive_client.py:83-84 | with a positive minimum, every record yielded is at least that large |
| InventoryLister.AdmitAllKeepsEverything | src/drive_client.py:81-92 | without a positive minimum and without an error, each file yields its own record, in order |
| InventoryLister.ListingIgnoresPages | src/drive_client.py:72-95 | the records do not depend on page boundaries: they are the file-by-file filter over all files of the pages read |
| InventoryLister.ListingStopsAtLastPage | src/drive_client.py:93-95 | the listing stops at the first page without a truthy next-page token; every earlier response was such a page with a token |
| InventoryLister.RecordDictContents | src/drive_client.py:85-92 | the yielded dict has the six keys in order; the size is a number, and a missing checksum is `null` |
| TransferEngine.TakenSteps | src/drive_client.py:127-128 | every `next_chunk()` call the loop makes returned normally, and only the last of them can say `done` |
| TransferEngine.EndsAtFirstDone | src/drive_client.py:127-128 | the first `done` step ends the loop: no later step is taken |
| TransferEngine.StopsOnDoneOrRaise | src/drive_client.py:126-128 | an attempt that does not complete stopped at a raising call or at the end of its downloader |
| TransferEngine.StatusesMembers | src/drive_client.py:127-132 | a value reaches the callback exactly when a step taken reports it as a truthy status |
| TransferEngine.StatusesAt | src/drive_client.py:127-132 | in any run, a step with a truthy status sends exactly that value to the callback once, after what the earlier steps sent and before what the later ones send; any other step sends nothing |
| TransferEngine.StatusesAppend | src/drive_client.py:127-132 | the callback values of two runs of steps in a row are those of the first, then those of the second |
| TransferEngine.StatusesOfTruthySteps | src/drive_client.py:129-132 | when every step reports a status, the callback gets each step's value once, in order |
| TransferEngine.StatusesOfFalsySteps | src/drive_client.py:129-132 | when no step reports a status, the callback is never called |
| TransferEngine.BaseNameOfJoin | src/drive_client.py:147 | `(dir / name).name` is `name` for a name without `/` |
| TransferEngine.ManifestEntryContents | src/drive_client.py:145-151 | the entry is a copy of `meta` (or `{id, name}`) with `localPath` and `downloadedAt`; `sha256` appears only for a non-empty hash; every other key keeps the base's value, in the base's order |
| TransferEngine.EntryWithoutMeta | src/drive_client.py:147-149 | without `meta` the entry's keys start `id`, `name`, `localPath`, `downloadedAt`, holding the file id, the file name, the path and the time with `Z` |
| TransferEngine.RunDownloader | src/drive_client.py:122-134 | the destination is truncated and then holds the bytes of the steps taken; when a callback is given, it receives the truthy statuses of those steps, in order |
| TransferEngine.RecordDownload | src/drive_client.py:145-155 | the manifest gains exactly the line of the entry built from `meta` |
| TransferEngine.DownloadAttempt | src/drive_client.py:122-155 | one undecorated call: the chunk loop, then, only when it ended on `done`, the manifest record; a raising attempt records nothing |
| TransferEngine.RetryBound | src/drive_client.py:98 | at most five attempts; the run succeeds exactly when an attempt completes, and then it is the first attempt that completes |
| TransferEngine.RetryIgnoresLaterAttempts | src/drive_client.py:98 | a sixth downloader is never used |
| TransferEngine.ProgressRestartsOnRetry | src/drive_client.py:127-132 | after a raising attempt the callback sees the new attempt's progress from the start: the values can go down |
| TransferEngine.DownloadFile | src/drive_client.py:98-155 | the decorated call: the destination holds what the last attempt wrote; the success flag and the attempt count are the retry run's; the callback saw every attempt's statuses in turn; the manifest gains one record only on success |
| TransferEngine.Attempt | src/drive_client.py:98-155 | one attempt inside the retry loop either ends the run with its outcome or leaves the loop going on, with nothing recorded |
| AppFilters.ExpandMimeGroups | src/app.py:84-86 | the `extend` loop builds the groups' types, concatenated in selection order |
| AppFilters.ExpansionAppend | src/app.py:84-86 | selecting groups one after another concatenates their expansions |
| AppFilters.ExpansionMember | src/app.py:84-86 | a type is selected exactly when one of the selected groups lists it |
| AppFilters.GroupTypesNonEmpty | src/app.py:77-83 | only `images`, `videos`, `documents` and `archives` stand for types; `other` and unknown names stand for none |
| AppFilters.SkipEmptyGroup | src/app.py:82-86 | a group without types can be dropped from the selection without effect |
| AppFilters.ExpansionEmpty | src/app.py:84-86 | the expansion is empty exactly when no selected group stands for a type |
| AppFilters.ExpansionExample | src/app.py:77-86 | `videos`, `other`, `images` give the video types, then the image types |
| AppFilters.ToRfc3339 | src/app.py:88-93 | no date gives no bound; a date gives a 20-character UTC timestamp |
| AppFilters.ParseFormat | src/app.py:92-93 | the written timestamp reads back, as a section 5.6 RFC 3339 `date-time`, to the date and time written |
| AppFilters.BoundsDenoteDays | src/app.py:94-95 | the lower bound is the day's first second and the upper bound its last second |
| AppFilters.DatePartOrder | src/app.py:72 | the date parts sort as text in calendar order and are equal only for equal dates |
| AppFilters.FormatOrder | src/app.py:88-95 | timestamps in this one format and zone sort as text in the order of the instants (section 5.1 of RFC 3339) |
| AppFilters.GuardMatchesBounds | src/app.py:72 | the range is not inverted exactly when the lower bound sent to the lister sorts no later than the upper bound |
| AppFilters.MbToBytes | src/app.py:103 | `mb*1024*1024` is a whole number of MiB, namely `mb` |
| AppFilters.MbShownAsMb | src/app.py:103 | a whole number of MB below 1024 is rendered by `human_size` as that number with `.0MB` |
| AppFilters.ScanFilters | src/app.py:94-108 | the scan passes the page size, the minimum in bytes, the expanded types, the two bounds and the name, with an empty type list or an empty name passed as `None` |
| AppFilters.ScanQueryClauses | src/app.py:101-108 | the scan's query has a MIME clause exactly when a selected group stands for types, a bound exactly for each date given, and a name clause exactly for a non-empty name; the minimum is in bytes |
| AppFilters.Scan | src/app.py:66-118 | no service: a warning and nothing else; an inverted range: the error and no listing; otherwise the listing runs with the sidebar's query; the inventory changes only when the whole listing succeeds, with a warning when it is empty; a failure keeps the old inventory and reports the error |
| AppFilters.ListInto | src/app.py:99-118 | the `try` around the listing: the inventory takes the records only on success, and the notices say how the listing ended |
| AppDownload.TabulateRows | src/app.py:122-124 | the table exists exactly when every size renders; it has one row per record, in order, each with its record and `human_size` of its size |
| AppDownload.RowDictContents | src/app.py:185 | `row.to_dict()` has the six listed keys in order, then `size_h` |
| AppDownload.ToDownloadMember | src/app.py:136 | a row is downloaded exactly when it is in the table and its label, the name and the id joined by a bar, was selected |
| AppDownload.ToDownloadAppend | src/app.py:136 | filtering the table in two parts filters each part and keeps them in order |
| AppDownload.ToDownloadCount | src/app.py:136 | each selected row is downloaded as many times as it occurs in the table; an unselected row is not downloaded |
| AppDownload.ToDownloadSubsequence | src/app.py:136 | the downloaded rows are the table's rows in the table's order, some left out |
| AppDownload.OverallProgress | src/app.py:190 | the overall bar never moves back and never passes 100, and it reaches 100 exactly after the last file |
| AppDownload.OverallBarsShape | src/app.py:135-190 | the overall bar is created at 0, takes one value per finished file, never goes down, stays within 100, and shows 100 exactly when every file finished |
| AppDownload.BarValue | src/app.py:177-178 | `int(p*100)` is the percentage truncated toward zero |
| AppDownload.BarValueBounds | src/app.py:177-178 | a fraction from 0 to 1 gives a bar value from 0 to 100, and 100 only for the whole file |
| AppDownload.BarValueMonotone | src/app.py:177-178 | a larger fraction never gives a smaller bar value |
| AppDownload.FileBarShape | src/app.py:176-178 | a file's bar is created at 0 and takes one value per reported status; fractions keep it within 0 to 100, and statuses that never go down keep it from going down |
| AppDownload.DownloadRow | src/app.py:179-189 | one call for the row: the retried download's outcome and statuses, its manifest line only on success, and its bytes at `dest / name` |
| AppDownload.DownloadNext | src/app.py:175-190 | one turn after `i` finished files: the manifest and the disk move on by that file |
| AppDownload.Turn | src/app.py:175-190 | one turn keeps the loop state: the next file's bar, and on success its overall step |
| AppDownload.DownloadRows | src/app.py:175-190 | files are downloaded in selection order until one fails all its attempts; the state then describes exactly the files tried |
| AppDownload.DownloadSequential | src/app.py:137-191 | nothing selected does nothing; otherwise the finished files are a prefix of the selection; a stop is at a failed download; the overall bar, the per-file bars, the manifest lines and the disk match the files finished and tried |
| AppDownload.ManifestRecords | src/app.py:179-189 | the one manifest gains one line per finished file, in order, each reading back as that file's record |
| AppDownload.EntryKeys | src/app.py:185 | a downloaded row's record starts with the row's own columns, `size_h` last |
| AppDownload.EntryFields | src/app.py:179-189 | the record carries the row's id, size and display size, the local path and the download time |
| AppDownload.EntrySha | src/app.py:188 | the record has `sha256` exactly when hashing was on and the digest is non-empty |

## Left out

- OAuth (`get_drive_service`), the token file and the Streamlit widgets themselves are
  left out. The sidebar values are inputs, and the session state is the `Session` class.
- The parallel branch (`src/app.py:141-173`) is left out. Its thread pool, lock and
  completion order are concurrency that the model does not cover.
- The free-space display (`psutil`, `src/app.py:55-60`), `ensure_dirs`, `init_logging`
  and every `logger` call are left out: they are I/O with no effect on the results.
- SHA-256 itself is a function parameter. Only how its result enters the record is
  modelled.
- `MediaIoBaseDownload` is a sequence of step results. Chunk sizes and HTTP are left out.
- The exponential back-off waits of `tenacity` are left out because they are time.
  `reraise` is not set, so after the fifth failure the exception that escapes is
  tenacity's `RetryError`. The model only records that the call failed.
- Which exception propagates, and the Streamlit traceback display, are left out.
- The manifest file name (timestamped) and directory creation are left out. All records
  of one press go to one `ManifestFile`.
- `mkdir` and file I/O errors are left out. Paths are plain strings joined with `/`.
- The cheatsheet script (`scripts/generate_cheatsheet_pdf.py`) is not part of this model.
- pandas dtypes are left out. A row is its record and its `size_h` text.
- Utils.UnitIndex: computes `floor(log(num, 1024))` exactly. Python's floating-point
  `math.log` gives 5 for `1024**5 - 3` up to `1024**5 - 1`, so those sizes produce
  `'1.0PB'`, while the model gives `'1024.0TB'`. The same kind of rounding near other
  powers of 1024 is not modelled.
- Utils.HumanSizeTooLarge: from about `2**1024` on, `num / p` cannot convert `num`
  to a float, and from `1024**103` on `math.pow(1024, idx)` overflows; the source then
  raises `OverflowError`, while the model still reports the `IndexError`.
- Utils.RoundHalfEven: rounds the exact quotient. Python rounds the float quotient,
  whose binary value can fall on the other side of a tie.
- AppDownload.OverallProgress: is an exact floor of `idx * 100 / total`. The float
  expression `int(idx/total*100)` can be one less, for example 28 for 29 of 100.
- AppDownload.BarValue: progress values are exact reals. The float multiplication by
  100 is not modelled.
- Decimal.ParseInt: only an optional sign followed by ASCII digits is accepted. Python's
  `int()` also accepts surrounding whitespace, underscores between digits and
  non-ASCII decimal digits; the model treats those texts as a `ValueError`.
- InventoryLister.SizeOf: `int()` also accepts surrounding whitespace, underscores
  between digits and non-ASCII digits. These are not modelled, and such sizes end the
  listing here as a `ValueError` would.
- AppFilters.ToRfc3339: dates come from the date picker, so the model requires real
  calendar dates (years 1 to 9999) rather than modelling `datetime`'s `ValueError`.
- InventoryLister.ListFiles: the generator is modelled up to the point where it stops.
  The lazy interleaving with the caller's loop (`src/app.py:101-109`) is not modelled,
  since the caller only collects the records.
