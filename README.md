# cut_csv: a verified model of the CSV truncation script

`cut_csv.py` asks for a directory, optionally extracts the zip archives in it,
asks for an integer divisor, and goes through every top-level CSV file
(except `page_views.csv`). For each such file whose target is positive it writes
the rows the loop below keeps to `small/`, named `<base>_<divisor><ext>`.
Each file is read in chunks of 100000 rows. The target row count
`small_num_rows` is `floor(len(first chunk) / divisor)`. The loop keeps a chunk
whole while `len(chunks) * chunk_size < small_num_rows`. Otherwise it keeps that
chunk sliced to `small_num_rows - len(chunks) * chunk_size` and stops reading.
The result is written when the target is positive and something was kept.

This project models the decisions the script makes about names, answers and
rows:

- `text.dfy`, module `PyText`: the Python built-ins the script relies on.
  These are `str.endswith` and `str.strip()` (with Python's `isspace`
  character set), an ASCII `str.lower()` and `str.rfind`. Also `os.path.splitext`
  (POSIX rule: split at the last dot of the last path component, only if a
  non-dot character comes before it), `str(int)`, `math.floor(a / b)` as
  exact floor division (Dafny's `/` is Euclidean, which differs for negative
  divisors), and the Python prefix slice `s[:k]`, including negative stops.
- `truncate.dfy`, module `Truncate`: the per-file chunk loop. The method
  `TruncateFile` keeps the loop's shape: it builds the `chunks` list by
  appending, sets the target once from `None`, and leaves with `break`. It is
  proved equal to `FileSpec`, which does the same thing in closed form. The
  breaking iteration is `BreakAt(target)`, the first `i` with
  `i * chunk_size >= target`. The lemmas about `FileSpec` and `Kept` state
  what the script promises and what it actually does.
- `cut_csv.dfy`, module `CutCsv`: the listing filters, the yes/no test, the
  archive-member messages, the extraction and deletion decisions, and the
  outer loop over the CSV files (`ProcessAll`, proved equal to `Run`). A run stops at the first file that fails. Files
  written before that stay written.

Rows are an opaque type. A file's content is the sequence of chunks its
reader yields. The directory listing, the divisor, the typed answers and each
file's chunks are all inputs. Where the reader's guarantee matters (every chunk
holds at most 100000 rows and every chunk but the last holds exactly 100000),
it is the precondition `WellChunked`.

What the code does differs from what its comments at lines 72 and 76 say.
The comments describe keeping just enough rows to reach `small_num_rows`.
The code compares the number of kept chunks times the chunk size against the
target, and that product is 0 on the first chunk. So whenever the target is positive, the whole first chunk is
kept. A 30-row file with divisor 4 is written with all 30 rows. A 100000-row file
with divisor 4 is written with 100000 rows, not 25000, and a 200000-row file
with 125000 rows, also where 25000 are meant. This model follows the code: `Run` and `ProcessAll` use the loop as
written. The intended truncation is stated separately as `CorrectedKept` (see
Findings).

A second-chunk detail: the slice stop there is `target - 100000`, which is
never positive. When the target is exactly 100000 (divisor 1 with a full first
chunk), the stop is 0 and the second chunk adds no rows. Otherwise it adds
`max(0, len(c1) - (100000 - target))` rows. `PositiveTargetKeepsFirstChunk`
states this.

## Model

| member | source | states |
|---|---|---|
| `PyText.EndsWithIff` | cut_csv.py:21 | `s.endswith(x)` holds exactly when `s` is some string followed by `x` |
| `PyText.StripSplits` | cut_csv.py:24 | `strip()` returns a middle part of the input with only whitespace before and after it, and the result has no whitespace at either end |
| `PyText.StripUnique` | cut_csv.py:96 | conversely, whatever stands between two whitespace runs with non-whitespace ends is what `strip()` returns |
| `PyText.LastIndex` | cut_csv.py:84 | `rfind`: -1 or an index holding the character, with no occurrence after it |
| `PyText.SplitExtParts` | cut_csv.py:84 | base + extension is the name; a non-empty extension is one dot followed by no dot or slash, after a base whose last component has a character that is neither dot nor slash |
| `PyText.SplitExtUnique` | cut_csv.py:84 | conversely, a base whose last component has such a character, then a dot, then a dot- and slash-free rest, is split exactly at that dot |
| `PyText.SplitCsvName` | cut_csv.py:84 | a listed name `X.csv` whose `X` has a non-dot character splits into `X` and `.csv` |
| `PyText.DotsOnlyHaveNoExtension` | cut_csv.py:84 | a name of only dots followed by `.csv` (such as `.csv`) has no extension: `splitext` returns it whole with an empty extension |
| `PyText.DecimalRoundTrip` | cut_csv.py:85 | `str(divisor)` is an optional minus sign and digits, and reads back as the divisor |
| `PyText.NatDecimalRoundTrip` | cut_csv.py:85 | the decimal form of a natural number is non-empty, all digits, has no leading zero, and reads back as the number |
| `PyText.FloorDiv` | cut_csv.py:67 | `math.floor(a / b)`: `q*b <= a < q*b + b` for positive `b`, the mirrored bounds for negative `b` |
| `PyText.PrefixSlice` | cut_csv.py:78 | `s[:k]` is a prefix of `s` of length `min(k, len(s))` for `k >= 0`, and `max(0, len(s) + k)` for negative `k` |
| `Truncate.TargetFromFirstChunk` | cut_csv.py:65-67 | the target depends only on the first chunk, since later chunks never change it; it exists iff the divisor is non-zero; it is the floor of `len(c0) / divisor`, and never positive for a negative divisor |
| `Truncate.BreakAt` | cut_csv.py:73 | the breaking iteration `b` is the least index with `b * 100000 >= target` |
| `Truncate.TruncateFile` | cut_csv.py:60-90 | the loop's outcome is `FileSpec`; it reads `ChunksRead` chunks; its target is the first chunk's `Target`, set once and never changed |
| `Truncate.KeptPieces` | cut_csv.py:73-79 | one piece per chunk read; pieces before the break are their chunks whole, each kept because `i * 100000 < target`; the piece at the break is the chunk sliced to `target - i * 100000` |
| `Truncate.KeptIsPrefix` | cut_csv.py:64-83 | the concatenated kept rows are a prefix of the file's rows, in their original order |
| `Truncate.PositiveTargetKeepsFirstChunk` | cut_csv.py:65-79 | for well-chunked input, divisor >= 1 and a positive target: the first chunk is kept whole, at most two chunks are read, a one-chunk file is kept entirely, and a second chunk adds `len(c1) - (100000 - target)` rows when positive (none when the target equals 100000) |
| `Truncate.NonPositiveTargetStopsAtFirstChunk` | cut_csv.py:73-81 | a target <= 0 slices the first chunk, stops after one chunk and writes nothing |
| `Truncate.WrittenIff` | cut_csv.py:81-90 | a file is written iff it yields a chunk, the divisor is non-zero and the target is positive; a written file has divisor >= 1, the derived name, and a prefix of the file's rows |
| `Truncate.FailureIff` | cut_csv.py:67-81 | divisor 0 fails at the target computation iff a chunk arrives; a file with no chunk fails at the write test |
| `Truncate.KeptNonEmpty` | cut_csv.py:81 | with at least one chunk something is kept, so the `chunks` half of the write test never decides anything |
| `Truncate.UnreadChunksIrrelevant` | cut_csv.py:64-79 | chunks after the breaking one are never read: replacing them changes nothing |
| `Truncate.CsvOutputName` | cut_csv.py:84-85 | a listed `X.csv` whose `X` has no slash and a non-dot character is written as `X_<str(divisor)>.csv` |
| `Truncate.SmallFileKeptWhole` | cut_csv.py:65-85 | a 30-row `a.csv` with divisor 4 is written as `a_4.csv` with all 30 rows |
| `Truncate.FullChunksDivisorFour` | cut_csv.py:64-83 | a full 100000-row first chunk with divisor 4 is written with 100000 rows; with a second full chunk, 125000 |
| `Truncate.CorrectedKeepsTarget` | cut_csv.py:76-78 | the corrected truncation keeps exactly the first `need` rows of the file (all of them when it is shorter) |
| `Truncate.CorrectedRowCount` | cut_csv.py:72-78 | with divisor >= 1 the corrected truncation keeps exactly `floor(len(first chunk) / divisor)` rows |
| `Truncate.AsWrittenOverKeeps` | cut_csv.py:72-79 | on the 30-row file with divisor 4, the loop as written keeps 30 rows and the corrected one keeps 7 |
| `CutCsv.FilterKeeps` | cut_csv.py:54 | a list comprehension keeps every passing element as often as it occurs, and nothing else |
| `CutCsv.FilterAppend` | cut_csv.py:54 | a list comprehension distributes over concatenation, so order is kept |
| `CutCsv.CsvSourcesAre` | cut_csv.py:54 | sources are exactly the listed names ending `.csv` other than `page_views.csv`, with their multiplicities, in listing order |
| `CutCsv.ZipFilesAre` | cut_csv.py:21 | archives are exactly the listed names ending `.zip`, with their multiplicities, in listing order |
| `CutCsv.LowerIsYes` | cut_csv.py:26 | a string lower-cases to `yes` iff it is `yes` in some mix of cases |
| `CutCsv.ConfirmIff` | cut_csv.py:24-26 | an answer confirms iff it is `yes` in any case, with only whitespace around it |
| `CutCsv.ExtractionIff` | cut_csv.py:23-31 | either all archives are extracted or none; all are iff there are archives and the answer is a padded `yes` |
| `CutCsv.DeletionIff` | cut_csv.py:94-102 | either all archives are deleted or none; all are iff there are archives, the truncation stage finished without failure (every source yielded a chunk and, if there is a source, the divisor is non-zero), and the answer is a padded `yes` |
| `CutCsv.Announce` | cut_csv.py:34-39 | one note per archive member, in order, saying "will be processed" iff the member name ends `.csv` |
| `CutCsv.ReservedAnnouncedButNotProcessed` | cut_csv.py:35-39 | a member named `page_views.csv` is announced as processed, yet no listing makes it a source |
| `CutCsv.ProcessAll` | cut_csv.py:57-92 | the outer loop over the sources gives `Run`: files in listing order, stopping at the first failure |
| `CutCsv.RunWritesDerivedFiles` | cut_csv.py:81-87 | every written file comes from a source, has divisor >= 1, carries `OutputName(source, divisor)`, and holds a prefix of that source's rows |
| `CutCsv.NonPositiveDivisorWritesNothing` | cut_csv.py:67-81 | a divisor of 0 or below writes no file |
| `CutCsv.RunFailsIff` | cut_csv.py:64-81 | the run fails iff some source yields no chunk, or the divisor is 0 and there is at least one source |

## Left out

- Console prompts, messages and `tqdm` progress bars (lines 13, 17, 24, 27, 31, 37, 39, 41, 48, 50-51, 57, 68-70, 88, 90, 92, 96, 102, 104) are interactive I/O. The typed answers are inputs. Only the yes/no test and the content of the per-member messages are modelled.
- Filesystem effects are left out: the `isdir` check with `exit(1)`, `listdir`, `makedirs`, `remove` and the path joins (lines 16-18, 21, 28, 44-45, 54, 58, 86, 99-101). Listings are input sequences.
- `zipfile` extraction (lines 29-30) is a foreign library. It extracts every member whatever its name. The extracted CSV files enter the model through the listing taken at line 54, which is an input. The member list it reports is an input to `Announce`.
- Pandas reading, chunking, concatenation of DataFrames and `to_csv` serialisation (lines 64, 83, 87) are left out. Rows are opaque, a DataFrame is a sequence of rows, and the reader's chunk-size guarantee is the precondition `WellChunked`.
- The `int()` parsing of the divisor (line 48) is left out. The divisor is an `int` input. A non-integer answer is fatal before the truncation stage, after the unzip prompt and the member notes.
- `PyText.FloorDiv`: the division at line 67 is floating-point, and the model uses exact floor division. For row counts of at most 100000 the two agree unless the quotient underflows. That happens for a negative divisor whose magnitude exceeds the row count by a factor of about 4·10^323: Python's quotient is then `-0.0` and its floor is 0, while `FloorDiv` gives -1. The target is non-positive either way, so the file is skipped in both. Only the returned target value of `TruncateFile` differs.
- `PyText.Lower` folds only ASCII letters. Python's `lower()` also folds non-ASCII letters. That cannot change the outcome of comparing with `yes`, because no non-ASCII character lower-cases to `y`, `e` or `s`.
- `PyText.SplitExt` models the POSIX rule only. The Windows separators of `ntpath` are not modelled.

## Findings

| source | as written | input that shows it | evidently intended | confidence | as-written member | corrected member |
|---|---|---|---|---|---|---|
| cut_csv.py:73 | `len(chunks) * chunk_size < small_num_rows` counts kept chunks, not kept rows. It is 0 on the first chunk, so a positive target always keeps the whole first chunk | a single chunk of 30 rows with divisor 4: target 7, written rows 30 | keep exactly `small_num_rows` rows (the comments at lines 72 and 76 say "until we have enough rows" and "just enough rows") | high; not executed | `Truncate.AsWrittenOverKeeps` | `Truncate.CorrectedKeepsTarget` |

The script's model (`Run`, `ProcessAll`, `FileSpec`) keeps the code as
written. `CorrectedKept` is the intended truncation. It keeps whole chunks
while they fit under the target, then the prefix of the next chunk that
completes it. `CorrectedKeepsTarget` and `CorrectedRowCount` prove it
writes exactly the target number of rows.
