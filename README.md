# MERGE hourly precipitation: download, monthly merge and station headers

This project is a Dafny model of three scripts from a study of the rainfall
over a river basin:

- `MERGE/baixa_merge.py` downloads CPTEC's MERGE/GPM hourly precipitation grids.
  - It enumerates every hour from 2019-08-13 to 2023-12-31 with pandas.
  - It names each hour's GRIB2 file `MERGE_CPTEC_YYYYMMDDHH.grib2` and builds the request URL `…/HOURLY/YYYY/MM/DD/<file>`.
  - It runs one task per hour. Status 200 stores the body under `MERGE/horario/<file>` and prints `<file> [ok]`. Any other status prints a notice and the URL.
- `MERGE/merge.py` merges the hourly files into one daily file per month.
  - It lists `MERGE_CPTEC_*.grib2` in sorted name order and reads each file's UTC hour back from its name.
  - It groups the files by (year, month) with `setdefault(...).append(...)` and visits the months in ascending order.
  - It skips the files that fail to open, and skips a month none of whose files opens.
  - It shifts the remaining hours by −3 h to Brasília time and names the month's output `prec_diaria_brasilia_{ano}_{mes:02d}.nc`.
- `chuva_obs_inmet/filtra_bacia.py`, function `extrair_lat_lon`, reads an INMET station file's header.
  - It reads the first eight lines, each stripped.
  - Each line with a `;` is split at its first `;` into a stripped key and a stripped value. A later line replaces an earlier one with the same key.
  - It looks up `LATITUDE:`, `LONGITUDE:` and `CODIGO (WMO):`, with `"nan"` as the default, and turns a decimal comma into a point in the two coordinates.

## Modules

| module | file | what it holds |
|---|---|---|
| `Wrappers` | wrappers.dfy | `Option` and `Collect`, a map over a sequence that stops at the first failure. |
| `Calendar` | calendar.dfy | Proleptic Gregorian days and hour numbers, `NextHour`, and `ToBrasilia` (−3 h). |
| `Decimal` | decimal.dfy | `str()` of integers, zero-padded fields, digit parsing, Python's string order. |
| `Sorting` | sorting.dfy | `sorted()` as insertion sort, with the proof that a strict total order has only one sorted permutation, so it agrees with Python's merge sort. |
| `Grouping` | grouping.dfy | The `setdefault/append` grouping and an order-preserving filter. |
| `BaixaMerge` | baixa_merge.dfy | The downloader: range, names, one task, and the batch. |
| `Merge` | merge.dfy | The monthly merge script. |
| `StationHeader` | station_header.dfy | `extrair_lat_lon` up to the `float()` calls. |

Files, the network and the GRIB decoder are parameters:

- A directory listing is a `seq<string>`.
- The set of files that fail to open is a `set<string>`.
- The server's replies are a `seq<Response>`, one per hour.
- The local file system is a `map<string, seq<bv8>>`.
- A station file is the sequence of lines its iterator yields.

### Behaviour to note

- **Exceptions from the request.** `obter_merge` catches nothing. An exception from `cliente.get` (connection failure, timeout; `baixa_merge.py:33`) leaves `obter_merge`. `asyncio.gather` (line 51) propagates it, so `asyncio.run` cancels the remaining tasks and the batch ends. The model does the same:
  - `ObterMerge` returns no report for a `TransportError`.
  - `DownloadAll` stops at the first one (`FirstRaised`).
  - Only non-200 statuses are reported per file.
- **The last hour.** `pd.date_range(start="2019-08-13", end="2023-12-31", freq="H")` reads a bare date as its midnight. The range therefore ends at 2023-12-31 00:00, not at 23:00 of that day (`DateRangeShape`, `ArchiveRange`).

## Model

| member | source | states |
|---|---|---|
| BaixaMerge.HourlyRange | MERGE/baixa_merge.py:15 | The hourly range holds one element per hour from start to end inclusive, none when end is before start. Element i is a valid hour exactly i hours after start. |
| BaixaMerge.DateRange | MERGE/baixa_merge.py:12-15 | `pd.date_range` of two bare dates at hourly frequency: the hourly range from the start date's midnight to the end date's midnight. Its shape is stated by `DateRangeShape`. |
| Calendar.NextHour | MERGE/baixa_merge.py:15 | The step of `freq="H"`: the next hour is a valid hour exactly one hour later, rolling over days, months and years. |
| BaixaMerge.DateRangeShape | MERGE/baixa_merge.py:12-15 | The range of two dates runs from the first date's midnight to the last date's midnight. It has 24 hours per day between them plus one, steps by exactly one hour, and is strictly increasing. |
| BaixaMerge.ArchiveRange | MERGE/baixa_merge.py:12-15 | The configured run has 38425 hours, from 2019-08-13 00:00 to 2023-12-31 00:00. |
| BaixaMerge.Stamp | MERGE/baixa_merge.py:28 | `{data.year}` as `str()` writes it, then `%m`, `%d` and `%H` as two digits each. Its layout is stated by `FileNameLayout`. |
| BaixaMerge.FileName | MERGE/baixa_merge.py:28 | `MERGE_CPTEC_`, the stamp, then `.grib2`. Its layout, injectivity and order are stated by `FileNameLayout`, `FileNameInjective` and `FileNameOrder`. |
| BaixaMerge.RequestUrl | MERGE/baixa_merge.py:29-31 | The base URL, then year, two-digit month and two-digit day as path segments, then the file name. `RequestUrlSegments` ties the segments to the name. |
| BaixaMerge.LocalPath | MERGE/baixa_merge.py:38 | `Path(diretorio, arquivo)`: the directory `MERGE/horario`, a separator, then the file name. `PathsDistinct` states that distinct hours get distinct paths. |
| BaixaMerge.FileNameLayout | MERGE/baixa_merge.py:28 | For a four-digit year the name is 28 characters: `MERGE_CPTEC_`, ten digits that read back as year, month, day and hour, then `.grib2`. |
| BaixaMerge.FileNameInjective | MERGE/baixa_merge.py:28 | Two hours with the same file name are the same hour, for any year. |
| BaixaMerge.StampOrder | MERGE/baixa_merge.py:28 | With four-digit years, one stamp is below another in string order exactly when its hour is earlier. |
| BaixaMerge.FileNameOrder | MERGE/baixa_merge.py:28 | With four-digit years, comparing file names as strings is comparing their hours. |
| BaixaMerge.RequestUrlSegments | MERGE/baixa_merge.py:29-31 | The URL is the base, then the year, month and day the file name carries at positions 12-16, 16-18 and 18-20, then the file name. |
| BaixaMerge.ObterMerge | MERGE/baixa_merge.py:17-47 | A reply that raised leaves the files unchanged and yields no report. A completed reply has the effect and the report that `TaskMeaning` describes. |
| BaixaMerge.Store | MERGE/baixa_merge.py:36-41 | A reply with status 200 writes its body at the path, replacing what was there; any other reply leaves the files as they were. `TaskMeaning` spells this out. |
| BaixaMerge.AfterTask | MERGE/baixa_merge.py:36-41 | One completed task stores its reply at the local path of its own file name. |
| BaixaMerge.TaskReport | MERGE/baixa_merge.py:36-47 | Status 200 reports the file saved; any other status reports the file and the URL it tried. |
| BaixaMerge.ReportLines | MERGE/baixa_merge.py:43-47 | The lines a report prints: `<file> [ok]`, or the notice naming the file followed by the URL. |
| BaixaMerge.ReportLinesMeaning | MERGE/baixa_merge.py:43-47 | A finished task prints one line after status 200 and two otherwise. The first line names the task's file. It carries the `[ok]` mark exactly when the status was 200. After any other status the second line is the URL tried, and it has no mark. |
| BaixaMerge.TaskMeaning | MERGE/baixa_merge.py:36-47 | Status 200 writes the body under `MERGE/horario/<file>`, replacing an earlier file, and reports `[ok]`. Any other status writes nothing and reports the file with the URL. |
| BaixaMerge.DownloadAll | MERGE/baixa_merge.py:49-51 | The batch ends after the tasks before the first reply that raised; it completes when none raised. The files are those tasks' writes in order, and there is one report per task, naming its file. A report is `[ok]` exactly when the status was 200, and otherwise carries the URL. |
| BaixaMerge.RunTasks | MERGE/baixa_merge.py:49-51 | The loop takes the tasks in order up to the first reply that raised, and completes exactly when none raised. The files are those tasks' writes applied in order, and the reports are those tasks' reports. |
| BaixaMerge.ReportsMeaning | MERGE/baixa_merge.py:43-47 | The reports of the first k tasks name each task's file, say `[ok]` exactly for status 200, and otherwise carry the task's URL. |
| BaixaMerge.WrittenOverlay | MERGE/baixa_merge.py:36-41 | Running the tasks overlays the files they write on the files that were there before. |
| BaixaMerge.WritesKeys | MERGE/baixa_merge.py:36-41 | A path is written exactly when some task with status 200 stores at that path. |
| BaixaMerge.WritesContent | MERGE/baixa_merge.py:36-41 | When tasks store at distinct paths, the path of each task with status 200 holds exactly that reply's body. |
| BaixaMerge.PathsDistinct | MERGE/baixa_merge.py:28-38 | Distinct hours get distinct local paths `MERGE/horario/<file>`. |
| BaixaMerge.DownloadedContent | MERGE/baixa_merge.py:36-41 | After the batch over distinct hours, each hour fetched with status 200 has its file, holding exactly its own reply's body. |
| BaixaMerge.WrittenElsewhereUnchanged | MERGE/baixa_merge.py:36-41 | A path where no task with status 200 stores keeps its presence and content. |
| BaixaMerge.RerunIdempotent | MERGE/baixa_merge.py:40-41 | Running the same tasks with the same replies again leaves the files as the first run left them. |
| BaixaMerge.OneHourScenario | MERGE/baixa_merge.py:28-43 | A one-hour run at 2020-01-01 00:00 answered with 200 stores the body exactly under `MERGE/horario/MERGE_CPTEC_2020010100.grib2` and reports that file saved. |
| Merge.LastFieldSpec | MERGE/merge.py:13 | `split("_")[-1]` has no underscore and is a suffix of the string. It is either the whole string or starts right after an underscore, so it is everything after the last `_`. It is the whole string exactly when the string has no `_`. |
| Merge.Stem | MERGE/merge.py:12 | `Path.stem`: the name without its last suffix, a prefix of the name. A dot at the start or the end of the name does not start a suffix. |
| Merge.LastField | MERGE/merge.py:13 | `split("_")[-1]`: the text after the last underscore, or the whole text when there is none. `LastFieldSpec` pins it down. |
| Merge.ParseStamp | MERGE/merge.py:13 | `pd.to_datetime(..., format="%Y%m%d%H")` on ten digits: an hour only for a real date, an hour of 0-23, and an instant pandas can hold. Whatever it returns is a valid hour in that range. |
| Merge.InPandasRange | MERGE/merge.py:13 | The whole hours a pandas `Timestamp` can hold, 1677-09-21 01:00 to 2262-04-11 23:00; `pd.to_datetime` raises outside them. |
| Merge.ExtractDataUtc | MERGE/merge.py:10-13 | The hour read from the last `_` field of the stem. Whatever it returns is a valid hour in the pandas range; `ExtractRoundTrip` and `ExtractInverse` make it the inverse of `FileName`. |
| Merge.ParseStampPrints | MERGE/merge.py:13 | Whatever the `%Y%m%d%H` parse accepts is ten characters, and the hour it yields prints back as exactly that text. |
| Merge.ParseStampOfStamp | MERGE/merge.py:13 | Every hour in pandas' range parses back from its ten-digit stamp. |
| Merge.ExtractRoundTrip | MERGE/merge.py:10-13 | Reading the hour from the name the downloader gives an hour yields that hour. |
| Merge.ExtractInverse | MERGE/merge.py:10-13 | A 28-character name matching the pattern, from which an hour can be read, is the downloader's name for that hour. |
| Merge.FileNameMatches | MERGE/merge.py:20 | Every name the downloader writes matches `MERGE_CPTEC_*.grib2`. |
| Merge.MatchesPattern | MERGE/merge.py:20 | The glob `MERGE_CPTEC_*.grib2`: the name starts with `MERGE_CPTEC_`, ends with `.grib2`, and the two do not overlap. |
| Decimal.StrLess | MERGE/merge.py:20 | Python's `<` on `str`, which `sorted()` uses on names in one directory: code-point lexicographic order, a proper prefix first. `StrLessOrder` makes it a strict total order. |
| Merge.Matching | MERGE/merge.py:20 | A name is among the matches exactly when the listing holds it and it matches the pattern. |
| Merge.ListMergeFiles | MERGE/merge.py:20 | `sorted(pasta.glob("MERGE_CPTEC_*.grib2"))`: the matching names of the listing in ascending string order. `ListMergeFilesSpec` states this. |
| Merge.ListMergeFilesSpec | MERGE/merge.py:20 | The list is in ascending string order. It holds each matching name as often as the listing does, and nothing else. |
| Merge.ListingOrderIrrelevant | MERGE/merge.py:20 | Two listings with the same names, in any order, give the same list. |
| Merge.ListChronological | MERGE/merge.py:20 | In the sorted list, of two 28-character names that parse, the earlier one holds an earlier or equal hour. |
| Merge.ListingParses | MERGE/merge.py:20-24 | Reading the hours of the listed files fails exactly when some matching name of the listing cannot be read as an hour. |
| Sorting.SortSorted | MERGE/merge.py:20 | `sorted()` returns a sorted permutation of its input. |
| Sorting.SortedUnique | MERGE/merge.py:20 | Two sorted permutations of the same elements under a strict total order are equal, so any correct sort gives the same list. |
| Merge.GroupByMonth | MERGE/merge.py:22-26 | It fails exactly when some file's hour cannot be read. Otherwise the dictionary maps each (year, month) to its files in list order, and its keys are distinct and exactly the dictionary's keys. |
| Merge.IndexStep | MERGE/merge.py:26 | `setdefault(chave, []).append(...)` on one more entry keeps the dictionary equal to the grouping of all entries so far. It adds the key on first sight only. |
| Grouping.GroupByBuckets | MERGE/merge.py:22-26 | Every entry's month is a key. Each key's list is exactly the entries of that month in their original order, and it is never empty. |
| Merge.EveryFileOnce | MERGE/merge.py:22-34 | The month lists, in ascending month order, put end to end, are a rearrangement of all files; their lengths add up to the number of files. |
| Merge.SortedMonths | MERGE/merge.py:34 | `sorted(arquivos_por_mes.items())`: the dictionary's months in ascending (year, month) order. `SortedMonthsSpec` states this. |
| Merge.MonthLess | MERGE/merge.py:34 | The `(year, month)` tuple order of `sorted(arquivos_por_mes.items())`: year first, then month. |
| Merge.SortedMonthsSpec | MERGE/merge.py:34 | The months are visited in strictly ascending (year, month) order, and exactly the dictionary's keys are visited. |
| Merge.SortedMonthsUnique | MERGE/merge.py:34 | Any sorted arrangement of the keys, Python's `sorted()` included, is the visiting order. |
| Merge.OpenMonth | MERGE/merge.py:39-47 | The inner loop keeps exactly the month's files that open, in order. |
| Merge.Monthly | MERGE/merge.py:34-61 | The outputs of a list of months, in that order: nothing for a month none of whose files opens, otherwise its named file with the shifted hours of the files that open. `MonthlyCovers`, `MonthlyFiles` and `MonthlyAscending` state its properties. |
| Merge.ProcessMonths | MERGE/merge.py:34-61 | The outer loop produces one output per sorted month with at least one file that opens, in that order. |
| Merge.MonthlyStep | MERGE/merge.py:49-51 | One more month adds its output file, or nothing when none of its files opens. |
| Merge.MonthlyCovers | MERGE/merge.py:49-51 | A month has an output file exactly when it is visited, has a list, and at least one of its files opens. |
| Merge.MonthlyFiles | MERGE/merge.py:54-61 | Each output file is named after its own month. It holds one shifted hour per file of that month that opened, in order, and at least one. |
| Merge.MonthlyAscending | MERGE/merge.py:34-61 | Output files come in strictly ascending month order, and no two share a name. |
| Merge.ReadableFileKept | MERGE/merge.py:39-51 | The month of every listed file that opens gets an output file. |
| Calendar.ToBrasilia | MERGE/merge.py:56 | The shifted hour is exactly three hours earlier. From 03 h on it is the same day; before 03 h it is the previous day, at hour +21. |
| Merge.BrasiliaHours | MERGE/merge.py:56 | One shifted hour per file, in order, each three hours before the file's UTC hour. |
| Merge.BrasiliaMonth | MERGE/merge.py:56 | Hours 00-02 UTC on the 1st of a month move to 21-23 h on the last day of the previous month; in January that is December of the previous year. Every other hour stays in its own month. |
| Merge.ShiftedMonth | MERGE/merge.py:56 | An hour three hours before an hour of some month lies in that month, or at 21-23 h on the last day of the month before. |
| Merge.MonthlyHours | MERGE/merge.py:54-58 | Every hour in a month's output lies in that month, or at 21-23 h on the last day of the previous month. |
| Merge.Format02 | MERGE/merge.py:61 | `f"{mes:02d}"`: at least two characters, all digits. |
| Merge.OutputName | MERGE/merge.py:61 | `prec_diaria_brasilia_{ano}_{mes:02d}.nc`. `OutputNameInjective` states that distinct months get distinct names. |
| Merge.Format02Month | MERGE/merge.py:61 | `{mes:02d}` writes a month as its two-digit field. |
| Merge.OutputNameInjective | MERGE/merge.py:61 | Different months never share an output name. |
| Merge.MergeArchive | MERGE/merge.py:20-63 | The script fails exactly when a matching listed name cannot be read as an hour. Otherwise its outputs are exactly `Monthly` over the sorted months of the dictionary the grouping loop built. They come in strictly ascending month order with distinct names, each named after its month and holding at least one hour. Every hour of an output is the Brasilia hour of a listed file of that month that opens. Every listed file that opens has its Brasilia hour in its month's output. An empty listing gives no output. |
| StationHeader.IsSpace | chuva_obs_inmet/filtra_bacia.py:24 | `str.isspace()`, the set of characters `strip()` removes at lines 24 and 31. |
| StationHeader.Strip | chuva_obs_inmet/filtra_bacia.py:24 | `str.strip()`: the line without its leading and trailing whitespace, never longer than the line. `StripSpec` states exactly what it removes. |
| StationHeader.StripSpec | chuva_obs_inmet/filtra_bacia.py:24 | `strip()` keeps a slice of the line and removes only whitespace before and after it. The result neither starts nor ends with whitespace. |
| StationHeader.StripIdempotent | chuva_obs_inmet/filtra_bacia.py:31 | Stripping an already stripped string changes nothing. |
| StationHeader.StripEmpty | chuva_obs_inmet/filtra_bacia.py:24 | A line strips to nothing exactly when it is all whitespace. |
| StationHeader.SplitOnce | chuva_obs_inmet/filtra_bacia.py:30 | `split(";", 1)` gives a key without `;` and a value that, joined with `;`, rebuild the line. |
| StationHeader.SplitOnceUnique | chuva_obs_inmet/filtra_bacia.py:30 | Any key without `;` that, joined with `;` to some value, rebuilds the line is the split's key, and that value is its value. |
| StationHeader.Metadata | chuva_obs_inmet/filtra_bacia.py:26-31 | The `metadados` dictionary: each line with a `;` sets its stripped key to its stripped value, in line order, and a line without one is skipped. `MetadataKeys`, `MetadataLastWins` and `MetadataSkipsPlainLines` state its properties. |
| StationHeader.MetadataKeys | chuva_obs_inmet/filtra_bacia.py:26-31 | A key is in the dictionary exactly when some line with a `;` has that stripped key. |
| StationHeader.MetadataLastWins | chuva_obs_inmet/filtra_bacia.py:28-31 | The last line with a given key sets its value. |
| StationHeader.MetadataSkipsPlainLines | chuva_obs_inmet/filtra_bacia.py:28-29 | A line without `;` changes nothing, wherever it stands. |
| StationHeader.Get | chuva_obs_inmet/filtra_bacia.py:33-35 | `dict.get(key, "nan")`: the value under the key when present, the default otherwise. |
| StationHeader.DecimalPoint | chuva_obs_inmet/filtra_bacia.py:33-34 | `replace(",", ".")` keeps the length and turns each comma into a point, keeping every other character. |
| StationHeader.DecimalPointSpec | chuva_obs_inmet/filtra_bacia.py:33-34 | No comma is left, and a string without one is unchanged. |
| StationHeader.HeaderOf | chuva_obs_inmet/filtra_bacia.py:22-47 | None for a file of fewer than eight lines. Otherwise the three looked-up values of the first eight stripped lines, with `"nan"` as the default and a decimal point in the two coordinates. |
| StationHeader.ExtrairLatLon | chuva_obs_inmet/filtra_bacia.py:22-35 | The two loops compute the header: None with fewer than eight lines, otherwise the three values read from the first eight stripped lines. |
| StationHeader.HeaderNeedsEightLines | chuva_obs_inmet/filtra_bacia.py:22-47 | The function yields nothing exactly when the file has fewer than eight lines; the `StopIteration` is caught. |
| StationHeader.HeaderReadsEightLines | chuva_obs_inmet/filtra_bacia.py:24 | Lines after the eighth never change the result. |
| StationHeader.HeaderValues | chuva_obs_inmet/filtra_bacia.py:33-35 | The coordinates never keep a comma. A key that no header line has gives `"nan"`. |
| StationHeader.HeaderCode | chuva_obs_inmet/filtra_bacia.py:35 | The WMO code is the stripped value of the last header line whose key is `CODIGO (WMO):`. |

## Left out

- BaixaMerge.DownloadAll: the tasks run one after another in list order. The code's concurrency is not modelled, for the reasons below.
  - `Semaphore(7)` admits seven requests at a time.
  - `asyncio.sleep(2)` paces the requests.
  - `gather` interleaves the tasks, and the tasks still running when one raises are cancelled.
  - Under concurrency, a raise can leave other tasks partly done. The sequential model assumes the tasks before it finished and none after it started.
- The HTTP client and the 30-second timeout are not modelled; replies are a parameter. Writing to the console is not modelled either: each task's printed lines are given as the value `ReportLines` of its `Report`.
- `mkdir` and file writes that fail are not modelled, since the code does not handle them.
- Merge.ExtractDataUtc: it accepts exactly ten ASCII digits after the last `_` of the stem. pandas' `%Y%m%d%H` parser also accepts some shorter or otherwise irregular forms, so for such names the model reports "cannot be read" where pandas might not. The downloader only writes ten-digit stamps (`FileNameLayout`), so this only matters for foreign files in the directory.
- BaixaMerge.DateRange: it returns hours for any valid dates. For dates outside pandas' `Timestamp` range, `pd.date_range` raises `OutOfBoundsDatetime` instead. The script only passes 2019-08-13 and 2023-12-31, which are inside it (`ArchiveRange`).
- pandas' `Timestamp` range is modelled as whole hours from 1677-09-21 01:00 to 2262-04-11 23:00 (`InPandasRange`), and an hour outside it does not parse. Nanosecond limits are not modelled.
- Opening a GRIB2 file with xarray/cfgrib is not modelled; the set of files that fail to open is a parameter. `ds[["prec"]]`, `expand_dims`, `concat`, the NetCDF writing and the values of the grids are not modelled either. An output file is modelled by its name and the shifted hours it holds.
- Merge.MonthlyFiles: `resample(time="1D").sum()` is not modelled. The contract states which hours a month's file holds, not the daily sums or the empty days between them. Those are floating-point grid operations.
- The `print`/`tqdm` messages of `merge.py` are not modelled.
- StationHeader.ExtrairLatLon: the model stops before `float()`. A value that `float()` rejects raises `ValueError`, which the code catches, so the function then returns `None`. The model instead returns the string that would have been converted. Floating-point conversion is not modelled.
- Failure to open the station file (missing file, permission) is not modelled; it is I/O. The file is given as its lines, already decoded from Latin-1.
- `filtrar_postos_da_bacia` and the rest of `filtra_bacia.py` (geopandas, shapely) are not modelled. They are geometry over floating-point coordinates.
- Python's `str.isspace` is modelled over its full code-point list; Latin-1 input only ever hits the part below 0x100.
