# Movie-Aggregator: a Dafny model of the crawl's deterministic core

Movie-Aggregator scans a folder of video files, derives a probable movie
title from each file name, looks every title up on IMDb in a browser,
stores what it finds in a per-movie `data.json` record, downloads the
cover image and moves the video into a folder named after the movie.
Everything in `main.py` that talks to the browser, the network, the clock
or the thread pool is left out; this project models the parts that are
plain computation over state:

- `movie_name.dfy` (module `MovieName`): `get_movie_name`, with the pieces of
  Python's library it uses, `str.find` for `' - ' in name` and
  `name.split(' - ', 1)`, and `os.path.splitext`.
- `record_store.dfy` (module `RecordStore`): class `Json`, a dictionary
  whose every assignment rewrites its whole backing file. The file layer is
  a `FileSystem` object holding a map from path to stored document.
- `crawl_report.dfy` (module `CrawlReport`): the `FILES`/`TITLES`/`NAMES`
  bookkeeping. `TITLES` is derived from the listing and `NAMES` starts as a
  copy of it. Each crawl writes its resolved name at `TITLES.index(title)`
  and relocates `FILES` at that index. There is a class for the in-place
  update, and a fold over the crawls' slot writes, in any order, for the
  aggregate report.
- `cover_download.dfy` (module `CoverDownload`): how `download` classifies a
  request, and the `while not self.download(...)` retry loop. The loop runs
  over a sequence of attempt outcomes, one per request.
- `wrappers.dfy` (module `Wrappers`): `Option`, standing for Python's `None`
  and for an operation that raises.

Facts about `main.py` that the model keeps:
- `download` returns the number of bytes written, or `None`. It does not
  return a boolean.
- The retry loop goes round on any non-200 status, on an SSL error and on
  an empty 200 body. Any other exception ends the loop and the crawl.
- A crawl writes its slot of `NAMES` (main.py:152-153) before it reads the
  genres, rating, year and cover. A crawl that raises in those later steps
  has already written its resolved name. A slot keeps its derived title
  exactly when no crawl whose title first occurs at that slot reaches that
  write. When no other file derives the same title, that means its own
  crawl raised at or before the folder creation (main.py:138-150). When two files derive the same title, both
  crawls write the first of the two slots, and the second slot always keeps
  its derived title. A `Crawl` of the model is a crawl that got as far as that write.

Path handling follows the Windows path library (`ntpath`), on which the
program runs: both `\` and `/` separate path components. The names of a
folder listing contain neither, so only a name with a backslash on a POSIX
system would be split differently.

## Model

| member | source | states |
|---|---|---|
| `MovieName.Find` | main.py:187-188 | the result is the first index where `" - "` occurs, or -1 when it occurs nowhere (`in` and `split(sep, 1)`) |
| `MovieName.RFind` | main.py:189 | the last index of a character, or -1 when it does not occur (the dot and separator search of `splitext`) |
| `MovieName.LastSeparator` | main.py:189 | the index of the last `\` or `/`, with no separator after it |
| `MovieName.SplitExtRoot` | main.py:189 | `splitext(p)[0]` is `p` cut at `d` exactly when `d` is the last dot, no separator follows it, and a non-dot character of the last component precedes it; otherwise it is `p` unchanged |
| `MovieName.GetMovieName` | main.py:186-189 | the title is a prefix of the file name and never contains `" - "` |
| `MovieName.TitleBeforeSeparator` | main.py:187-188 | a name with `" - "` gives the text before its first occurrence |
| `MovieName.TitleWithoutSeparator` | main.py:189 | a name without `" - "` gives `splitext(name)[0]` |
| `MovieName.TitleOfSeparatedName` | main.py:186-188 | `"Heat - 1995.mkv"`-shaped names give the part before `" - "` |
| `MovieName.TitleOfFileWithExtension` | main.py:189 | `"Inception.mkv"`-shaped names lose the extension |
| `MovieName.TitleOfDotFile` | main.py:189 | `".hidden"`-shaped names come back unchanged: a leading dot starts no extension |
| `RecordStore.Destination` | main.py:39-43 | an explicit path is used unless it is `None` or empty; the store's own path is used then, and the target is never empty |
| `RecordStore.AssignAll` | main.py:35-37 | the reference definition of `adds`: the old keys stay, every assigned key is present, and the last key assigned holds the last value |
| `RecordStore.AssignAllKeys` | main.py:35-37 | after `adds`, the keys are the old keys plus the assigned ones |
| `RecordStore.AssignAllUnassigned` | main.py:35-37 | after `adds`, a key that was not assigned keeps its value |
| `RecordStore.AssignAllLastWins` | main.py:35-37 | after `adds`, an assigned key holds the value of its last assignment: later duplicate keys win |
| `RecordStore.Json.constructor` | main.py:23-30 | the data starts empty; with `create_template` the file at `path` holds the empty mapping and no other file changes; without it no file is written |
| `RecordStore.Json.Dump` | main.py:39-48 | the file at the target path holds `data`, every other file and `data` itself are unchanged |
| `RecordStore.Json.Load` | main.py:42-53 | `data` becomes the stored document at the target path; a missing file changes nothing and is reported |
| `RecordStore.Json.Set` | main.py:55-57 | `data` is the old data with only `key` remapped; the file at `path` equals the new data; other files are unchanged |
| `RecordStore.Json.Add` | main.py:32-33 | the same as `Set` |
| `RecordStore.Json.Adds` | main.py:35-37 | `data` is the result of the in-order assignments up to `min(len(keys), len(values))`; the file at `path` equals `data` whenever an assignment happened; fewer values than keys is reported as the `IndexError` |
| `RecordStore.DumpThenLoad` | main.py:39-43 | `dump(p)` followed by `load(p)` leaves `data` unchanged |
| `CrawlReport.IndexOf` | main.py:152 | `TITLES.index(title)` is the first index holding `title`, and it is missing exactly when `title` is not in the list |
| `CrawlReport.DeriveTitles` | main.py:208-209 | one title per listed file, each `get_movie_name` of the file at the same index |
| `CrawlReport.Resolved` | main.py:152-153 | one crawl writes its name into the first slot whose title equals its own; every other slot keeps its entry; a title not in the list changes nothing |
| `CrawlReport.FileFor` | main.py:154 | the file a crawl relocates is `FILES` at the first index whose title equals its own, and there is none when the title is not in the list |
| `CrawlReport.ResolveAll` | main.py:152-153 | the report after crawls write their slots in a given order keeps the length of `TITLES` |
| `CrawlReport.ResolveAllUntouched` | main.py:209-210 | a slot that no crawl reaching the `NAMES` write targets keeps its entry, in any order; so, provided no other file derives the same title, the slot of a job that raised at or before the folder creation (main.py:138-150) keeps its derived title |
| `CrawlReport.ResolveAllLastWins` | main.py:152-153 | a written slot holds the name of the last crawl that wrote to it, in any order |
| `CrawlReport.SharedTitleSlotKeepsItsTitle` | main.py:152-153 | when two files derive the same title, the later one's slot is never written and keeps its derived title |
| `CrawlReport.SharedTitleFileNeverRelocated` | main.py:152-154 | when two files derive the same title, no crawl picks the later file to relocate |
| `CrawlReport.Report.constructor` | main.py:208-210 | `TITLES` is derived from `FILES` and `NAMES` starts equal to `TITLES` |
| `CrawlReport.Report.Record` | main.py:152-154 | only slot `TITLES.index(title)` is overwritten, with the resolved name, and the lengths stay equal; the file is `FILES` at the same index; a missing title changes nothing |
| `CoverDownload.Download` | main.py:83-92 | status 200 gives the byte count, any other status and an SSL error give `None`, other exceptions escape; the result is truthy exactly for a 200 with a non-empty body |
| `CoverDownload.Truthy` | main.py:175 | the loop test: `None` and a zero count are falsy, a positive count is truthy |
| `CoverDownload.FetchCover` | main.py:175-176 | each request but the last made gives a falsy result and raises nothing; the loop stops at the first truthy result or escaping exception; when the attempts run out, all of them failed |
| `CoverDownload.FetchAfterFailures` | main.py:175-176 | N failing requests followed by a success make exactly N+1 requests and end with the success's byte count |

## Left out

- Selenium driving is not modelled: the `WebDriver` and `IMDB` page lookups, `go`, `reload`, `wait`, tabs and window minimising (main.py:60-82, 93-117, 137-147, 159-174). They are calls into a browser engine and one site's page structure.
- Concurrency is not modelled: `WebDriverThread`, the `ThreadPoolExecutor`, the detached `shutil.move` thread and the `MAX_THREADS == 0` sizing (main.py:119-131, 182, 212-213, 219-221). `ResolveAllUntouched` and `ResolveAllLastWins` hold for every completion order, which is what the pool can produce.
- I/O is abstracted. The configuration file, `os.listdir`, `os.mkdir`, the existence checks and `exit()` (main.py:148-150, 195-217) are not modelled. The listing enters as the parameter of `Report`'s constructor.
- The JSON text of a record file is not modelled. A file holds the document itself. Values are JSON-native (no floats, keys are strings), so writing then reading gives the same mapping.
- A file holding something other than a JSON object, or text that is not valid JSON, is not modelled.
- RecordStore.Json.constructor: requires a non-empty path. `open("")` raises `FileNotFoundError` in Python, and `Json("", create_template=False)` succeeds there. Neither case is modelled. The only caller in main.py (main.py:156) passes a joined, non-empty path.
- CrawlReport.ResolveAllUntouched: says nothing about a crawl that raises after the `NAMES` write (main.py:156-175). That job's slot already shows its resolved name, as for a job that completed, unless a later crawl of the same title overwrote it.
- The crawl's own record writes are not modelled (main.py:156-170). These are a `Json` at `<folder>/data.json` and the keys `name`, `genres`, `rating`, `year` and `cover-path`, with rating and year stored as page text. `Json` is modelled for any string keys and any JSON values.
- RecordStore.Json.Dump: a failing file write (missing parent folder, permissions) is not modelled. Every write to a non-empty path succeeds.
- The other `UserDict` operations are not modelled (reading, deleting, `update`). The crawl does not use them, and deletion would not write through.
- CoverDownload.FetchCover: the bytes written to `cover.png` are not modelled, only their count. The one-second `time.sleep` between attempts is not modelled either.
- CoverDownload.FetchCover: the source loop retries without bound. The model runs over a finite sequence of outcomes and reports `Pending` when every outcome given has failed.
- The final `data.dump()` of a crawl and its relocation of the file are not modelled (main.py:178-182). The dump is `Dump(None)` on a record that is already in sync. The move is a thread.
