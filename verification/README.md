# Stargazer tracker — a Dafny model

The tracker in `star.py` records who has starred a GitHub repository. Each run
does four things:

- It requests the repository's stargazer pages 1 to 5 and scrapes one login
  from every list item whose heading has an anchor.
- It reads the previous list of stargazers from a snapshot CSV file.
- It computes the logins that are new since that snapshot.
- It overwrites the snapshot with the current list. When there are new logins,
  it also overwrites a second CSV file with them.

This project models that logic without the I/O and proves properties about it:

- The network and HTML layer become a page oracle `int -> Page`.
  - `None` is a page whose status is not 200 or whose stargazer `<ol>` is
    missing.
  - `Some(items)` holds the page's list items in document order. Each item is
    the text of its heading's anchor, or `None` when the heading has no anchor.
- The two CSV files are abstract sequences of records, or `None` when the file
  does not exist.

Modules:

- `Wrappers`: `Option` and `Result`.
- `Text`: Python's `str.strip()`, with the whitespace set of `str.isspace()`.
- `Fetch`: per-page extraction (`ExtractLogins`, `PageLogins`) and the page
  loop (`FetchStargazers`). `Gather` is the reference definition: the logins
  of pages `lo..hi`, concatenated in page order.
- `Diff`: `find_new_stargazers`.
- `Snapshot`: `save_stargazers` and `read_previous_stargazers`. The two
  exceptions `read_previous_stargazers` raises on a badly shaped file
  (`StopIteration` at star.py:56, `IndexError` at star.py:57) become
  `ReadError` values.
- `Tracker`: one run (`TrackStargazers`). `IsRun` is the relation it satisfies
  between the files before and after the run. The lemmas about whole runs are
  stated in terms of `IsRun`.

Three features of the program shape the model:

- All `total_pages` pages are always requested.
- A failed page is skipped, and the pages after it are still fetched.
- The snapshot is a CSV file. An unreadable snapshot ends the run with an
  exception; it is not read as empty.

## Model

| member | source | states |
|---|---|---|
| Text.Strip | star.py:42 | the login neither starts nor ends with whitespace and is no longer than the anchor text |
| Text.StripFactor | star.py:42 | the login is a contiguous factor of the anchor text, and everything removed from either end is whitespace |
| Text.StripStripped | star.py:42 | stripping a string that has no surrounding whitespace returns it unchanged |
| Text.StripIdempotent | star.py:42 | stripping an already stripped login changes nothing |
| Fetch.PageLogins | star.py:39-43 | a page yields at most one login per list item, and every login it yields is whitespace-stripped |
| Fetch.PageLoginsAppend | star.py:39-43 | logins keep the order of their items: extracting from two runs of items one after the other gives the two extractions concatenated |
| Fetch.PageLoginsMembership | star.py:40-43 | a login is on a page exactly when some item of the page has an anchor whose stripped text is that login |
| Fetch.PageLoginsAllAnchored | star.py:40-41 | a page yields one login per item exactly when no item lacks an anchor; an anchorless item is skipped |
| Fetch.ExtractLogins | star.py:37-43 | the item loop appends, in item order, the stripped anchor text of each item that has an anchor, and nothing for the others |
| Fetch.FetchStargazers | star.py:26-49 | requests pages 1, 2, ..., totalPages in increasing order, whatever each response is (none when totalPages < 1), and returns the concatenation of every page's logins in page order |
| Fetch.GatherSplit | star.py:28-43 | the collected list splits at any page into the logins before it, that page's own logins, and the logins after it |
| Fetch.GatherNext | star.py:28-43 | collecting one more page appends exactly that page's logins at the end |
| Fetch.FailedPageSkipped | star.py:32-48 | a page with a bad status, a missing list container or no items contributes nothing, and the pages after it still contribute |
| Fetch.GatherMembership | star.py:28-43 | a login is collected exactly when one of the requested pages yields it |
| Fetch.GatherOnlyReadsRange | star.py:28-30 | the collected list depends only on the responses for pages in the requested range |
| Fetch.DefaultPages | star.py:16-30 | with the program's page count of 5, the collected list is the logins of pages 1, 2, 3, 4 and 5 concatenated in that order |
| Diff.FindNewStargazers | star.py:69-70 | the result holds exactly the logins of the current list absent from the previous one, each once even when the current list repeats it, and is as large as that set difference |
| Diff.NewSetNonEmpty | star.py:70 | the difference is non-empty exactly when some current login is missing from the previous list |
| Diff.NothingNewWhenKnown | star.py:70 | when every current login is already known, the difference is empty |
| Snapshot.Save | star.py:61-66 | the file is replaced by the header record followed by one single-field record per login, in list order |
| Snapshot.FirstColumn | star.py:57 | reading the records after the header succeeds exactly when each has a field, and then yields each record's first field in order; otherwise it fails at a record that has no field |
| Snapshot.ReadPrevious | star.py:52-58 | a missing file reads as the empty list; a file with no record fails as `next(reader)` does; otherwise the first record is skipped and each later record's first field is returned in order |
| Snapshot.SaveThenRead | star.py:52-66 | reading back a saved list returns exactly that list |
| Snapshot.SaveInjective | star.py:61-66 | different lists are saved as different files |
| Snapshot.ReadFailsExactly | star.py:53-57 | a snapshot read fails exactly when the file exists and has either no record at all or a later record without any field |
| Tracker.TrackStargazers | star.py:73-94 | a run fetches the current list and reads the snapshot. If the read fails, the run stops with both files untouched. Otherwise the snapshot is overwritten with the current list, which it then reads back as, and the new-stargazer file is overwritten with exactly the new logins if there are any and left unchanged if there are none |
| Tracker.RunOverwritesSnapshot | star.py:85-86 | after a completed run, the snapshot reads back as exactly the fetched list, whatever it held before (overwrite, not merge) |
| Tracker.RunFailsOnlyOnUnreadableSnapshot | star.py:77-86 | a run fails exactly when the previous snapshot cannot be read, and then changes no file |
| Tracker.RunWritesNewFileIff | star.py:88-94 | a completed run rewrites the new-stargazer file exactly when some fetched login is missing from the previous snapshot; otherwise that file is untouched |
| Tracker.FirstRunFindsEverything | star.py:52-58 | with no snapshot file, the run completes and every fetched login counts as new |
| Tracker.RunTwiceUnchanged | star.py:73-94 | a second run over unchanged pages finds nothing new and leaves both files exactly as the first run left them |

## Left out

- HTTP requests and BeautifulSoup selection (star.py:29-40): foreign libraries, replaced by the page oracle. Timeouts and transport exceptions are not modelled.
- An item with no `h2` heading (star.py:40): in the program, `.find` is then called on `None` and the run crashes. The oracle has no way to express such an item.
- CSV quoting, line endings and UTF-8 encoding (star.py:53-66): files are modelled as sequences of records. Python's `csv` writer quotes a lone empty field, so an empty login still reads back as a record with one field. Malformed CSV and bad encodings, and the `csv.Error` and `UnicodeDecodeError` they raise, are not modelled; nor is an `OSError` from opening either file.
- File-system calls and the file names built from the repository name (star.py:21-23): the two files are the two fields of `Files`. Their names always differ.
- Environment loading and module-level configuration (star.py:9-16): the owner and repository shape only the URLs, which the oracle abstracts, and the file names (see above). The page count is a parameter; the program's value is `Fetch.TotalPages` (5).
- `print` logging throughout: it has no effect on the result.
- The module-level call at star.py:97: a run is `Tracker.TrackStargazers`.
- Diff.FindNewStargazers: the order of the returned list is not stated, because the program takes Python's set iteration order, which depends on string hashing. The new-stargazer file therefore holds the new logins in an unspecified order.
- Snapshot.SaveThenRead: the round trip is proved for files seen as lists of records. The program writes with `newline=''` (star.py:62) but reads without it (star.py:54), so universal-newline reading turns a `'\r'` inside a quoted field into `'\n'`. A login such as `"a\rb"` therefore reads back as `"a\nb"`, and the program's own round trip fails for logins containing `'\r'`. `Tracker.RunOverwritesSnapshot` and `Tracker.RunTwiceUnchanged` inherit this gap: in the program, a second run reads `"a\nb"` back, finds `"a\rb"` new again and rewrites the new-stargazer file.
