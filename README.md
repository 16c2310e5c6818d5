# search-tube storage layer, modelled in Dafny

search-tube collects YouTube video URLs and keeps them in one SQLite table, `urls`,
whose rows also hold a title and `downloaded`/`transcribed` flags for later
processing. This project models the storage layer, `src/search_tube/storage.py`:

- **URL normalisation** (`url_normalise.dfy`, module `UrlNormalise`).
  `remove_time_parameter` is `re.sub(r"&t=\d+s", "", url)`. It is modelled as a
  left-to-right scan that deletes each match and resumes after it, so matches never
  overlap. `save_urls` then applies `str.removeprefix("https://www.youtube.com/watch?v=")`.
  The result is the stored `youtube_id` (`NormaliseKey`).
- **The `urls` table as a value** (`url_table.dfy`, module `UrlTable`).
  A `Table` holds a map from `youtube_id` to `Row` and the next AUTOINCREMENT value.
  A `Row` holds the surrogate `id`, a nullable `title` and the `downloaded` and
  `transcribed` flags. The functions `InsertKey`, `InsertUrls`, `SetTitle`,
  `MarkDownloaded` and `Selectable` state what each SQL statement does. The lemmas
  beside them prove the table's properties.
- **The `Storage` class** (`storage.dfy`, module `SearchTube`). Its fields `rows` and
  `nextId` are updated in place. `SaveUrls` is the `for u in url_list` loop, inserting
  one key at a time; a duplicate key (SQLite's IntegrityError on the UNIQUE column)
  is skipped. `RetrieveUrl` is the `LIMIT 1` query with no `ORDER BY`, modelled as a
  nondeterministic choice among the matching rows. `SaveTitle` and
  `MakeUrlDownloaded` are the two single-column UPDATEs. Each mutating method is
  proved against the `UrlTable` function for its statement, and keeps the table
  invariant `WellFormed`: surrogate ids are positive, distinct and below `nextId`.

Three facts about the code are worth knowing. First, `remove_time_parameter` is not
idempotent: `&t=&t=5s5s` becomes `&t=5s`, and a second call gives the empty string
(`UrlNormalise.RemoveIsNotIdempotent`). Second, only the YouTube watch prefix is
stripped. A URL that does not start with the watch prefix once its time parameters
are removed is stored whole, minus its time parameters (`UrlNormalise.KeyOfOtherUrl`;
for example `UrlNormalise.ExampleComUrlKey`). Third, the docstring of `retrieve_url`
(`src/search_tube/storage.py:55`) says it retrieves all URLs, but its query returns
at most one key, from the rows whose `downloaded` equals the argument; the model
follows the query (`SearchTube.Storage.RetrieveUrl`).

The storage layer stops there. It validates no URL, and `save_urls` returns nothing.
There is no `rejected` flag, keyword filter or stage worker, and nothing ever sets
`transcribed`.

## Model

| member | source | states |
|---|---|---|
| UrlNormalise.DigitRun | src/search_tube/storage.py:6 | the greedy `\d+`: the result is the length of the maximal run of ASCII digits at the front |
| UrlNormalise.MatchLength | src/search_tube/storage.py:6 | a nonzero result is a prefix of the input matching `&t=\d+s` |
| UrlNormalise.MatchLengthIsTheOnlyMatch | src/search_tube/storage.py:6 | a prefix matches `&t=\d+s` exactly when its length is the match length, so each scan position has at most one match |
| UrlNormalise.RemoveTimeParameter | src/search_tube/storage.py:5-6 | removing time parameters never makes a URL longer |
| UrlNormalise.RemoveWithoutTimeParameter | src/search_tube/storage.py:5-6 | a URL containing no `&t=\d+s` comes back unchanged |
| UrlNormalise.RemoveWithTimeParameter | src/search_tube/storage.py:5-6 | a URL containing a `&t=\d+s` comes back strictly shorter |
| UrlNormalise.RemoveUnchangedIff | src/search_tube/storage.py:5-6 | the URL is unchanged if and only if it contains no `&t=\d+s`, and shorter if and only if it contains one |
| UrlNormalise.LeftmostParse | src/search_tube/storage.py:6 | every URL splits into kept characters and cut matches the way a left-to-right, non-overlapping scan splits it |
| UrlNormalise.RemoveKeepsSurvivors | src/search_tube/storage.py:6 | for any leftmost non-overlapping split of a URL, the result is exactly the kept characters in their original order |
| UrlNormalise.RemoveDeletesLeftmostMatches | src/search_tube/storage.py:6 | every URL has such a split, and the result is its kept characters |
| UrlNormalise.NoMatchAtFrontIff | src/search_tube/storage.py:6 | no prefix matches exactly when the match length is zero |
| UrlNormalise.RemoveSkipsAmpersandFreePrefix | src/search_tube/storage.py:6 | a leading part with no `&` passes through removal unchanged |
| UrlNormalise.RemoveSingleTimeParameter | src/search_tube/storage.py:6 | a lone `&t=<digits>s` is removed entirely |
| UrlNormalise.RemoveIsNotIdempotent | src/search_tube/storage.py:6 | `&t=&t=<d>s<e>s` becomes `&t=<e>s`, which a second call removes, so one call is not idempotent |
| UrlNormalise.RemovePrefix | src/search_tube/storage.py:43 | `str.removeprefix`: with the prefix present, prefix plus result is the input; otherwise the input is returned |
| UrlNormalise.NormaliseKey | src/search_tube/storage.py:43 | the key is the URL with time parameters removed first and then the watch prefix removed if present; never longer than the URL |
| UrlNormalise.KeyOfWatchUrl | src/search_tube/storage.py:43 | a watch-page URL is stored under its video part with time parameters removed |
| UrlNormalise.KeyOfOtherUrl | src/search_tube/storage.py:43 | a URL that does not start with the watch prefix once its time parameters are removed is stored as the time-removed URL |
| UrlNormalise.KeyOfWatchUrlWithOffset | src/search_tube/storage.py:43 | `...watch?v=<id>&t=<digits>s` is stored as `<id>` when the id holds no `&` |
| UrlNormalise.KeyOfOtherUrlWithOffset | src/search_tube/storage.py:43 | an `&`-free URL that does not start with the watch prefix, followed by one `&t=<digits>s`, is stored as the URL itself |
| UrlNormalise.ExampleComUrlKey | src/search_tube/storage.py:43 | `https://example.com/watch?v=abc123&t=30s` is stored as `https://example.com/watch?v=abc123` |
| UrlTable.InsertKey | src/search_tube/storage.py:44-47 | one INSERT: the key is present afterwards; an existing key leaves the table as it was (IntegrityError swallowed); a new key gets a row with no title, both flags false and id `nextId`; well-formedness is kept |
| UrlTable.SetTitle | src/search_tube/storage.py:76-79 | only the title of the matching row changes; other rows and fields are unchanged; an unknown id is a no-op |
| UrlTable.MarkDownloaded | src/search_tube/storage.py:95-98 | only `downloaded` of the matching row becomes true; other rows and fields are unchanged; an unknown id is a no-op |
| UrlTable.InsertUrls | src/search_tube/storage.py:41-47 | the table after `save_urls(L)`: the key of each URL of `L` inserted in list order; no stored key disappears |
| UrlTable.Selectable | src/search_tube/storage.py:58 | the keys `SELECT ... WHERE downloaded = ?` can return: stored keys whose `downloaded` flag equals the argument |
| UrlTable.SelectionsPartitionRows | src/search_tube/storage.py:58 | every stored key is returnable by exactly one of `retrieve_url(False)` and `retrieve_url(True)` |
| UrlTable.InsertUrlsAtMostOneRowEach | src/search_tube/storage.py:43-44 | `save_urls(L)` adds at most one row per URL of `L` |
| UrlTable.InsertUrlsKeys | src/search_tube/storage.py:41-44 | after `save_urls(L)` the keys are the earlier keys plus the normalised key of every URL in `L` |
| UrlTable.InsertUrlsKeepsRows | src/search_tube/storage.py:44-47 | rows present before `save_urls` keep their id, title and flags, and the counter never goes back |
| UrlTable.InsertUrlsNewRows | src/search_tube/storage.py:10-14 | every inserted row has no title, both flags false and an id above every id assigned before; the table stays well formed |
| UrlTable.InsertUrlsNewRowsDefaults | src/search_tube/storage.py:44 | inserted rows have no title and both flags false, for any starting table |
| UrlTable.InsertUrlsCount | src/search_tube/storage.py:10 | the AUTOINCREMENT counter advances by exactly the number of rows inserted |
| UrlTable.InsertUrlsPresentKeys | src/search_tube/storage.py:45-47 | when every key of the list is already stored, `save_urls` changes nothing |
| UrlTable.InsertUrlsIdempotent | src/search_tube/storage.py:41-47 | a second `save_urls(L)` leaves the table identical to after the first |
| UrlTable.SavedUrlIsSelectable | src/search_tube/storage.py:44 | the key of each newly saved URL is one `retrieve_url(False)` may return |
| UrlTable.OverlappingBatchesOneRow | src/search_tube/storage.py:41-47 | saving `...v=<id>` and then `...v=<id>&t=<digits>s` leaves one row for `<id>` when the id holds no `&`; the second batch changes nothing |
| UrlTable.MarkDownloadedIdempotent | src/search_tube/storage.py:95-98 | marking a row downloaded twice is the same as once |
| UrlTable.SetTitleLastWriteWins | src/search_tube/storage.py:76-79 | a later title for the same row overwrites an earlier one |
| UrlTable.SetTitleMarkDownloadedCommute | src/search_tube/storage.py:76-79 | the two updates touch different columns, so their order does not matter |
| UrlTable.MarkDownloadedMovesSelection | src/search_tube/storage.py:95-98 | `make_url_downloaded(k)` moves a stored `k` from the `downloaded = false` selection to the `downloaded = true` selection and moves nothing else |
| UrlTable.SetTitleKeepsSelection | src/search_tube/storage.py:76-79 | `save_title` never changes what `retrieve_url` can return |
| SearchTube.Storage.constructor | src/search_tube/storage.py:18-35 | a new database has an empty, well-formed `urls` table whose AUTOINCREMENT starts at 1 |
| SearchTube.Storage.SaveUrls | src/search_tube/storage.py:37-52 | the loop inserts the URLs' keys in list order; the new table is `InsertUrls` of the old one, and well-formedness is kept |
| SearchTube.Storage.RetrieveUrl | src/search_tube/storage.py:54-62 | the result has at most one element; any element is the `youtube_id` of a row whose `downloaded` equals the argument; it is empty if and only if no such row exists |
| SearchTube.Storage.SaveTitle | src/search_tube/storage.py:64-82 | the new table is `SetTitle` of the old one, and well-formedness is kept |
| SearchTube.Storage.MakeUrlDownloaded | src/search_tube/storage.py:84-101 | the new table is `MarkDownloaded` of the old one, and well-formedness is kept |

## Left out

- SQLite itself: connection setup, `CREATE TABLE IF NOT EXISTS`, transactions and the `print`-and-reraise error handling (src/search_tube/storage.py:18-35, 48-52, 60-62). The table is an in-memory map.
- SearchTube.Storage.constructor: models a new database only. Reopening an existing database file is not modelled; that would start from any well-formed table instead of an empty one.
- Exceptions other than IntegrityError while inserting one URL (src/search_tube/storage.py:48-49). Nothing in the model can raise one, so that path is absent.
- `log_level` and the messages it controls: they only affect printing.
- UrlTable.InsertUrlsCount: the model numbers new rows consecutively from `nextId`. SQLite's AUTOINCREMENT promises only ids larger than any used before, and a failed insert may leave a gap; consecutive numbering is one behaviour it allows. The same holds for the id `UrlTable.InsertKey` gives a new row.
- The row id limit: SQLite's AUTOINCREMENT fails with SQLITE_FULL after id 9223372036854775807. Ids here are unbounded integers.
- Unicode digits: Python's `\d` also matches non-ASCII decimal digits. The model uses ASCII `0`-`9`.
- Non-string list elements and `None` as a title: inputs are typed as strings.
- The default `downloaded=False` of `retrieve_url`: the model's `RetrieveUrl` takes the flag explicitly.
- Concurrent use of the shared connection (`check_same_thread=False`).
- src/main.py (an HTTP endpoint that evaluates request input) and src/search_tube/engine.py (a wrapper around a network client, calling a `retrieve_urls` method that does not exist) are not part of this model.
