# Drive handler core, modelled in Dafny

This project models the synchronisation core of `GoogleDriveHandler`
(`msdatabase/google_drive_handler.py`): the two loops that page through the
remote catalog, the first-seen-wins duplicate scan and the delete calls that
follow it, the byte-count formatter `convert_bytes`, and the quota reader
`get_drive_info`.

The Google API is replaced by plain values:

- The listing endpoint is a `seq<Response>` (`DriveStore`). Each response is a
  `Page(files, next)` or a `ListError` (the request raised). The first request
  gets response 0, and the token of response k leads to response k + 1. Asking
  for a response the store does not hold is a `ListError`. A token is "present"
  when it is neither absent nor empty, as in Python's `if not page_token`.
- The outcome of deleting an id is a function `string -> DeleteResult`
  (`Deleted` or `DeleteRaised`). `delete_file` turns it into a `bool`.
- The quota answer is `About(limit, usage)` with optional fields, or `HttpError`.

Module layout, one per component of the handler:

- `DriveStore` (`store.dfy`): records, responses, and `Flatten`, the
  concatenation of the pages' records.
- `Catalog` (`catalog.dfy`): both paging loops, as the methods `CollectCatalog`
  (`remove_duplicate_files`) and `ListFiles` (`list_files`). Both are proved
  against one function, `PagesFrom(store, k, emptyPageStops)`. The flag is the
  only difference between the loops: `list_files` also stops at the first page
  with no records, even when that page carries a token. The model keeps that
  difference. `EmptyPageWithToken` shows a store where the two loops disagree.
- `Dedup` (`dedup.dfy`): the scan (`ScanCatalog`, specified by `Scan`), the
  delete loop (`DeleteEach`) and the whole `RemoveDuplicateFiles`. The method
  returns the trace of `delete_file` calls, one `Attempt(id, deleted)` each.
  The scan is compared with reference definitions over catalog positions:
  `SeenBefore`, `Repeats`, `Survivors` and `Names`.
- `SizeFormat` (`size_format.dfy`): `ConvertBytes`. Its input is text. `int()`
  is modelled for an optional sign followed by ASCII digits. `:.2f` of
  n / 1024^k is modelled exactly: the printed hundredths are 100·n / 1024^k
  rounded to nearest, ties to even. `ReadSize` reads a rendered size back.
- `DriveInfo` (`drive_info.dfy`): `GetDriveInfo`.

Where the code and the intended design of this component disagree, the
model follows the code:

- The design has the deduplicator return the number of deletions attempted.
  `remove_duplicate_files` returns `None`. The model returns the trace of
  attempts; the length of the trace is that number.
- The design says an empty page that still carries a token must not end the
  listing. `list_files` ends there; only `remove_duplicate_files` goes on.
- The design says listing failures reach the caller. In the code, both loops
  catch them: `list_files` returns `[]`, and `remove_duplicate_files` logs the
  failure and deletes nothing.

## Model

| member | source | states |
|---|---|---|
| `Catalog.CollectCatalog` | msdatabase/google_drive_handler.py:76-83 | The paging loop of `remove_duplicate_files` returns `Catalog(store)`: the records it gathers, or None if a request raised. |
| `Catalog.PagesCharacterization` | msdatabase/google_drive_handler.py:78-83 | Both paging loops succeed exactly when some page n ends the walk and every earlier page was fetched and continued it. The result is then the records of pages 0..n concatenated in store order. |
| `Catalog.CatalogComplete` | msdatabase/google_drive_handler.py:76-83 | Pagination completeness: the catalog is every record of pages 0..n, where n is the first page without a token. Empty pages that carry a token are included and do not stop the walk. Listing fails when no such page is reached. |
| `Catalog.ListFiles` | msdatabase/google_drive_handler.py:117-145 | `list_files` returns the records of `Listed(store)`, each copied as exactly its name and id. Any failed request yields `[]`. |
| `Catalog.ListedComplete` | msdatabase/google_drive_handler.py:117-139 | `list_files` collects pages 0..n, where n is the first page with no token or no records. Every page before n had records and a token. |
| `Catalog.ListedIsCatalogPrefix` | msdatabase/google_drive_handler.py:126-130 | When both loops succeed, `list_files` returns a prefix of the catalog of `remove_duplicate_files`. It returns the whole catalog when no page with a token is empty. |
| `Catalog.EmptyPageWithToken` | msdatabase/google_drive_handler.py:128-130 | On the store [empty page with token, page [r] without token], `remove_duplicate_files` lists [r] and `list_files` lists nothing. |
| `Dedup.ScanCatalog` | msdatabase/google_drive_handler.py:89-99 | The scan loop ends with `file_names` and `duplicate_files_ids` equal to `Scan(files)`. |
| `Dedup.ScanMatchesReference` | msdatabase/google_drive_handler.py:89-99 | Every name in the catalog is a key of `file_names`. Each key maps to the id of the first record with that name. `duplicate_files_ids` is exactly the ids of the later records with an already-seen name, in catalog order. |
| `Dedup.FirstSeenNeverDeleted` | msdatabase/google_drive_handler.py:96-99 | When ids are unique, the first-seen id of every name is not in `duplicate_files_ids`. |
| `Dedup.SurvivorsAndRepeats` | msdatabase/google_drive_handler.py:92-99 | Every record is either a first-seen survivor or a repeat. There is one survivor per distinct name, and the survivors cover every name. |
| `Dedup.DuplicateCount` | msdatabase/google_drive_handler.py:101-102 | The count of duplicate ids is the number of records minus the number of distinct names. `file_names` has one key per distinct name. |
| `Dedup.SurvivorsDistinct` | msdatabase/google_drive_handler.py:96-99 | No two surviving first-seen records share a name. |
| `Dedup.NoRepeatsIffDistinct` | msdatabase/google_drive_handler.py:101-109 | A catalog has no repeats exactly when all its names are distinct. |
| `Dedup.RescanFindsNothing` | msdatabase/google_drive_handler.py:89-99 | Idempotence: scanning the survivors again finds no duplicate. |
| `Dedup.ScanExample` | msdatabase/google_drive_handler.py:89-99 | For [(id1,a), (id2,a), (id3,b), (id4,a)], a maps to id1, b maps to id3, and the duplicates are [id2, id4]. |
| `Dedup.DeleteFile` | msdatabase/google_drive_handler.py:63-71 | `delete_file` returns true exactly when the store's delete succeeds, and false exactly when it raises. It never raises itself. |
| `Dedup.DeleteEach` | msdatabase/google_drive_handler.py:104-105 | The delete loop makes exactly one `delete_file` call per duplicate id, in discovery order, whatever the outcome of earlier calls. |
| `Dedup.RemoveDuplicateFiles` | msdatabase/google_drive_handler.py:73-112 | The whole method makes exactly the delete calls of `DedupPass`. There are none if listing fails or the catalog is empty. Otherwise there is one call per duplicate id. |
| `Dedup.DedupPassDeletesRepeats` | msdatabase/google_drive_handler.py:75-112 | A failed listing attempts no delete. A successful one attempts exactly the repeated records of the catalog, in catalog order, each with the store's outcome. |
| `Dedup.DistinctCatalogDeletesNothing` | msdatabase/google_drive_handler.py:101-109 | A catalog with no repeated name causes no delete call. |
| `Dedup.FailureIsolationExample` | msdatabase/google_drive_handler.py:104-105 | Over two pages holding (id1,a), (id2,a), (id3,b), (id4,a), with the delete of id2 failing, id2 is still attempted (false) and id4 is attempted after it (true). |
| `SizeFormat.NatToString` | msdatabase/google_drive_handler.py:179 | A count prints as a non-empty run of decimal digits with no leading zero. |
| `SizeFormat.DigitsRoundTrip` | msdatabase/google_drive_handler.py:177-179 | Reading the printed digits of a count gives the count back. |
| `SizeFormat.IntRoundTrip` | msdatabase/google_drive_handler.py:177-179 | `int()` of the printed form of any int, negatives included, gives that int. |
| `SizeFormat.RoundHalfEven` | msdatabase/google_drive_handler.py:181 | The result is the nearest integer to x / d, with ties going to the even neighbour. |
| `SizeFormat.NearestEvenUnique` | msdatabase/google_drive_handler.py:181-185 | At most one integer is nearest with ties to even, so the printed hundredths are determined by the count alone. |
| `SizeFormat.Classify` | msdatabase/google_drive_handler.py:178-185 | A count below 1024 stays plain bytes. Otherwise the unit is KB below 1024², GB from 1024³ on, and MB in between. The hundredths are 100·n / 1024^k rounded to nearest, ties to even. |
| `SizeFormat.ConvertBytes` | msdatabase/google_drive_handler.py:173-188 | The result is "N/A" exactly for the input "N/A". It is "Invalid size" exactly for other text that `int()` cannot read. |
| `SizeFormat.RenderRoundTrip` | msdatabase/google_drive_handler.py:178-185 | Every rendered size reads back as the size it renders, so no two sizes print alike. |
| `SizeFormat.ConvertBytesReadsBack` | msdatabase/google_drive_handler.py:176-185 | The output for a readable count reads back as that count's bracket and rounded value. |
| `SizeFormat.SmallCountsArePlain` | msdatabase/google_drive_handler.py:178-179 | Any count below 1024, negatives included, prints as "{n} bytes". |
| `SizeFormat.ZeroAndLastPlain` | msdatabase/google_drive_handler.py:178-179 | "0" gives "0 bytes" and "1023" gives "1023 bytes". |
| `SizeFormat.FirstKilobyte` | msdatabase/google_drive_handler.py:180-181 | "1024" gives "1.00 KB". |
| `SizeFormat.FirstMegabyte` | msdatabase/google_drive_handler.py:182-183 | "1048576" gives "1.00 MB". |
| `SizeFormat.FirstGigabyte` | msdatabase/google_drive_handler.py:184-185 | "1073741824" gives "1.00 GB". |
| `SizeFormat.KilobyteCarry` | msdatabase/google_drive_handler.py:180-181 | "1048575" gives "1024.00 KB": rounding carries, and the unit stays KB. |
| `SizeFormat.NotANumber` | msdatabase/google_drive_handler.py:186-188 | "not-a-number" gives "Invalid size". |
| `DriveInfo.GetDriveInfo` | msdatabase/google_drive_handler.py:150-171 | An HTTP error gives `{}`. Otherwise the result has exactly the keys total_space and used_space. A missing field shows as "N/A". A present field shows as `convert_bytes` of its value. |
| `DriveInfo.ShownNotAvailable` | msdatabase/google_drive_handler.py:153-159 | A quota field shows as "N/A" exactly when it is missing or is the text "N/A". |

## Left out

- Credential loading and service construction (lines 13-36): a fixed key path and calls into the Google client library.
- `upload_pdf` (lines 38-47): a thin wrapper over the library's media upload and `files().create`.
- `download_pdf` (lines 49-61): file I/O with chunking driven by the library. Its progress value is a library float that is only logged.
- The `__main__` driver (lines 191-225): hard-coded local paths and prints.
- Logging. Every `logger` call is left out, including the "N duplicate files found" message; the number it prints is stated by `Dedup.DuplicateCount`. The handler imports `msdatabase.logger_config`; that module is not part of this model.
- `msdatabase/main.py` and `msdatabase/logging_config.py`: a relational-database tutorial script and logger setup, neither part of the handler's logic.
- The value of a page token. The model follows tokens by position: page k's token leads to page k + 1, and a store that runs out of pages answers with a listing error.
- Records without a `name` or `id` key (a `KeyError` caught by the handlers' `except Exception`). Every modelled record has both.
- `Dedup.DeleteFile`: the delete outcome depends only on the id, not on earlier deletions, so the model does not capture a second delete of the same id failing.
- `SizeFormat.ParseInt`: models `int()` only on an optional sign followed by ASCII digits. Surrounding whitespace, underscores between digits and non-ASCII digits, which `int()` accepts, yield "Invalid size" here. Non-text input, which raises an uncaught `TypeError`, is not modelled.
- `SizeFormat.Classify`: rounds the exact quotient n / 1024^k. That agrees with Python's float division and `:.2f` only for |n| < 2^53; above that the float quotient may already be rounded.
- `DriveInfo.GetDriveInfo`: exceptions other than `HttpError`, which propagate to the caller, are not modelled.
