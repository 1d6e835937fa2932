# youtube-downloader: a verified model of its decision and bookkeeping core

The downloader is a small web front end around an external video extractor.
Apart from transport glue, its own logic does five things, and this model covers each of them:

- **Rate limiting.** `DownloadManager.can_download` keeps a per-client table of
  `{count, timestamp}`. It purges stale entries of every client, admits a new
  client with count 1, admits a client under quota by raising its count (the
  window stays anchored at its first request), and rejects a client that has used
  its 30 requests.
- **URL allow-list.** `is_valid_url` accepts a URL iff an allowed domain
  (`youtube.com`, `youtu.be`) is a *substring* of its network location.
- **Download session.** `download_video` checks the declared size (`filesize or
  filesize_approx`). It then checks the selected format's size, but only when the
  selector is not `best`. It relays progress events, checks the size of the file
  on disk, and appends a record to the catalog only when that size is within the
  limit.
- **Preview.** `get_video_preview` offers the formats with a known non-zero size
  whose rounded size in MiB is at most 500, in the extractor's order.
  `preview_video` refuses an empty URL and a refused URL first.
- **Catalog and housekeeping.**
  - `load_videos_info` gives every record a string filename; a missing or unreadable file yields the empty list.
  - The append is load, append, save.
  - The message loop rate-checks every message before looking at it.
  - The cleanup task deletes files whose age in whole days exceeds 7.

Time is a parameter in whole seconds. The extractor's answers, the file system
and the clock's formatted date are inputs. The catalog file is a value:
absent, unreadable, or a list of items.

Modules, one per component: `Config` (constants), `Wrappers` (`Option`),
`RateLimit` (the `DownloadManager` class), `UrlCheck`, `Cleanup`,
`Extractor` (metadata records), `Catalog`, `Progress`, `Preview`, `Download`, `Endpoint`.

Three behaviours of the code that the model keeps as they are:

- The purge keeps an entry only when its timestamp is strictly newer than
  `now - 60s`. An entry exactly 60 seconds old is dropped, and its client starts
  a new window.
- `is_valid_url` is a method of `DownloadManager` in the Python code, but it reads no
  state, so it is a plain function here.
- The catalog append takes no lock around its load-append-save sequence, so two
  concurrent appends can lose a record. The model treats each append as one step.

A consequence the code has and the model keeps: a catalog file that cannot be
read loads as the empty list, so a successful append then leaves the new
record alone in the file.

## Model

| member | source | states |
|---|---|---|
| `RateLimit.Purged` | utils.py:47-50 | the purge keeps exactly the live entries (timestamp > now - 60), each with its value unchanged |
| `RateLimit.Admit` | utils.py:42-60 | a call is admitted iff the caller has no live entry with count at or above MAX_REQUESTS_PER_MINUTE; the caller always has an entry afterwards |
| `RateLimit.AdmitEffect` | utils.py:47-58 | afterwards every entry is live (timestamp > now - 60); a caller without a live entry gets {count 1, timestamp now}; an admitted existing caller's count grows by exactly 1 and its timestamp is kept; a rejected caller's entry is unchanged; any other client's entry survives unchanged iff it was live |
| `RateLimit.AdmitKeepsCountsInRange` | utils.py:53-58 | every call preserves the invariant that all stored counts lie in 1..MAX_REQUESTS_PER_MINUTE |
| `RateLimit.WindowAdmitsQuota` | utils.py:42-60 | a client with no live entry calling repeatedly within the window of its first call is admitted exactly on calls 1..30, and its entry keeps the first call's timestamp |
| `RateLimit.ExpiredWindowRestarts` | utils.py:44-58 | once the window start is 60s or more old, the next call is admitted and the entry restarts at {count 1, timestamp now} |
| `RateLimit.DownloadManager.constructor` | utils.py:37-40 | the rate table starts empty and satisfies the count invariant |
| `RateLimit.DownloadManager.CanDownload` | utils.py:42-60 | the verdict and the rebuilt table are exactly those of `Admit` on the old table, and the count invariant is kept |
| `UrlCheck.Contains` | utils.py:65 | the scan returns true iff the needle occurs at some position of the host (Python's `in` on strings, the empty needle included) |
| `UrlCheck.AnyDomainIn` | utils.py:65 | true iff some domain of the list is a substring of the host |
| `UrlCheck.IsValidUrl` | utils.py:62-67 | true iff parsing succeeded and some allowed domain is a substring of the network location |
| `UrlCheck.YoutubeAccepted` | utils.py:62-67 | the hosts `youtube.com` and `youtu.be` are accepted |
| `UrlCheck.ForeignHostContainingDomainAccepted` | utils.py:62-67 | `youtube.com.evil.com` and `notyoutube.com.evil.com` are accepted: substring matching is permissive |
| `UrlCheck.OtherHostsRefused` | utils.py:62-67 | `evil.com`, the empty location that `not a url` parses to, and a parse failure are refused |
| `Cleanup.IsExpired` | utils.py:88-90 | the whole-day age exceeds 7 iff the file is at least 8 full days old |
| `Cleanup.AgeBoundaries` | utils.py:90 | a file 7 days 23 hours old is kept, a file with a future mtime is kept, a file 8 days old is deleted |
| `Cleanup.DoomedNames` | utils.py:86-91 | the names swept in one pass, in directory order, at most one per directory entry (membership is fixed by `Cleanup.DoomedNamesExact`) |
| `Cleanup.DoomedNamesExact` | utils.py:86-91 | a name is swept iff some regular file of that name is expired |
| `Cleanup.CleanupPass` | utils.py:85-91 | one pass deletes, in directory order, exactly the regular files that are expired |
| `Catalog.NormalizedFilename` | main.py:53-57 | after loading, a filename is a string: a string is kept, anything else becomes `未知文件名` |
| `Catalog.Loaded` | main.py:47-63 | every loaded filename is a string; a readable list of objects loads record by record with filenames normalized; a missing or unreadable file, or a list with a non-object item, loads as the empty list |
| `Catalog.Saved` | main.py:65-71 | the saved file holds the given records, one object per record, in order |
| `Catalog.SaveLoadRoundTrip` | main.py:47-71 | saving records whose filenames are strings and loading them back gives the same records |
| `Catalog.LoadIdempotent` | main.py:52-57 | loading, saving and loading again gives what the first load gave |
| `Catalog.Append` | main.py:65-71 | a save that fails leaves the catalog file as it was |
| `Catalog.AppendExtends` | main.py:277-279 | after a successful append, the catalog reads as before plus the new record at the end; after an unreadable file, it holds the new record alone |
| `Catalog.LoadVideosInfo` | main.py:47-63 | the loop that rewrites filenames in place returns exactly `Loaded(file)` |
| `Progress.ProgressHook` | main.py:195-210 | `downloading` yields a downloading event with each missing figure as 0; `finished` yields exactly the finished event; any other or missing status yields nothing |
| `Progress.HookEvents` | main.py:195-210 | a report stream yields only downloading and finished events, at most one per report |
| `Progress.HookEventsSingle` | main.py:195-208 | a single report is relayed as exactly the event `progress_hook` makes of it, or as nothing |
| `Progress.HookEventsConcat` | main.py:195-208 | relaying distributes over concatenation, so every report's event is sent, in report order |
| `Preview.SizeMbCenti` | main.py:158 | `round(size/1024/1024, 2)` in hundredths of a MiB: the result is within half a hundredth of the exact quotient |
| `Preview.Shape` | main.py:153-160 | a preview entry keeps the format's id, extension and byte size |
| `Preview.WithinLimitOffered` | main.py:152-162 | every format with 0 < filesize <= MAX_FILE_SIZE is offered |
| `Preview.WellOverLimitDropped` | main.py:158-162 | a format more than a hundredth of a MiB over the limit is not offered |
| `Preview.OfferedFormats` | main.py:150-162 | every offered entry has a non-zero size and a rounded size of at most 500 MiB, and there are no more entries than formats |
| `Preview.OfferedFormatsConcat` | main.py:150-162 | filtering distributes over concatenation, so offered formats keep their relative order |
| `Preview.OfferedFormatsExact` | main.py:150-162 | each offered format appears in the list, and each entry of the list comes from an offered format |
| `Preview.CollectFormats` | main.py:150-162 | the appending loop returns exactly the filtered list |
| `Preview.PreviewOf` | main.py:147-171 | the payload has title, duration, uploader, thumbnail and description with the Python code's defaults, and the filtered formats |
| `Preview.GetVideoPreview` | main.py:133-174 | no payload iff the extractor returns nothing; otherwise exactly `PreviewOf` the metadata |
| `Preview.PreviewVideo` | main.py:176-192 | an absent or empty URL answers 400 "URL不能为空", a refused URL answers 400 "无效的URL", both before the extractor; an extractor failure answers 500; the answer is a success iff the URL is non-empty and allowed and the extractor returns metadata, and it then carries the full payload `PreviewOf` that metadata |
| `Download.DeclaredOversize` | main.py:240-242 | the pre-check rejects iff the first truthy of filesize and filesize_approx exceeds MAX_FILE_SIZE, and reports that size |
| `Download.DeclaredSizeBoundaries` | main.py:240-242 | a size equal to the limit passes; a zero filesize defers to filesize_approx |
| `Download.FirstOversize` | main.py:245-250 | none iff no format with the selected id has a truthy size over the limit; otherwise the size of the first such format |
| `Download.CheckSelectedFormat` | main.py:245-250 | the loop that stops at the first oversize match returns exactly `FirstOversize` |
| `Download.SizeCheck` | main.py:239-250 | a declared oversize is reported first, with its size; with `best` only the declared size counts; otherwise the first oversize format with the selected id is reported, with its size |
| `Download.BestIgnoresFormats` | main.py:245 | with the `best` selector the format list does not affect the checks |
| `Download.RecordOf` | main.py:267-275 | the catalog record carries the output file's name, its actual size and the download date |
| `Download.Session` | main.py:194-293 | a session sends `info` first, then only progress events, and ends with `complete` or `error`; the catalog changes only when it ends with `complete`; a deleted file leaves the catalog unchanged and ends with `error` |
| `Download.SessionRelaysProgress` | main.py:212-256 | once the size checks pass, the events are `info`, then the event of every progress report in order, then the final event |
| `Download.RejectedBeforeDownload` | main.py:240-253 | a failed size check sends only `info` and the error, before any progress event, and leaves the catalog unchanged |
| `Download.OversizeFileDiscarded` | main.py:260-265 | a downloaded file over the limit is never catalogued; it is deleted and reported with its size iff `os.remove` succeeds, and when removal raises the file stays and the session ends with that exception |
| `Download.CompletedSessionExtendsCatalog` | main.py:267-284 | a file within the limit ends with `complete`; its record has the file's name and actual size, and the catalog grows by exactly that record at the end |
| `Download.DownloadVideo` | main.py:212-293 | the step-by-step procedure yields exactly the events, catalog and deletion flag of `Session` |
| `Endpoint.Dispatch` | main.py:92-111 | an admitted message is never answered with the rate-limit error and a refused one always is; a session starts only for an admitted message whose URL passes the allow-list (`Endpoint.DispatchOrder` fixes every branch) |
| `Endpoint.DispatchOrder` | main.py:92-111 | the rate verdict is applied before the message is read; a missing key closes the channel; other actions are ignored; a refused URL is answered; a session starts iff an admitted download request's URL passes the allow-list |
| `Endpoint.EveryMessageSpendsQuota` | main.py:92-97 | within one window from a fresh client, messages 31 and later are refused whatever they ask, and the first 30 are handled on their own merits |
| `Endpoint.HandleMessage` | main.py:90-111 | one loop pass updates the rate table as `Admit` does and handles the message as `Dispatch` does |
| `Endpoint.Serve` | main.py:87-126 | the loop rate-checks every message in order, replaying `Admit`; it stops right after the first step that closes the channel |

## Left out

- The download semaphore (`MAX_CONCURRENT_DOWNLOADS`) and the unused `active_downloads` map: they only concern concurrency.
- Progress sends are spawned as tasks that are never awaited (`asyncio.create_task`). Events are modelled in the order they are produced; the order of delivery over the channel is not modelled.
- Transport and routing, also not modelled:
  - FastAPI routing, CORS, static mounts and templates;
  - the `home` view, which only renders the loaded catalog;
  - sending and receiving over the WebSocket. A disconnect is the end of the message sequence. A message that is not a JSON object is not modelled.
- The extractor (`yt_dlp`) is replaced by its answers as inputs:
  - metadata records;
  - the progress reports;
  - the base name of the output file, its size (`None` when `getsize` raises), and whether `os.remove` succeeds on it.
- An exception raised by the metadata-only extractor call is modelled like an empty answer: both end the session with the `NoVideoInfo` error, though the Python code sends the exception's own text in the first case.
- Filesystem I/O:
  - the JSON file is a value; unreadable covers malformed JSON and JSON that is not a list;
  - an empty JSON object or empty string, which the Python code would return as they are, is not modelled;
  - deletion is a flag;
  - a failing `unlink` that aborts a cleanup pass is not modelled, and neither is the 24-hour sleep between passes.
- Catalog.Append: a failed save leaves the file unchanged. A write that fails after the file has been truncated is not modelled.
- A JSON key whose value is `null` is modelled like a missing key. `dict.get(key, default)` would return `None` for it, not the default.
- Timestamps and mtimes are whole seconds, so sub-second precision is not modelled.
- A file's age is `now - mtime` in seconds. The Python code subtracts two naive local-time datetimes, so across a daylight-saving change its age differs from the model's by an hour.
- The progress `speed`, a video's `duration` and a format's `quality` are integers here, although the extractor may report them as floats. They are only copied through, so no decision depends on them.
- Error texts that format sizes in MiB are replaced by an error kind that carries the size in bytes. Logging, `setup_logger`, the `handle_errors` decorator (it logs and re-raises) and the port-probing loop are left out.
- Preview.WellOverLimitDropped: `round(size/1024/1024, 2)` is modelled as rounding the exact quotient to hundredths, ties to even. No claim is made about float rounding inside the hundredth of a MiB just above the limit.
- `urlparse` is not modelled: the network location is an input, `None` when parsing raises.
