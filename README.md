# Talos Intelligence feed processor — Dafny model

The feed processor downloads the Talos Intelligence IP block-list feeds, turns
each feed file into intelligence records (one per address line), and tracks,
per feed, which addresses are currently listed: addresses that leave the feed
are *exited*, addresses that appear (or reappear) are *entrants*, and the
entrants of each run are what the processor publishes.

This project models the core of that processor and proves what it guarantees:

- **Line parsing** (`pre_process`, module `Parser`, file `parser.dfy`): comment and blank
  lines are skipped, every other line is stripped and validated as an address,
  records keep line order and duplicates are kept. Address validation is a
  parameter `parse: string -> Option<string>` giving the canonical text of the
  address or network, or None. The Python string operations it relies on
  (`strip`, `splitlines`, `replace`, `startswith`, slicing) are in module `PyText`
  (`text.dfy`).
- **The transition engine** (`process`): module `Transitions` (`transitions.dfy`) states one
  run as functions (bootstrap, exit of absent keys, admission of entrants,
  `last_checked`) and proves the run's guarantees. Module `FeedStore` (`process.dfy`)
  is the imperative program: a `FeedState` class whose `records` map the
  steps update in place, a `StateStore` class behind `load`/`save`, and one
  method per step, each proved against the function that specifies it.
- **The download decisions** (`download_file`, module `Download`): the URL rewrite,
  the HEAD status classification, the cached file's name, and the size/ETag
  cache rules. HTTP and the cache directory are inputs.
- **`fetch`** (module `Fetch`): the disabled-feed gate and reading of the
  downloaded file.
- **`trace_tag`** (module `Trace`): argument validation, the length warnings and
  the forwarding of truncated tags in production.

Three behaviours of `process` are easy to misread, and the model keeps them
as the code has them:

- Step 1 calls `exit` for every stored key that is absent from the feed, even
  when its record is no longer current (src/app.py:70-76).
- The bootstrap records take `first_seen` from the parsed line's `last_seen` and
  have no entrances (src/app.py:53-66, `Transitions.BootstrapFromLastLine`).
- A bootstrap run reports no entrants (`Transitions.BootstrapYieldsNoEntrants`).

The URL rewrite is a single pass of each replacement. So ":80:80/" becomes
":80/", and the rewritten URL can still contain ":80/" (`Download.RewriteIsOnePass`).
A default port written once, before the path, is removed, and nothing else
changes (`Download.RewriteDropsDefaultPort`).

## Model

| member | source | states |
|---|---|---|
| PyText.SplitLines | src/app.py:17 | `splitlines()`: no more lines than characters, no line for empty text, and no line holds a line boundary |
| PyText.SplitLinesJoin | src/app.py:17 | putting the removed boundaries back between the lines gives the text again; there is one more line than boundaries exactly when the text does not end on a boundary, and as many otherwise |
| PyText.BreaksAreBoundaries | src/app.py:17 | every piece removed between lines is one line-break character or "\r\n" |
| PyText.CrLfCountsOnce | src/app.py:17 | "\r\n" is one boundary: a "\r" boundary is never followed by an empty line ended by "\n" |
| PyText.TrimIsTrimmedOf | src/app.py:20 | `strip` returns the slice of the text left once the leading and trailing run of stripped characters is removed, and that slice neither starts nor ends with such a character |
| PyText.TrimEmptyIffAllDropped | src/app.py:20-22 | a stripped line is empty exactly when every character of it is whitespace |
| PyText.TrimIdempotent | src/app.py:20-26 | stripping the address a second time changes nothing |
| PyText.Truncate | src/internals.py:132 | `s[:n]` is the prefix of `s` of length `min(len(s), n)`, so all of `s` when it is short enough |
| Parser.ParseLine | src/app.py:18-33 | a line yields a record exactly when it does not start with `#`, is not blank once stripped, and its stripped text validates; the record holds the canonical address, the clock reading and the category |
| Parser.ParseLines | src/app.py:17-33 | at most one record per line |
| Parser.Parse | src/app.py:15-17 | empty contents yield no records; never more records than lines |
| Parser.PreProcess | src/app.py:12-36 | the loop returns exactly the records of the lines of `contents`, in order |
| Parser.ParseLinesAppend | src/app.py:17-33 | parsing is line by line: the records of two blocks of lines are those of each block, concatenated in order |
| Parser.ParseLinesAt | src/app.py:17-33 | each line contributes its own record, or nothing, at its own position |
| Parser.ParsedFromCandidate | src/app.py:17-33 | every record comes from a line that is not a comment, not blank and that validates |
| Parser.DuplicatesKept | src/app.py:24-30 | a valid line given twice yields its record twice (no deduplication) |
| Parser.IndentedHashIsNotComment | src/app.py:18-22 | the comment test reads the raw line: "  #x" is handed to validation as "#x" |
| Transitions.Bootstrap | src/app.py:53-66 | the bootstrap records are one per feed key, filed under their key, all current, with no entrances and no exits |
| Transitions.BootstrapFromLastLine | src/app.py:55-66 | the record bootstrapped for an address holds the data of the last feed line with that address (a later duplicate wins), and its `first_seen` is that line's `last_seen` |
| Transitions.ExitAbsent | src/app.py:70-76 | step 1 keeps the set of keys, keeps every record under its own key and leaves every feed key's record untouched |
| Transitions.EnterFrame | src/app.py:79-98 | step 2 keeps every record, adds exactly the new feed keys, leaves every feed key current, and does not touch current records or keys missing from the feed |
| Transitions.EnterEntrants | src/app.py:79-98 | step 2's entrants have distinct keys, are exactly the feed keys that had no record or a record that was not current, and each equals the record left for its key |
| Transitions.EnterReentry | src/app.py:81-86 | a stored record that is not current and is in the feed becomes current with the run's time appended to its entrances |
| Transitions.EnterNewKey | src/app.py:87-97 | a feed key with no record gets a new record from its first feed line, with the run's time as its only entrance |
| Transitions.EnterAllCurrent | src/app.py:81-84 | when every feed key is stored and current, step 2 changes nothing and has no entrants |
| Transitions.BootstrapYieldsNoEntrants | src/app.py:53-98 | a run with no loaded state reports no entrants and saves the bootstrap records |
| Transitions.RunKeepsRecords | src/app.py:53-103 | a run drops no record: the saved keys are the starting keys plus the feed keys, every feed key is current, `last_checked` is the run's time and the URL is kept |
| Transitions.RunRecordOutcome | src/app.py:70-98 | for each stored key: absent from the feed means it went through `exit` whatever its current flag; in the feed and current means unchanged; in the feed and not current means current again with one more entrance and the same exits |
| Transitions.RunEntrants | src/app.py:79-98 | at most one entrant per key; the entrant keys are exactly the feed keys that were absent or not current; as many entrants as such keys |
| Transitions.RunNewKey | src/app.py:87-98 | a new key's record is current, first seen at the run's time, with one entrance, no exits and the data of a feed line for that key |
| Transitions.SecondRunIsQuiet | src/app.py:50-105 | running again on the same feed reports no entrants, keeps the same keys and leaves every feed key's record as it was, whatever effect `exit` has in either run |
| FeedStore.FeedState.constructor | src/app.py:51 | a new state for a feed's source and name holds no records |
| FeedStore.FeedState.Load | src/app.py:53 | `load` says whether a stored document exists and, when it does, takes its URL, records and `last_checked` |
| FeedStore.FeedState.Save | src/app.py:102 | `save` replaces this feed's stored document with the state and nothing else in the store |
| FeedStore.FeedState.Exit | src/app.py:76 | `exit(key)` changes that key's record only |
| FeedStore.BootstrapStep | src/app.py:53-66 | the loop sets the URL and builds exactly the bootstrap records |
| FeedStore.ExitStep | src/app.py:70-76 | the loop calls `exit` once for each stored key missing from the feed index and for no other key, and leaves the records of step 1 |
| FeedStore.EntranceStep | src/app.py:79-98 | the loop leaves the records and entrants of step 2, in feed order |
| FeedStore.Process | src/app.py:50-105 | the run saves exactly the document of one run (from the loaded or bootstrapped state), once, returns its entrants, and calls `exit` once per stored key missing from the feed |
| Download.RewriteDropsDefaultPort | src/internals.py:138 | a ":80" or ":443" port written once before the path is removed, and nothing else changes |
| Download.RewriteIsOnePass | src/internals.py:138 | the rewrite is one pass: ":80:80/" becomes ":80/", which still contains ":80/" |
| Download.RequestDropsDefaultPort | src/internals.py:138-146 | for a URL whose only default port precedes the path, the HEAD request goes to the URL without the port and verifies TLS exactly when the scheme is "https" |
| Download.StatusPassesOnLeadingTwo | src/internals.py:147 | the status test passes exactly the non-negative codes whose first decimal digit is 2 |
| Download.StatusClasses | src/internals.py:147-155 | for three-digit codes: 2xx proceeds; 403 also goes on to download; 404 and every other code give up |
| Download.FallbackName | src/internals.py:161-162 | the fallback name exists exactly for an ASCII URL; it is the url-safe base64 of the URL with exactly its leading and trailing '=' removed, followed by ".txt" |
| Download.DestFile | src/internals.py:158-162 | the file name is never empty; it is the disposition name when that is not empty and the fallback name when the header is absent or its name is empty; the encoding error happens exactly when the fallback is needed for a non-ASCII URL |
| Download.QuotedNameUnwrapped | src/internals.py:159-160 | `attachment;filename="name"` yields `name` |
| Download.BareNameKept | src/internals.py:159-160 | a disposition value with no quotes and no attachment prefix is used as it is |
| Download.Decide | src/internals.py:147-198 | give up exactly on statuses that stop the download; the encoding error exactly when the download goes on and no file name can be made; the cache answers exactly when the download goes on, a name exists and the size or the ETag hits at its cached path; a GET exactly when neither hits, with the same request as HEAD and an etag to write exactly when a non-empty ETag was sent |
| Download.DiskAfter | src/internals.py:194-198 | a GET writes the body to the cached path and the ETag to the etag file when there is one, and every other file is unchanged; no other decision writes |
| Download.SecondDownloadIsCached | src/internals.py:167-198 | after a GET with an ETag (or a matching positive size), the same HEAD response is answered from the cache |
| Trace.StrPairs | src/internals.py:119-123 | the validated dictionary's pairs as strings, in dictionary order |
| Trace.Tag | src/internals.py:132 | a forwarded tag's key is the prefix of length `min(len, 50)` of the key and its value the prefix of length `min(len, 70)` of the value; short pairs are forwarded unchanged |
| Trace.TraceTag | src/internals.py:118-132 | ValueError exactly when the argument is not a dictionary of strings to strings; otherwise the length warnings in order, and the truncated pairs forwarded only in the AWS runtime with `APP_ENV` "Prod" |
| Trace.WarnedIffCut | src/internals.py:124-132 | no warning is logged exactly when forwarding would cut nothing |
| Trace.WarningsShowLongPairs | src/internals.py:124-128 | every warning shows the value of a pair over a limit, at most two warnings per pair |
| Fetch.ReadStepAsWritten | src/app.py:44-47 | as written, every download that gives up raises AttributeError, and only those |
| Fetch.ReadStepFor | src/app.py:44-47 | as intended, only the file-name encoding error raises; a download that gave up yields no text |
| Fetch.Fetch | src/app.py:39-47 | a disabled feed yields no records and downloads nothing; otherwise the download decision is applied to the cache directory and, with the corrected read step, the downloaded or cached file, when it exists, is parsed with the feed name as the category |
| Fetch.NotFoundCrashesFetch | src/app.py:44-45 | a 404 makes the download give up, the code as written raise, and the intended code yield nothing |
| Fetch.DownloadedBodyIsRead | src/app.py:44-46 | after a GET, the body just written is the text that is parsed |
| Fetch.EtagHitWithoutFile | src/internals.py:178-185 | an ETag match answers from the cache even when the cached file is gone, and the feed then yields no records |

## Left out

- HTTP, the disk and telemetry are inputs. The HEAD response is a `Head` value and the cache directory a `Disk` value. The GET body is a parameter. Logging, `report_error` and `add_execution_tag` calls are not emitted; `trace_tag`'s warnings and tags are returned instead.
- The GET response's status is not checked by the source; the model writes whatever body text it is given.
- Header lookup is case-insensitive in the HTTP library; the model's `Head` holds the looked-up values. `Content-Length` is an integer (0 when absent); `int()` failing on a malformed header is not modelled.
- `path.getsize` failing between the existence test and the size read (ENOENT gives size 0, other errors re-raise) is not modelled; an existing file has the byte size `byteSize` gives for its text.
- url-safe base64, UTF-8 byte sizes and address parsing (pydantic and `ipaddress`) are parameters. The model assumes nothing about them.
- The retry decorator on socket errors, `DelayRetryHandler`, the `handler` entry point (S3 snapshot, SQS publishing), the DynamoDB `TalosIntelligence.load/save/delete`, `JSONEncoder`, `post_beacon` and `src/config.py` are not part of this model. They are storage, messaging and configuration around the core.
- Record construction: `pre_process` passes `category=` to a model whose shown definition requires other fields. The model abstracts this as "a valid address gives a record holding the canonical address, the time and the category".
- FeedStore.FeedState.Exit: the body of `FeedState.exit` is not in the source. Its effect on one record is the parameter `exitRecord`, and the model assumes that it keeps the record in the map under its own key, that it changes no other record, the URL or `last_checked`, and that the same effect applies on every call. No property about `current` or `exits` after an exit is claimed.
- Fetch.Fetch: models `fetch` with the corrected read step `Fetch.ReadStepFor` (a download that gave up yields no records); the code as written raises there, which `Fetch.ReadStepAsWritten` and `Fetch.NotFoundCrashesFetch` state.
- Download.CachePath: the cached path is the directory, "/" and the file name joined as text. A disposition name holding "/" or ".." names a file outside the cache directory; file-system path resolution is not modelled, and the disk is a map from path text to contents.
- FeedStore.StateStore.Valid: documents loaded from the store are assumed to file every record under its own key (`KeysConsistent`); the store is not shown, and every document the model saves keeps this.
- FeedStore.ExitStep: the order of the `exit` calls follows dictionary iteration order in the source. The model states which keys are exited, each exactly once, but not their order.
- FeedStore.FeedState.constructor: the source's default URL of a new `FeedState` is not shown; the model starts from an empty URL, which `load` or the bootstrap always replaces before saving.
- Clock reads: the source reads the clock separately for each parsed line, each new record's `first_seen`, each entrance and `last_checked`. The model uses one reading, `now`, per call.
- `FeedStateItem` objects are shared between `state.records` and the returned entrants in the source. The model uses values; nothing mutates them after they are returned, so the difference is not observable.
- `FeedState` persistence: `load` and `save` go to a store that is not shown. The model is a map from (source, feed name) to the saved document.
- `fetch` exceptions other than the two modelled ones (network errors, read errors) are not modelled.

## Findings

| source | as written | input that shows it | evidently intended | confidence | as-written member | corrected member |
|---|---|---|---|---|---|---|
| src/app.py:44-45 | `download_file` returns None for 404 and for every status other than 2xx and 403 (src/internals.py:150-155). `fetch` then calls `.exists()` on that None, and nothing in `handler` catches the AttributeError, so the remaining feeds of the batch are not processed | an enabled feed whose HEAD request answers 404 (`Fetch.NotFoundCrashesFetch`) | a download that gave up yields no records, like a missing file (`download_file` is annotated as returning an optional path) | high; not executed | Fetch.ReadStepAsWritten | Fetch.ReadStepFor |
