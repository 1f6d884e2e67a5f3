# rescan, modelled in Dafny

rescan watches the directories of a Plex media server and asks the server to
rescan just the affected directory when media files appear or change. This
project models its three pieces of sequential logic and proves what they do.

- **The event filter and the debounce queue** of `src/main.py` are modelled
  in `events.dfy` (module `Events`) and `coalescer.dfy` (module `Coalescer`).
  - `RescanEventHandler` decides which filesystem events count; they are
    created, modified or moved events on a non-directory with a media suffix.
  - For such an event whose path a library owns, it asks the
    `BatchScanManager` for a scan of the file's directory.
  - The manager keeps one pending entry per `library_key:parent_dir` key, in
    the dictionary's insertion order. The entry carries the time of the
    latest notification for that key.
  - A processor pass emits, in that order, the entries quiet for at least the
    delay, and keeps the rest.
  - Shutdown emits everything still pending.
  - The worker thread is the flag `workerRunning` and `stop_event` is the
    flag `stopRequested`. Time is an integer `now` passed in by the caller.
- **Library resolution and start-up reconciliation** of `src/plex.py` are
  modelled in `library.dfy`, `reconcile.dfy` and `plex_client.dfy` (modules
  `Library`, `Reconcile`, `PlexClient`).
  - The modelled operations are the first-match prefix lookup of a file's
    library, the title maps and the type filter.
  - Also modelled: the flattening of a section's show/episode/media/part
    tree (or movie/media/part tree) into known-file rows, and the start-up
    walk. The walk requests a scan for every media, non-dot-file walked file
    whose library is found and whose `(key, path)` pair is not yet known.
  - The server is a snapshot of its sections, or none when connecting failed.
  - `send_scan_request` appends to the log `sent` of requests that took
    effect. A request of the set `rejects` stands for one the server answers
    with an API error, which is caught and logged. A request of the set
    `raises` stands for one whose update raises some other error, which
    reaches the caller.
  - The batch loop and shutdown catch that error per entry and go on.
    `full_scan` has one handler around the whole walk, so the first such
    error ends the walk (`Library.BeforeRaise`).
  - The filesystem walk is an input: for each configured path, whether it
    exists and what `os.walk` yields below it.
- **The known-file table** of `src/database.py` is modelled in
  `known_files.dfy` (module `KnownFiles`).
  - It is the row list of a table whose `file_path` column is unique, filled
    by `INSERT OR IGNORE`.
  - It models that uniqueness is on the path alone, while the start-up lookup
    asks for the pair.

`paths.dfy` (module `Paths`) holds the pathlib operations the core uses:
`name`, `parent`, `suffix`, the `/` join and ASCII `lower()`. Paths are
`/`-separated strings. `worker_race.dfy` (module `WorkerRace`) is the
hand-off between an add and a worker that is about to end (see "Findings").
`wrappers.dfy` and `sequences.dfy` hold an `Option` type and a few facts
about sequences.

The pending dictionary is a map together with the sequence of its keys in
first-insertion order. Re-assigning a key keeps its place, as in a Python
dict. The known-file table is a sequence of rows, not a map. This way the
uniqueness of paths is an invariant that is proved, rather than something
the representation enforces.

## Model

| member | source | states |
|---|---|---|
| Coalescer.Record | src/main.py:34-40 | the add of one notification: its key's entry becomes a record with the current time, a new key going last in the order; its properties are stated by `RecordSpec` and `RecordAllIsLastRecord` |
| Coalescer.ScanKey | src/main.py:34 | the dictionary key `f"{library_key}:{parent_dir}"`; stated by `ScanKeyInjective` and `ScanKeyCollision` |
| Coalescer.ScanKeyInjective | src/main.py:34 | for library keys without ':', two composite keys are equal exactly when both library key and directory are equal |
| Coalescer.ScanKeyCollision | src/main.py:34 | with a ':' inside a library key, two different (key, directory) pairs share one dictionary entry |
| Coalescer.RecordSpec | src/main.py:34-40 | an add sets its key's entry to a record with the current time, leaves every other key and entry as it was, grows the dictionary by at most one key, never reorders existing keys, and keeps the dictionary well formed |
| Coalescer.RecordKeepsWellFormed | src/main.py:38-40 | after an add the key order is still duplicate-free, lists exactly the map's keys, and every entry sits under its own key |
| Coalescer.RecordGrowsByAtMostOne | src/main.py:38-40 | an add makes the dictionary at most one key larger |
| Coalescer.RecordAllIsLastRecord | src/main.py:37-40 | any burst of adds for one key leaves the same dictionary as the latest add alone: one entry, carrying the latest time |
| Coalescer.IsReady | src/main.py:56 | an entry is ready when `now - timestamp >= delay`; used by `DrainSpec` and `HeldWhileBusy` |
| Coalescer.ReadyOf | src/main.py:55-58 | the ready entries of the listed keys, in key order; stated by `ReadyOfMembers` and `ReadyOfDistinct` |
| Coalescer.KeptOf | src/main.py:55-58 | the listed keys whose entries are not ready, in key order; stated by `KeptOfMembers` and `KeptOfDistinct` |
| Coalescer.Drain | src/main.py:54-58 | one pass over the dictionary in key order, splitting it into the ready entries and the dictionary left; its properties are stated by `DrainSpec`, `DrainAgainEmitsNothing` and `EmittedOnceWhenQuiet` |
| Coalescer.ReadyOfMembers | src/main.py:54-57 | the scans a pass takes out are exactly the ready entries of keys in the order |
| Coalescer.KeptOfMembers | src/main.py:54-58 | the keys a pass keeps are exactly the listed keys whose entries are not ready |
| Coalescer.ReadyKeptCount | src/main.py:54-58 | every listed key goes either to the emitted list or to the kept order |
| Coalescer.ReadyOfDistinct | src/main.py:54-57 | with duplicate-free keys, no entry is emitted twice in a pass |
| Coalescer.KeptOfDistinct | src/main.py:54-58 | the kept order stays duplicate-free |
| Coalescer.DrainSpec | src/main.py:51-58 | one pass emits exactly the entries with `now - timestamp >= delay`, each once; it keeps exactly the others, unchanged and well formed; the counts add up |
| Coalescer.DrainAgainEmitsNothing | src/main.py:51-58 | a second pass at the same time emits nothing |
| Coalescer.NoneReadyEmitsNothing | src/main.py:54-58 | when no listed entry is ready, a pass emits nothing |
| Coalescer.EmittedOnceWhenQuiet | src/main.py:51-58 | an entry that is ready is emitted, at exactly one position, and its key leaves the dictionary |
| Coalescer.Flush | src/main.py:78-80 | the entries shutdown takes out, in dictionary order; its properties are stated by `FlushSpec` |
| Coalescer.Requests | src/main.py:60-65 | the send loops' `(library_key, parent_dir)` calls, one per entry (also 83-87); stated by `RequestsOfEntries` |
| Coalescer.RequestsOfEntries | src/main.py:60-65 | the send loop issues one request per entry, for that entry's library key and directory, in the entries' order |
| Coalescer.SendFailureIsolated | src/main.py:60-67 | a failing send never keeps another entry's request from taking effect: an entry's request takes effect exactly when there is a server and that request does not fail, whether by an API error or by another error |
| Coalescer.FlushSpec | src/main.py:78-80 | shutdown takes out every entry, each exactly once, whatever its age |
| Coalescer.ScansOf | src/main.py:79 | `list(values())`: the entries of the listed keys, in key order; stated by `ScansOfSpec` |
| Coalescer.ScansOfSpec | src/main.py:79 | `list(values())` lists each entry of the listed keys once, as many as there are keys |
| Coalescer.HeldWhileBusy | src/main.py:37-58 | while adds for a key keep coming less than the delay apart, no pass in any sequence of adds and passes emits that key |
| Coalescer.BatchScanManager.constructor | src/main.py:22-30 | a new manager has an empty dictionary, no worker and no stop request |
| Coalescer.BatchScanManager.AddScanRequest | src/main.py:32-47 | the dictionary becomes the add of the notification at `now`; afterwards a worker is alive; one was started exactly when none was alive; the invariant "a pending entry has a worker unless stopped" is kept |
| Coalescer.BatchScanManager.BatchPass | src/main.py:50-73 | with the stop flag set the worker exits and nothing changes; otherwise the dictionary becomes what the pass keeps, the ready entries' requests are issued in order, and the worker goes on exactly when the dictionary is not empty |
| Coalescer.BatchScanManager.TakeReady | src/main.py:54-58 | the locked loop returns exactly the ready entries in dictionary order and leaves exactly the pass's remaining dictionary, keys still in order |
| Coalescer.BatchScanManager.SendAll | src/main.py:60-67 | each entry's request is sent in order; an error a send raises is caught and the loop goes on; the log grows by the requests that take effect |
| Coalescer.BatchScanManager.Shutdown | src/main.py:75-89 | the stop flag is set, the dictionary is left empty, and every remaining entry's request is issued once, in order, whatever its age |
| Events.ShouldProcessEvent | src/main.py:102-112 | the three tests of `_should_process_event` in their order, with `_is_media_file` as the first; what it accepts is stated by `ShouldProcessEventExactly` |
| Events.EventScan | src/main.py:114-125 | the scan `on_any_event` asks for, if any: the owning library's key with the parent of the source path; stated by `EventScanOfFileInDirectory` and `EventScanOwner` |
| Events.ShouldProcessEventExactly | src/main.py:102-112 | an event is acted on exactly when its lower-cased suffix is a media extension, it is not a directory, and its type is created, modified or moved; deletions and directory events never are |
| Events.EventScanOfFileInDirectory | src/main.py:114-125 | for an event on `name` inside `dir`, the decision depends only on the name, the type and the directory flag; a scan is asked for exactly when the event is acted on and a library owns the path; the scan is for `dir` under the owner's key; a move's destination plays no part |
| Events.EventScanOwner | src/main.py:120-125 | an acted-on event asks for no scan exactly when no location of any library is a prefix of its path, and otherwise uses the key of the first owning library |
| Events.DotFileQueuedButNotReconciled | src/main.py:105-112 | the live handler queues an acted-on dot-file that a library owns, while the start-up decision for the same path sends nothing |
| Events.RescanEventHandler.constructor | src/main.py:96-100 | the handler holds the extensions and the client, and a fresh manager with a 30-second delay, empty and without a worker |
| Events.RescanEventHandler.OnAnyEvent | src/main.py:114-125 | an event that asks for a scan is added to the manager at `now`, and a worker is then alive; any other event leaves the manager untouched |
| Events.RescanEventHandler.Shutdown | src/main.py:127-129 | the manager's shutdown: stop flag set, dictionary emptied, every remaining request issued once, and the worker flag unchanged (the worker may outlive the call) |
| WorkerRace.AsWrittenStrandsEntry | src/main.py:43-71 | as written, from a state where every pending scan has a worker, a pass that empties the dictionary, an add before the worker has returned, and the return leave a pending scan with no worker |
| WorkerRace.CorrectedNeverStrands | src/main.py:43-71 | with the decision to stop and the end of the worker made one atomic step, no interleaving of adds, passes and returns ever leaves a pending scan without a live worker |
| WorkerRace.CorrectedStepKeepsCovered | src/main.py:43-71 | each corrected step keeps every pending scan covered by a live worker |
| Library.BeforeRaise | src/plex.py:148-188 | the requests a loop without a per-request handler sends: those before the first one that raises; stated by `BeforeRaiseSpec` |
| Library.BeforeRaiseSpec | src/plex.py:148-188 | what is sent is a prefix of the requests in which nothing raises, and it is either all of them or stops just before one that raises |
| Library.BeforeRaiseNone | src/plex.py:148-188 | when nothing raises, every request is sent |
| Library.BeforeRaiseAppend | src/plex.py:150-182 | sending `a` then `b` without a handler between them: all of `a` and then what `b` sends when nothing in `a` raises, otherwise only what `a` sends |
| Library.BeforeRaiseStops | src/plex.py:185-188 | once a request in `a` raises, nothing after `a` is sent |
| Library.NoneRaiseAppend | src/plex.py:150-182 | a concatenation has no raising request exactly when neither half has one |
| Library.RaiseStopsOnlyTheStoppingLoop | src/plex.py:148-188 | for a raising request in the middle of a list, `full_scan`'s way of sending delivers only what comes before it, while the batch loop's way (src/main.py:61-67) also delivers everything after it |
| Library.Delivered | src/plex.py:97-109 | what a sequence of sends takes effect as: nothing without a server, otherwise each request that does not fail; stated by `DeliveredExactly` and `DeliveredAppend` |
| Library.DeliveredAppend | src/plex.py:97-109 | sending two lists one after the other has the effect of each, in that order |
| Library.DeliveredExactly | src/plex.py:97-109 | a request takes effect exactly when there is a server, it was sent, and it does not fail; never more effects than requests |
| Library.Owns | src/plex.py:90-92 | a section owns a path when one of its locations is a string prefix of it (`file_path.startswith(location)`); used by `FindLibraryByPathSpec` |
| Library.FindLibraryByPath | src/plex.py:87-95 | the first section, in list order, with a location that is a string prefix of the path; stated by `FindLibraryByPathSpec` |
| Library.FindLibraryByPathSpec | src/plex.py:87-95 | a found section owns the path (one of its locations is a string prefix of it), and no earlier section does; nothing is found exactly when no section owns the path |
| Library.ByTitle | src/plex.py:75-81 | a `{section.title: ...}` dict comprehension over the sections in order; stated by `ByTitleKeys`, `ByTitleLastWins` and `ByTitleSpec` |
| Library.ByTitleKeys | src/plex.py:75-81 | a title map has exactly the sections' titles as keys |
| Library.ByTitleLastWins | src/plex.py:75-81 | for a duplicated title the map holds the value of the last section with that title |
| Library.ByTitleSpec | src/plex.py:75-81 | keys are exactly the titles, and each title maps to the value of its last section |
| Library.GetLibraryIds | src/plex.py:75-77 | every section title maps to a key, and to the key of the last section with that title; nothing else is mapped |
| Library.GetLibraryLocations | src/plex.py:79-81 | every section title maps to locations, and to those of the last section with that title; nothing else is mapped |
| Library.GetLibrariesByType | src/plex.py:83-85 | the result holds exactly the sections of the given type, and is no longer than the input |
| Library.LibrariesByTypeAppend | src/plex.py:83-85 | filtering distributes over concatenation, so the kept sections stay in their original relative order |
| Library.LibrariesByTypeIdempotent | src/plex.py:83-85 | filtering by type twice is filtering once |
| Library.SectionInfos | src/plex.py:43-66 | without a server there are no sections; otherwise one descriptor per server section, in the server's order |
| Library.SectionById | src/plex.py:117 | a found section has that key; nothing is found exactly when no section has that key |
| Library.SectionInfosAgreeWithSectionById | src/plex.py:43-66 | the descriptors read at start-up list a key exactly when `sectionByID` finds a section by it, and the section found is among them |
| Library.PartRows | src/plex.py:126-128 | the `(key, part.file)` rows of the parts with a file, in order; stated by `PartRowsExactly` |
| Library.MediaRows | src/plex.py:125-128 | the part rows of each media in turn; stated by `MediaRowsExactly` |
| Library.EpisodeRows | src/plex.py:124-128 | the media rows of each episode in turn; stated by `EpisodeRowsExactly` |
| Library.ShowRows | src/plex.py:122-128 | the episode rows of each show in turn; stated by `ShowRowsExactly` |
| Library.MovieRows | src/plex.py:129-133 | the media rows of each movie in turn; stated by `MovieRowsExactly` |
| Library.PartRowsExactly | src/plex.py:126-128 | the rows of a list of parts are exactly `(key, file)` for every part with a non-empty file |
| Library.MediaRowsExactly | src/plex.py:125-128 | the rows of a list of media are exactly those of their parts |
| Library.EpisodeRowsExactly | src/plex.py:124-128 | the rows of a list of episodes are exactly those of their media's parts |
| Library.ShowRowsExactly | src/plex.py:122-128 | the rows of a show section are exactly those of the parts of every episode of every show |
| Library.MovieRowsExactly | src/plex.py:129-134 | the rows of a movie section are exactly those of the parts of every media of every movie |
| Library.LibraryRows | src/plex.py:120-134 | the rows of a section: the show branch for a `show` section, the movie branch otherwise; stated by `ShowRowsExactly` and `MovieRowsExactly` |
| Reconcile.FileRequest | src/plex.py:164-178 | the decision for one walked path: a request for the owner's key and the path, or none; stated by `FileRequestIsWanted` |
| Reconcile.RootRequests | src/plex.py:150-182 | the requests of the whole walk, library path by library path; stated by `RootRequestsExactly`, `RootRequestsDistinct` and `MissingRootSkipped` |
| Reconcile.Wanted | src/plex.py:164-178 | a request is wanted when its path has a media suffix, is not a dot-file, is owned by the library of the request's key and that pair is not known; stated by `FileRequestIsWanted` |
| Reconcile.FileRequests | src/plex.py:161-178 | the requests for one walk entry's files, joined to its root, in order; stated by `FileRequestsExactly` and `FileRequestsDistinct` |
| Reconcile.EntryRequests | src/plex.py:160-178 | the requests for one library path's walk entries, in order; stated by `EntryRequestsExactly` and `EntryRequestsDistinct` |
| Reconcile.FileRequestIsWanted | src/plex.py:164-178 | the decision for one path sends a request exactly when its suffix is a media extension, its name is not a dot-file, a library owns it, and the pair of that library's key and the path is not known; the request is for that key and path |
| Reconcile.FileRequestsExactly | src/plex.py:161-178 | the requests for one walk entry are exactly the wanted requests for its files joined to the root |
| Reconcile.EntryRequestsExactly | src/plex.py:160-178 | the requests for one library path are exactly the wanted requests for the files its walk yields |
| Reconcile.RootRequestsExactly | src/plex.py:150-182 | the start-up scan requests a file exactly when the walk of an existing library path reaches it and it is wanted |
| Reconcile.NeverRequestsKnownOrUnowned | src/plex.py:167-182 | no request is for a file recorded under its library's key, nor for a file no library owns |
| Reconcile.RootRequestsAppend | src/plex.py:150-156 | the requests of two lists of library paths are those of each, in order |
| Reconcile.MissingRootSkipped | src/plex.py:150-156 | a library path that does not exist contributes nothing, and the paths after it are still scanned |
| Reconcile.SingleMissingRoot | src/plex.py:152-156 | a single library path that does not exist yields no request |
| Reconcile.FileRequestsAppend | src/plex.py:161-178 | the requests of two lists of files are those of each, in order |
| Reconcile.EntryRequestsAppend | src/plex.py:160-178 | the requests of two lists of walk entries are those of each, in order |
| Reconcile.RootRequestsOnPaths | src/plex.py:150-182 | every request is for a path the walks of the existing library paths reach |
| Reconcile.FileRequestsDistinct | src/plex.py:161-178 | when one entry's walked paths are all different, no request for them occurs twice |
| Reconcile.EntryRequestsDistinct | src/plex.py:160-178 | when one library path's walked paths are all different, no request for them occurs twice |
| Reconcile.RootRequestsDistinct | src/plex.py:150-182 | when the walks reach no path twice, the start-up scan sends no request twice: at most one per file |
| Reconcile.NestedRootsWalkTwice | src/plex.py:150-160 | for a configured path nested in another, the outer walk passes through the inner directory and both walks are made in full, so the inner walk's requests come twice |
| Reconcile.NestedRootsRequestTwice | src/plex.py:150-160 | for a nested configured path, every requested file of the inner path is requested at least twice, so the requests are not distinct |
| PlexClient.CollectParts | src/plex.py:126-128 | the loop appends exactly the part rows, in order |
| PlexClient.CollectMedia | src/plex.py:125-128 | the loop appends the rows of every media's parts, in order |
| PlexClient.CollectEpisodes | src/plex.py:124-128 | the loop appends the rows of every episode's media, in order |
| PlexClient.CollectShows | src/plex.py:122-128 | the show branch collects the rows of every episode of every show, in traversal order |
| PlexClient.CollectMovies | src/plex.py:129-134 | the movie branch collects the rows of every media of every movie, in traversal order |
| PlexClient.Plex.constructor | src/plex.py:20-30 | the client keeps the connection and the server's failure sets, and builds the section descriptors and both title maps from it; nothing has been sent |
| PlexClient.Plex.Failures | src/plex.py:97-109 | a request fails when the server answers it with an API error or its update raises another error; used by `Issued` |
| PlexClient.Plex.Raising | src/plex.py:106-109 | the failing requests whose error is not the API error caught at 108, so it reaches the caller; used by `SendScanRequest` |
| PlexClient.Plex.Issued | src/plex.py:97-109 | the requests of a sequence of sends that take effect, each failure caught by the caller; stated by `Library.DeliveredExactly` |
| PlexClient.Plex.SendScanRequest | src/plex.py:97-109 | without a server nothing is sent and nothing raised; otherwise the request takes effect unless it fails; an API error is caught, any other error is reported to the caller as `raised` |
| PlexClient.Plex.CacheLibraryFiles | src/plex.py:111-141 | without a server, or when no section has the key, the table is unchanged; otherwise the section's rows, from the branch chosen by the section's type, are inserted with insert-or-ignore |
| PlexClient.Plex.FullScan | src/plex.py:143-188 | the log grows by the requests the reconciliation decision yields for the walk, in walk order, up to the first one whose send raises an error other than the API error, after which nothing more is sent; with no server, nothing |
| PlexClient.Plex.SentStep | src/plex.py:148-188 | one step of a send loop without its own handler: the log after the step is that of the requests so far; after a step that raised, it is what the whole list sends |
| PlexClient.Plex.ScanWalk | src/plex.py:160-182 | the `os.walk` loop of one library path issues that path's requests in order, up to the first one that raises; `raised` says whether one did |
| PlexClient.Plex.ScanFiles | src/plex.py:161-182 | the loop over one walk entry's files issues their requests in order, up to the first one that raises; `raised` says whether one did |
| PlexClient.Plex.ScanFile | src/plex.py:162-182 | one walked file issues the request the decision yields for it, or nothing; `raised` exactly when that request raises |
| KnownFiles.Contains | src/plex.py:169-172 | the `SELECT 1 ... WHERE library_key = ? AND file_path = ?` lookup finds a row with that pair; stated by `LookupIsByPairNotPath` |
| KnownFiles.UniquePaths | src/database.py:29 | the `UNIQUE` constraint on `file_path`: no two rows share a path; kept by `InsertKeepsUnique` |
| KnownFiles.InsertOne | src/database.py:46-50 | one `INSERT OR IGNORE` row: dropped when its path is present under any key, appended otherwise; stated by the `Insert*` lemmas |
| KnownFiles.InsertOrIgnore | src/database.py:46-52 | `INSERT OR IGNORE` of a batch, row by row, on a table whose paths are unique; stated by the `Insert*` lemmas below |
| KnownFiles.InsertKeepsRows | src/database.py:46-52 | an insert never modifies or removes an existing row: the old table is a prefix of the new one |
| KnownFiles.InsertAddsOnlyBatchRows | src/database.py:46-52 | every row after an insert was there before or comes from the batch |
| KnownFiles.InsertCoversBatch | src/database.py:46-52 | after an insert, every path of the batch is in the table |
| KnownFiles.InsertKeepsUnique | src/database.py:26-31 | starting from distinct paths, an insert leaves no two rows with the same path |
| KnownFiles.ExistingPathIgnored | src/database.py:46-52 | for a path already in the table, the pairs recorded for it are the same after the insert |
| KnownFiles.FirstPairWins | src/database.py:46-52 | for a new path repeated in one batch, the first pair is stored and no other key is recorded for it |
| KnownFiles.NewPathStaysAbsent | src/database.py:46-52 | a path neither in the table nor in the batch is still absent after the insert |
| KnownFiles.InsertOfPresentPathsIsNoop | src/database.py:46-52 | a batch whose paths are all present changes nothing |
| KnownFiles.InsertIdempotent | src/database.py:46-52 | inserting the same batch twice leaves the table that inserting it once leaves |
| KnownFiles.LookupIsByPairNotPath | src/plex.py:169-172 | a path stored under one key is not found for another key, even though the insert of the other pair was ignored |
| KnownFiles.DatabaseManager.constructor | src/database.py:15-32 | a connected or failed manager starts with an empty table |
| KnownFiles.DatabaseManager.InsertPlexLibraryFiles | src/database.py:40-52 | connected, the table becomes the insert-or-ignore of the batch; not connected, it is unchanged; paths stay unique |
| KnownFiles.DatabaseManager.IsCached | src/plex.py:169-172 | the lookup answers exactly whether the pair of key and path is a row of the table |
| Paths.Name | src/plex.py:166 | `Path.name`: what follows the last separator; stated by `NameSpec` |
| Paths.Parent | src/main.py:122 | `Path.parent`: what precedes the last separator, `.` without one, `/` for a top-level entry; stated by `JoinParentName` and `ParentNameOfJoin` |
| Paths.Suffix | src/main.py:103 | `Path.suffix`: the name's last dot and what follows, empty for a name without a dot or whose last dot starts or ends it; stated by `SuffixSpec` (shape), `SuffixOfExtension` (`stem.ext`), `NoInnerDotNoSuffix` (no dot after the first character) and `TrailingDotNoSuffix` (last dot ends the name) |
| Paths.Join | src/plex.py:162 | `Path(root) / file`: a separator between the two unless the directory already ends in one; stated by `ParentNameOfJoin` |
| Paths.IsMediaFile | src/main.py:102-103 | a media file is one whose lower-cased suffix is a configured extension; stated by `JoinedFileClassifiedByName` and `DotExtensionIsNotMedia` |
| Paths.IsHidden | src/plex.py:166 | `file_path.name.startswith(".")`: the name's first character is a dot; stated by `JoinedFileClassifiedByName` |
| Paths.Lower | src/main.py:103 | `lower()` on ASCII letters, character by character; stated by `LowerKeepsDot` |
| Paths.NameSpec | src/plex.py:166 | a path's name has no separator, ends the path, and is preceded by a separator when shorter than the path |
| Paths.SuffixSpec | src/main.py:103 | a suffix is empty, or a dot, at least one character and no further dot; it never holds a separator |
| Paths.SuffixEndsPath | src/main.py:103 | the suffix ends the path |
| Paths.SuffixOfExtension | src/main.py:103 | a file `stem.ext` in a directory, `ext` non-empty and without dots, has suffix `.ext`, whatever dots the stem holds |
| Paths.NoInnerDotNoSuffix | src/main.py:103 | a name with no dot after its first character has an empty suffix |
| Paths.TrailingDotNoSuffix | src/main.py:103 | a name ending in a dot, such as `movie.mkv.`, has an empty suffix |
| Paths.MediaFileByExtension | src/main.py:102-103 | a file `stem.ext` is a media file exactly when `.ext`, lower-cased, is a configured extension |
| Paths.LowerKeepsDot | src/main.py:103 | lower-casing `.ext` gives `.` followed by the lower-cased `ext` |
| Paths.JoinParentName | src/plex.py:162 | joining a normal path's parent and name gives the path back |
| Paths.ParentNameOfJoin | src/plex.py:162 | the parent of `dir / name` is `dir` and its name is `name` |
| Paths.JoinedFileClassifiedByName | src/plex.py:162-166 | whether `dir / name` is a media file or a dot-file depends on the name alone |
| Paths.DotExtensionIsNotMedia | src/main.py:103 | a file named just `.mkv` has no suffix, so it is never a media file |

## Left out

- Threads are left out: the lock, `is_alive`, `join(timeout=5)`, `time.sleep(1)` and daemon status. The worker thread is a flag. `AddScanRequest` and `Shutdown` are each one atomic step. `BatchPass` makes a whole loop iteration (src/main.py:50-73) one atomic step: both locked blocks (54-58, 69-71) and the unlocked send loop between them (60-67). So no add can come between the pass taking out its entries and its emptiness check. The hand-off race between an add and a worker about to end is modelled separately in `WorkerRace`, and the class uses the corrected semantics.
- `time.time()` returns a float. The model uses integer seconds supplied by the caller.
- The Plex API is not modelled (`PlexServer`, `sections()`, `sectionByID(...).update(...)`). The server is a snapshot of its sections. Whether a request fails is fixed by the sets `rejects` and `raises`, not a per-call outcome.
- Errors are modelled in two places only. First, the NotFound error of `sectionByID` in `cache_library_files` (src/plex.py:117, caught at 140-141): `CacheLibraryFiles` then leaves the table unchanged. Second, errors of a send: the batch loop and shutdown catch them per entry (src/main.py:61-67, 83-89). The `full_scan` loop has no per-file `try`, only the one around the whole walk (src/plex.py:148, 185-188), so one raising send ends the walk, and the model does the same. All other error handling is left out, as the lines below say.
- `get_library_sections`' exception handling is left out (src/plex.py:68-73). `SectionInfos` models only the no-server and the success cases.
- pathlib's own normalisation of `Path(root) / file` and `str(Path(...))` is left out, and so is `Path.exists`. Paths are plain `/`-separated strings, assumed already normal where a lemma needs it (`NormalPath`).
- `lower()` is ASCII-only.
- SQLite internals are left out: file removal, `commit`, the `AUTOINCREMENT` ids, and type affinity between the text `library.key` and the `INTEGER` column. Keys are compared as strings. The `sqlite3.Error` handlers are left out.
- `int(scan.library_key)` (src/main.py:65, 87) is assumed to succeed, as server keys are numerals. The model passes the key string through.
- Logging is left out.
- `main()`, the observer and the `KeyboardInterrupt` loop (src/main.py:132-178) are left out, as is the settings loading in `src/settings.py`. The media extensions are a parameter everywhere.
- PlexClient.Plex.FullScan: requires a connected database. Without a connection, the source's `cursor.execute` on `None` raises, the outer handler catches that, and the walk ends. The model does not capture that abort.
- KnownFiles.DatabaseManager.IsCached: requires a connected database, for the same reason.
- Coalescer.ScanKeyInjective: holds only for library keys without ':'. `ScanKeyCollision` shows the collision otherwise.

## Findings

| source | as written | input that shows it | evidently intended | confidence | as-written member | corrected member |
|---|---|---|---|---|---|---|
| src/main.py:43-47, 69-71 | the worker decides to stop under the lock when the dictionary is empty, but `timer_thread.is_alive()` stays true until its function returns; an add in between records its entry, sees a live worker and starts none | a pass empties the dictionary and leaves the loop; before the thread has returned, an add for `1:/b` arrives; then the thread returns, leaving `1:/b` pending with no worker until a later add or shutdown | every pending entry has a live worker to emit it: the stop decision and clearing the worker happen in one locked step, or the add checks a running flag that the worker clears under the same lock | medium, not executed | WorkerRace.AsWrittenStrandsEntry | WorkerRace.CorrectedNeverStrands |
