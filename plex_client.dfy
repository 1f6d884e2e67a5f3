/**
 * The `Plex` client object: the connection (a snapshot of the server's
 * sections, or none), the descriptors and title maps computed once when it is
 * created, and the three operations that act on the outside world: sending a
 * scan request, caching a library's files into the known-file table, and the
 * start-up reconciliation walk.
 *
 * The server is not called: a scan request is recorded in the log `sent` of
 * requests issued to it.
 */
module PlexClient {
  import opened Wrappers
  import opened Paths
  import opened KnownFiles
  import opened Library
  import opened Reconcile
  import opened Sequences

  /** Appends the rows of the parts that have a file (the innermost loop of `cache_library_files`). */
  method CollectParts(key: string, parts: seq<Part>, acc: seq<Row>) returns (out: seq<Row>)
    ensures out == acc + PartRows(key, parts)
  {
    out := acc;
    for i := 0 to |parts|
      invariant out == acc + PartRows(key, parts[..i])
    {
      assert parts[..i + 1][..i] == parts[..i];
      if parts[i].file != "" {
        out := out + [Row(key, parts[i].file)];
      }
    }
    assert parts[..|parts|] == parts;
  }

  /** Appends the rows of every part of every media. */
  method CollectMedia(key: string, media: seq<Media>, acc: seq<Row>) returns (out: seq<Row>)
    ensures out == acc + MediaRows(key, media)
  {
    out := acc;
    for i := 0 to |media|
      invariant out == acc + MediaRows(key, media[..i])
    {
      assert media[..i + 1][..i] == media[..i];
      out := CollectParts(key, media[i].parts, out);
    }
    assert media[..|media|] == media;
  }

  /** Appends the rows of every episode of every show. */
  method CollectShows(key: string, shows: seq<Item>, acc: seq<Row>) returns (out: seq<Row>)
    ensures out == acc + ShowRows(key, shows)
  {
    out := acc;
    for i := 0 to |shows|
      invariant out == acc + ShowRows(key, shows[..i])
    {
      assert shows[..i + 1][..i] == shows[..i];
      out := CollectEpisodes(key, shows[i].episodes, out);
    }
    assert shows[..|shows|] == shows;
  }

  /** Appends the rows of every media of every episode of one show. */
  method CollectEpisodes(key: string, episodes: seq<Episode>, acc: seq<Row>) returns (out: seq<Row>)
    ensures out == acc + EpisodeRows(key, episodes)
  {
    out := acc;
    for j := 0 to |episodes|
      invariant out == acc + EpisodeRows(key, episodes[..j])
    {
      assert episodes[..j + 1][..j] == episodes[..j];
      out := CollectMedia(key, episodes[j].media, out);
    }
    assert episodes[..|episodes|] == episodes;
  }

  /** Appends the rows of every media of every movie. */
  method CollectMovies(key: string, movies: seq<Item>, acc: seq<Row>) returns (out: seq<Row>)
    ensures out == acc + MovieRows(key, movies)
  {
    out := acc;
    for i := 0 to |movies|
      invariant out == acc + MovieRows(key, movies[..i])
    {
      assert movies[..i + 1][..i] == movies[..i];
      out := CollectMedia(key, movies[i].media, out);
    }
    assert movies[..|movies|] == movies;
  }

  lemma EntryRequestsStep(ctx: ScanContext, walk: seq<WalkEntry>, j: nat)
    requires j < |walk|
    ensures EntryRequests(ctx, walk[..j + 1]) == EntryRequests(ctx, walk[..j]) + FileRequests(ctx, walk[j].root, walk[j].files)
  {
    assert walk[..j + 1][..j] == walk[..j];
  }

  lemma FileRequestsStep(ctx: ScanContext, root: string, files: seq<string>, k: nat)
    requires k < |files|
    ensures FileRequests(ctx, root, files[..k + 1]) ==
      FileRequests(ctx, root, files[..k]) + OptionToSeq(FileRequest(ctx, Join(root, files[k])))
  {
    assert files[..k + 1][..k] == files[..k];
  }

  lemma RootRequestsStep(ctx: ScanContext, roots: seq<LibraryRoot>, i: nat)
    requires i < |roots|
    ensures RootRequests(ctx, roots[..i + 1]) ==
      RootRequests(ctx, roots[..i]) + (if roots[i].present then EntryRequests(ctx, roots[i].walk) else [])
  {
    assert roots[..i + 1][..i] == roots[..i];
  }

  lemma FileRequestsSplit(ctx: ScanContext, root: string, files: seq<string>, k: nat)
    requires k <= |files|
    ensures FileRequests(ctx, root, files) == FileRequests(ctx, root, files[..k]) + FileRequests(ctx, root, files[k..])
  {
    assert files == files[..k] + files[k..];
    FileRequestsAppend(ctx, root, files[..k], files[k..]);
  }

  lemma EntryRequestsSplit(ctx: ScanContext, walk: seq<WalkEntry>, j: nat)
    requires j <= |walk|
    ensures EntryRequests(ctx, walk) == EntryRequests(ctx, walk[..j]) + EntryRequests(ctx, walk[j..])
  {
    assert walk == walk[..j] + walk[j..];
    EntryRequestsAppend(ctx, walk[..j], walk[j..]);
  }

  lemma RootRequestsSplit(ctx: ScanContext, roots: seq<LibraryRoot>, i: nat)
    requires i <= |roots|
    ensures RootRequests(ctx, roots) == RootRequests(ctx, roots[..i]) + RootRequests(ctx, roots[i..])
  {
    assert roots == roots[..i] + roots[i..];
    RootRequestsAppend(ctx, roots[..i], roots[i..]);
  }

  class Plex {
    /** The server connection: the server's sections, or none when connecting failed. */
    const server: Option<seq<Section>>
    const db: DatabaseManager
    const mediaExtensions: seq<string>
    const libraryPaths: seq<string>
    const librarySections: seq<LibraryInfo>
    const libraryIds: map<string, string>
    const libraryLocations: map<string, seq<string>>
    /** The requests the server answers with an API error, which the client catches. */
    const rejects: set<ScanRequest>
    /** The requests whose update raises some other error, which reaches the caller. */
    const raises: set<ScanRequest>
    /** The scan requests issued to the server, oldest first. */
    var sent: seq<ScanRequest>

    /** `__init__`: connect, then read the sections and build the two title maps from them. */
    constructor (server: Option<seq<Section>>, rejects: set<ScanRequest>, raises: set<ScanRequest>, db: DatabaseManager,
                 mediaExtensions: seq<string>, libraryPaths: seq<string>)
      ensures this.server == server && this.rejects == rejects && this.raises == raises && this.db == db
      ensures this.mediaExtensions == mediaExtensions && this.libraryPaths == libraryPaths
      ensures librarySections == SectionInfos(server)
      ensures libraryIds == GetLibraryIds(librarySections)
      ensures libraryLocations == GetLibraryLocations(librarySections)
      ensures sent == []
    {
      this.server := server;
      this.rejects := rejects;
      this.raises := raises;
      this.db := db;
      this.mediaExtensions := mediaExtensions;
      this.libraryPaths := libraryPaths;
      var sections := SectionInfos(server);
      librarySections := sections;
      libraryIds := GetLibraryIds(sections);
      libraryLocations := GetLibraryLocations(sections);
      sent := [];
    }

    /** The requests that fail, whether the client catches the error or not. */
    function Failures(): set<ScanRequest>
    {
      rejects + raises
    }

    /** The requests whose error `send_scan_request` lets through to its caller (an API error is caught first). */
    function Raising(): set<ScanRequest>
    {
      raises - rejects
    }

    /** The requests that take effect of a list sent in order, each failure caught by the caller. */
    function Issued(requests: seq<ScanRequest>): seq<ScanRequest>
    {
      Delivered(server.Some?, Failures(), requests)
    }

    /** The context the reconciliation decision reads. */
    ghost function Context(): ScanContext
      reads db
    {
      ScanContext(mediaExtensions, librarySections, db.rows)
    }

    /**
     * `send_scan_request`: without a server nothing is sent and nothing is
     * raised. Otherwise the request is sent, and it takes effect unless it
     * fails. An API error is caught and logged; any other error is raised to
     * the caller, which `raised` reports.
     */
    method SendScanRequest(libraryKey: string, path: string) returns (raised: bool)
      modifies this`sent
      ensures raised <==> server.Some? && ScanRequest(libraryKey, path) in Raising()
      ensures sent == old(sent) + Issued([ScanRequest(libraryKey, path)])
    {
      raised := false;
      if server.None? {
        return;
      }
      var request := ScanRequest(libraryKey, path);
      assert [request][..0] == [];
      assert Issued([request]) == Delivered(true, Failures(), []) + if request in Failures() then [] else [request];
      if request in rejects {
        return;
      }
      if request in raises {
        raised := true;
        return;
      }
      sent := sent + [request];
    }

    /**
     * `cache_library_files`: without a server, or when the server has no
     * section with that key (its NotFound error is caught), nothing happens;
     * otherwise the section's files are collected under `libraryKey` and
     * inserted into the known-file table.
     */
    method CacheLibraryFiles(libraryKey: string)
      requires db.Valid()
      modifies db`rows
      ensures db.Valid()
      ensures server.None? || SectionById(server.value, libraryKey).None? ==> db.rows == old(db.rows)
      ensures server.Some? && SectionById(server.value, libraryKey).Some? ==>
        db.rows == if db.connected then InsertOrIgnore(old(db.rows), LibraryRows(libraryKey, SectionById(server.value, libraryKey).value))
                   else old(db.rows)
    {
      if server.None? {
        return;
      }
      var found := SectionById(server.value, libraryKey);
      if found.None? {
        return;
      }
      var section := found.value;
      var libraryFiles: seq<Row>;
      if section.info.libraryType == "show" {
        libraryFiles := CollectShows(libraryKey, section.items, []);
      } else {
        libraryFiles := CollectMovies(libraryKey, section.items, []);
      }
      assert libraryFiles == LibraryRows(libraryKey, section);
      db.InsertPlexLibraryFiles(libraryFiles);
    }

    /**
     * `full_scan`: for each configured library path that exists, every walked
     * file that is a media file and not a dot-file is looked up; when a
     * library owns it and the table has no row for that library's key and the
     * path, a scan request is sent for it. Without a server nothing happens.
     * The only handler is around the whole walk, so the first send that raises
     * ends it: what is sent is the requests before that one.
     */
    method FullScan(roots: seq<LibraryRoot>)
      requires db.connected
      requires |roots| == |libraryPaths| && forall i :: 0 <= i < |roots| ==> roots[i].path == libraryPaths[i]
      modifies this`sent
      ensures sent == old(sent) + Issued(BeforeRaise(Raising(), RootRequests(Context(), roots)))
    {
      if server.None? {
        return;
      }
      ghost var ctx := Context();
      for i := 0 to |roots|
        invariant NoneRaise(Raising(), RootRequests(ctx, roots[..i]))
        invariant sent == old(sent) + Issued(RootRequests(ctx, roots[..i]))
      {
        ghost var before := RootRequests(ctx, roots[..i]);
        ghost var step := if roots[i].present then EntryRequests(ctx, roots[i].walk) else [];
        var raised := false;
        if roots[i].present {
          raised := ScanWalk(ctx, roots[i].walk);
        }
        RootRequestsStep(ctx, roots, i);
        RootRequestsSplit(ctx, roots, i + 1);
        SentStep(old(sent), before, step, RootRequests(ctx, roots[..i + 1]), RootRequests(ctx, roots[i + 1..]));
        if raised {
          return;
        }
      }
      assert roots[..|roots|] == roots;
      BeforeRaiseNone(Raising(), RootRequests(ctx, roots));
    }

    /** The `os.walk` loop of `full_scan` over one existing library path; `raised` when a send raised and ended it. */
    method ScanWalk(ghost ctx: ScanContext, walk: seq<WalkEntry>) returns (raised: bool)
      requires db.connected && server.Some? && ctx == Context()
      modifies this`sent
      ensures raised <==> !NoneRaise(Raising(), EntryRequests(ctx, walk))
      ensures sent == old(sent) + Issued(BeforeRaise(Raising(), EntryRequests(ctx, walk)))
    {
      for j := 0 to |walk|
        invariant NoneRaise(Raising(), EntryRequests(ctx, walk[..j]))
        invariant sent == old(sent) + Issued(EntryRequests(ctx, walk[..j]))
      {
        ghost var before := EntryRequests(ctx, walk[..j]);
        ghost var step := FileRequests(ctx, walk[j].root, walk[j].files);
        raised := ScanFiles(ctx, walk[j].root, walk[j].files);
        EntryRequestsStep(ctx, walk, j);
        EntryRequestsSplit(ctx, walk, j + 1);
        SentStep(old(sent), before, step, EntryRequests(ctx, walk[..j + 1]), EntryRequests(ctx, walk[j + 1..]));
        if raised {
          return;
        }
      }
      raised := false;
      assert walk[..|walk|] == walk;
      BeforeRaiseNone(Raising(), EntryRequests(ctx, walk));
    }

    /** The loop over the files of one `os.walk` entry; `raised` when a send raised and ended it. */
    method ScanFiles(ghost ctx: ScanContext, root: string, files: seq<string>) returns (raised: bool)
      requires db.connected && server.Some? && ctx == Context()
      modifies this`sent
      ensures raised <==> !NoneRaise(Raising(), FileRequests(ctx, root, files))
      ensures sent == old(sent) + Issued(BeforeRaise(Raising(), FileRequests(ctx, root, files)))
    {
      for k := 0 to |files|
        invariant NoneRaise(Raising(), FileRequests(ctx, root, files[..k]))
        invariant sent == old(sent) + Issued(FileRequests(ctx, root, files[..k]))
      {
        ghost var before := FileRequests(ctx, root, files[..k]);
        ghost var step := OptionToSeq(FileRequest(ctx, Join(root, files[k])));
        raised := ScanFile(ctx, Join(root, files[k]));
        FileRequestsStep(ctx, root, files, k);
        FileRequestsSplit(ctx, root, files, k + 1);
        SentStep(old(sent), before, step, FileRequests(ctx, root, files[..k + 1]), FileRequests(ctx, root, files[k + 1..]));
        if raised {
          return;
        }
      }
      raised := false;
      assert files[..|files|] == files;
      BeforeRaiseNone(Raising(), FileRequests(ctx, root, files));
    }

    /**
     * One step of a send loop, where `before` was sent in full and `upto` is
     * `before` followed by `step`, the requests of the next element. Sending
     * `step` makes what was sent that of `upto`. When `step` raised, the loop
     * ends, and what was sent is what the whole list `upto + rest` sends.
     */
    lemma SentStep(start: seq<ScanRequest>, before: seq<ScanRequest>, step: seq<ScanRequest>,
                   upto: seq<ScanRequest>, rest: seq<ScanRequest>)
      requires NoneRaise(Raising(), before) && upto == before + step
      ensures start + Issued(before) + Issued(BeforeRaise(Raising(), step)) == start + Issued(BeforeRaise(Raising(), upto))
      ensures NoneRaise(Raising(), upto) <==> NoneRaise(Raising(), step)
      ensures NoneRaise(Raising(), step) ==> BeforeRaise(Raising(), upto) == upto
      ensures !NoneRaise(Raising(), step) ==>
        BeforeRaise(Raising(), upto + rest) == BeforeRaise(Raising(), upto) && !NoneRaise(Raising(), upto + rest)
    {
      BeforeRaiseAppend(Raising(), before, step);
      DeliveredAppend(server.Some?, Failures(), before, BeforeRaise(Raising(), step));
      AppendAssoc(start, Issued(before), Issued(BeforeRaise(Raising(), step)));
      NoneRaiseAppend(Raising(), before, step);
      if NoneRaise(Raising(), step) {
        BeforeRaiseNone(Raising(), step);
      } else {
        BeforeRaiseStops(Raising(), upto, rest);
      }
    }

    /** The decision for one walked file, and the request it sends; `raised` when that send raised. */
    method ScanFile(ghost ctx: ScanContext, filePath: string) returns (raised: bool)
      requires db.connected && server.Some? && ctx == Context()
      modifies this`sent
      ensures raised <==> !NoneRaise(Raising(), OptionToSeq(FileRequest(ctx, filePath)))
      ensures sent == old(sent) + Issued(BeforeRaise(Raising(), OptionToSeq(FileRequest(ctx, filePath))))
    {
      raised := false;
      ghost var decision := FileRequest(ctx, filePath);
      if IsMediaFile(mediaExtensions, filePath) && !IsHidden(filePath) {
        var library := FindLibraryByPath(librarySections, filePath);
        if library.Some? {
          var isCached := db.IsCached(library.value.key, filePath);
          if !isCached {
            var request := ScanRequest(library.value.key, filePath);
            assert decision == Some(request);
            assert [request][1..] == [];
            raised := SendScanRequest(library.value.key, filePath);
            assert NoneRaise(Raising(), [request]) <==> request !in Raising();
          }
        }
      }
    }
  }
}
