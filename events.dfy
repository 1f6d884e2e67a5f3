/**
 * The filesystem-event handler: which events are acted on, and the pending
 * scan an acted-on event adds to the coalescer. The watcher itself (the
 * observer thread and its event delivery) is not modelled: events arrive as
 * values, each with the time it is handled.
 */
module Events {
  import opened Wrappers
  import opened Paths
  import opened Library
  import opened Reconcile
  import PlexClient
  import Coalescer

  /** A watchdog event: its type, the source path, whether it is about a directory, and the destination of a move. */
  datatype FileSystemEvent = FileSystemEvent(eventType: string, srcPath: string, isDirectory: bool, destPath: string)

  /** The event types the handler acts on. */
  const ActedOnTypes: seq<string> := ["created", "modified", "moved"]

  /** `_should_process_event`: the three tests in the order the handler makes them. */
  predicate ShouldProcessEvent(extensions: seq<string>, e: FileSystemEvent)
  {
    if !IsMediaFile(extensions, e.srcPath) then false
    else if e.isDirectory then false
    else if e.eventType !in ActedOnTypes then false
    else true
  }

  /**
   * What `on_any_event` asks the coalescer for: nothing for an event it does
   * not process or for a path no library owns; otherwise the owning library's
   * key with the directory of the event's source path.
   */
  function EventScan(extensions: seq<string>, sections: seq<LibraryInfo>, e: FileSystemEvent): Option<ScanRequest>
  {
    if !ShouldProcessEvent(extensions, e) then None
    else
      match FindLibraryByPath(sections, e.srcPath)
      case None => None
      case Some(library) => Some(ScanRequest(library.key, Parent(e.srcPath)))
  }

  /**
   * An event is acted on exactly when it is a created, modified or moved
   * event on a non-directory whose suffix, lower-cased, is a media extension;
   * in particular deletions and directory events never are.
   */
  lemma ShouldProcessEventExactly(extensions: seq<string>, e: FileSystemEvent)
    ensures ShouldProcessEvent(extensions, e) <==>
      && IsMediaFile(extensions, e.srcPath)
      && !e.isDirectory
      && (e.eventType == "created" || e.eventType == "modified" || e.eventType == "moved")
    ensures e.eventType == "deleted" || e.isDirectory ==> !ShouldProcessEvent(extensions, e)
  {
    assert ActedOnTypes == ["created"] + ["modified"] + ["moved"];
  }

  /**
   * For an event on file `name` of a directory `dir`, the decision reads only
   * the name, the event type and the directory flag, and the scan asked for,
   * when there is one, is for `dir` under the key of the library that owns the
   * file. The destination of a move plays no part.
   */
  lemma {:induction false} EventScanOfFileInDirectory(extensions: seq<string>, sections: seq<LibraryInfo>,
                                                      e: FileSystemEvent, dir: string, name: string)
    requires NormalPath(dir) && name != [] && '/' !in name && e.srcPath == Join(dir, name)
    ensures ShouldProcessEvent(extensions, e) <==>
      IsMediaFile(extensions, name) && !e.isDirectory && e.eventType in ActedOnTypes
    ensures EventScan(extensions, sections, e).Some? <==>
      ShouldProcessEvent(extensions, e) && FindLibraryByPath(sections, e.srcPath).Some?
    ensures EventScan(extensions, sections, e).Some? ==>
      EventScan(extensions, sections, e).value == ScanRequest(FindLibraryByPath(sections, e.srcPath).value.key, dir)
    ensures EventScan(extensions, sections, e) == EventScan(extensions, sections, e.(destPath := ""))
  {
    JoinedFileClassifiedByName(extensions, dir, name);
    ParentNameOfJoin(dir, name);
  }

  /**
   * An acted-on event asks for a scan exactly when some library owns its
   * path, and then under the key of the first owning library in list order.
   */
  lemma {:induction false} EventScanOwner(extensions: seq<string>, sections: seq<LibraryInfo>, e: FileSystemEvent)
    requires ShouldProcessEvent(extensions, e)
    ensures EventScan(extensions, sections, e).None? <==> forall i :: 0 <= i < |sections| ==> !Owns(sections[i], e.srcPath)
    ensures EventScan(extensions, sections, e).Some? ==>
      exists i :: 0 <= i < |sections| && Owns(sections[i], e.srcPath) && EventScan(extensions, sections, e).value.libraryKey == sections[i].key
                  && forall j :: 0 <= j < i ==> !Owns(sections[j], e.srcPath)
  {
    FindLibraryByPathSpec(sections, e.srcPath);
  }

  /**
   * Unlike the start-up scan, the live handler does not skip dot-files: an
   * acted-on event on a dot-file that a library owns is queued, while the
   * start-up decision for the same path sends nothing.
   */
  lemma DotFileQueuedButNotReconciled(ctx: ScanContext, e: FileSystemEvent)
    requires ShouldProcessEvent(ctx.extensions, e) && IsHidden(e.srcPath)
    requires FindLibraryByPath(ctx.sections, e.srcPath).Some?
    ensures EventScan(ctx.extensions, ctx.sections, e) == Some(ScanRequest(FindLibraryByPath(ctx.sections, e.srcPath).value.key, Parent(e.srcPath)))
    ensures FileRequest(ctx, e.srcPath) == None
  {
  }

  /** `RescanEventHandler`: the settings' media extensions, the client, and a coalescer with a 30-second delay. */
  class RescanEventHandler {
    const mediaExtensions: seq<string>
    const plex: PlexClient.Plex
    const batchManager: Coalescer.BatchScanManager

    ghost predicate Valid()
      reads this, batchManager
    {
      batchManager.Valid() && batchManager.plex == plex && batchManager.delaySeconds == 30
    }

    constructor (mediaExtensions: seq<string>, plex: PlexClient.Plex)
      ensures Valid() && fresh(batchManager)
      ensures this.mediaExtensions == mediaExtensions && this.plex == plex
      ensures batchManager.Pending() == Coalescer.Empty && !batchManager.workerRunning && !batchManager.stopRequested
    {
      this.mediaExtensions := mediaExtensions;
      this.plex := plex;
      batchManager := new Coalescer.BatchScanManager(plex, 30);
    }

    /**
     * `on_any_event`: an event that asks for a scan is recorded in the
     * coalescer at time `now`, which then has a worker; any other event leaves
     * the coalescer as it was.
     */
    method OnAnyEvent(event: FileSystemEvent, now: int)
      requires Valid()
      modifies batchManager
      ensures Valid()
      ensures EventScan(mediaExtensions, plex.librarySections, event).None? ==> unchanged(batchManager)
      ensures EventScan(mediaExtensions, plex.librarySections, event).Some? ==>
        var request := EventScan(mediaExtensions, plex.librarySections, event).value;
        && batchManager.Pending() == Coalescer.Record(old(batchManager.Pending()), request.libraryKey, request.path, now)
        && batchManager.workerRunning
        && batchManager.stopRequested == old(batchManager.stopRequested)
    {
      if !ShouldProcessEvent(mediaExtensions, event) {
        return;
      }
      var library := FindLibraryByPath(plex.librarySections, event.srcPath);
      if library.Some? {
        var parentDir := Parent(event.srcPath);
        var _ := batchManager.AddScanRequest(library.value.key, parentDir, now);
      }
    }

    /** `shutdown`: the coalescer's shutdown. */
    method Shutdown()
      requires Valid()
      modifies batchManager, plex`sent
      ensures Valid()
      ensures batchManager.stopRequested && batchManager.Pending() == Coalescer.Empty
      ensures batchManager.workerRunning == old(batchManager.workerRunning)
      ensures plex.sent == old(plex.sent) + plex.Issued(Coalescer.Requests(Coalescer.Flush(old(batchManager.Pending()))))
    {
      batchManager.Shutdown();
    }
  }
}
