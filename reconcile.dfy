/**
 * The start-up reconciliation of `full_scan`: which walked files get a scan
 * request. The filesystem walk is an input: for each configured library path,
 * whether it exists and the `(root, files)` entries `os.walk` yields below it.
 */
module Reconcile {
  import opened Wrappers
  import opened Paths
  import opened KnownFiles
  import opened Library
  import opened Sequences

  /** One `(root, dirs, files)` triple of `os.walk`; the walk itself descends into `dirs`, so they are not kept. */
  datatype WalkEntry = WalkEntry(root: string, files: seq<string>)

  /** A configured library path: whether it exists, and the walk below it. */
  datatype LibraryRoot = LibraryRoot(path: string, present: bool, walk: seq<WalkEntry>)

  /** What the decision reads: the media extensions, the library sections and the known-file table. */
  datatype ScanContext = ScanContext(extensions: seq<string>, sections: seq<LibraryInfo>, known: seq<Row>)

  /** The decision for one walked file path. */
  function FileRequest(ctx: ScanContext, path: string): Option<ScanRequest>
  {
    if IsMediaFile(ctx.extensions, path) && !IsHidden(path) then
      match FindLibraryByPath(ctx.sections, path)
      case None => None
      case Some(library) =>
        if Contains(ctx.known, library.key, path) then None else Some(ScanRequest(library.key, path))
    else None
  }

  function OptionToSeq<T>(o: Option<T>): seq<T>
  {
    if o.Some? then [o.value] else []
  }

  /** The requests for the files of one walk entry, in order. */
  function FileRequests(ctx: ScanContext, root: string, files: seq<string>): seq<ScanRequest>
  {
    if files == [] then []
    else
      var n := |files| - 1;
      FileRequests(ctx, root, files[..n]) + OptionToSeq(FileRequest(ctx, Join(root, files[n])))
  }

  /** The requests for one library path's walk, in order. */
  function EntryRequests(ctx: ScanContext, walk: seq<WalkEntry>): seq<ScanRequest>
  {
    if walk == [] then []
    else
      var n := |walk| - 1;
      EntryRequests(ctx, walk[..n]) + FileRequests(ctx, walk[n].root, walk[n].files)
  }

  /** The requests `full_scan` sends, in order; a library path that does not exist contributes none. */
  function RootRequests(ctx: ScanContext, roots: seq<LibraryRoot>): seq<ScanRequest>
  {
    if roots == [] then []
    else
      var n := |roots| - 1;
      RootRequests(ctx, roots[..n]) + (if roots[n].present then EntryRequests(ctx, roots[n].walk) else [])
  }

  /**
   * A request is wanted for a path when the path's suffix is a media
   * extension, its name is not a dot-file, a library owns it, and the pair of
   * that library's key and the path is not in the known-file table.
   */
  ghost predicate Wanted(ctx: ScanContext, r: ScanRequest)
  {
    && IsMediaFile(ctx.extensions, r.path)
    && !IsHidden(r.path)
    && FindLibraryByPath(ctx.sections, r.path).Some?
    && FindLibraryByPath(ctx.sections, r.path).value.key == r.libraryKey
    && !Contains(ctx.known, r.libraryKey, r.path)
  }

  /** The path is one the walk of an existing library path reaches. */
  ghost predicate Walked(roots: seq<LibraryRoot>, path: string)
  {
    exists root, entry, file :: root in roots && root.present && entry in root.walk && file in entry.files
                                && path == Join(entry.root, file)
  }

  lemma FileRequestIsWanted(ctx: ScanContext, path: string, r: ScanRequest)
    ensures FileRequest(ctx, path) == Some(r) <==> Wanted(ctx, r) && r.path == path
  {
  }

  lemma {:induction false} FileRequestsExactly(ctx: ScanContext, root: string, files: seq<string>)
    ensures forall r :: r in FileRequests(ctx, root, files) <==>
      Wanted(ctx, r) && exists file :: file in files && r.path == Join(root, file)
  {
    if files != [] {
      var n := |files| - 1;
      FileRequestsExactly(ctx, root, files[..n]);
      assert files == files[..n] + [files[n]];
      forall r | FileRequest(ctx, Join(root, files[n])) == Some(r) ensures Wanted(ctx, r) && r.path == Join(root, files[n]) {
        FileRequestIsWanted(ctx, Join(root, files[n]), r);
      }
      forall r | Wanted(ctx, r) && r.path == Join(root, files[n]) ensures r in OptionToSeq(FileRequest(ctx, Join(root, files[n]))) {
        FileRequestIsWanted(ctx, Join(root, files[n]), r);
      }
    }
  }

  lemma {:induction false} EntryRequestsExactly(ctx: ScanContext, walk: seq<WalkEntry>)
    ensures forall r :: r in EntryRequests(ctx, walk) <==>
      Wanted(ctx, r) && exists entry, file :: entry in walk && file in entry.files && r.path == Join(entry.root, file)
  {
    if walk != [] {
      var n := |walk| - 1;
      EntryRequestsExactly(ctx, walk[..n]);
      FileRequestsExactly(ctx, walk[n].root, walk[n].files);
      assert walk == walk[..n] + [walk[n]];
    }
  }

  /**
   * `full_scan` requests a file exactly when the walk of an existing library
   * path reaches it and it is wanted: a media suffix, not a dot-file, owned by
   * a library, and not recorded under that library's key.
   */
  lemma {:induction false} RootRequestsExactly(ctx: ScanContext, roots: seq<LibraryRoot>)
    ensures forall r :: r in RootRequests(ctx, roots) <==> Wanted(ctx, r) && Walked(roots, r.path)
  {
    if roots != [] {
      var n := |roots| - 1;
      RootRequestsExactly(ctx, roots[..n]);
      EntryRequestsExactly(ctx, roots[n].walk);
      assert roots == roots[..n] + [roots[n]];
    }
  }

  /** No request is for a file already recorded under its library's key, nor for a file no library owns. */
  lemma NeverRequestsKnownOrUnowned(ctx: ScanContext, roots: seq<LibraryRoot>, path: string)
    requires FindLibraryByPath(ctx.sections, path).None? ||
             Contains(ctx.known, FindLibraryByPath(ctx.sections, path).value.key, path)
    ensures forall r :: r in RootRequests(ctx, roots) ==> r.path != path
  {
    RootRequestsExactly(ctx, roots);
  }

  lemma {:induction false} RootRequestsAppend(ctx: ScanContext, a: seq<LibraryRoot>, b: seq<LibraryRoot>)
    ensures RootRequests(ctx, a + b) == RootRequests(ctx, a) + RootRequests(ctx, b)
  {
    if b == [] {
      assert a + b == a;
    } else {
      var n := |b| - 1;
      var init := b[..n];
      assert (a + b)[..|a + b| - 1] == a + init;
      assert (a + b)[|a + b| - 1] == b[n];
      RootRequestsAppend(ctx, a, init);
      AppendAssoc(RootRequests(ctx, a), RootRequests(ctx, init), if b[n].present then EntryRequests(ctx, b[n].walk) else []);
    }
  }

  lemma {:induction false} FileRequestsAppend(ctx: ScanContext, root: string, a: seq<string>, b: seq<string>)
    ensures FileRequests(ctx, root, a + b) == FileRequests(ctx, root, a) + FileRequests(ctx, root, b)
  {
    if b == [] {
      assert a + b == a;
    } else {
      var n := |b| - 1;
      var init := b[..n];
      assert (a + b)[..|a + b| - 1] == a + init;
      assert (a + b)[|a + b| - 1] == b[n];
      FileRequestsAppend(ctx, root, a, init);
      AppendAssoc(FileRequests(ctx, root, a), FileRequests(ctx, root, init), OptionToSeq(FileRequest(ctx, Join(root, b[n]))));
    }
  }

  lemma {:induction false} EntryRequestsAppend(ctx: ScanContext, a: seq<WalkEntry>, b: seq<WalkEntry>)
    ensures EntryRequests(ctx, a + b) == EntryRequests(ctx, a) + EntryRequests(ctx, b)
  {
    if b == [] {
      assert a + b == a;
    } else {
      var n := |b| - 1;
      var init := b[..n];
      assert (a + b)[..|a + b| - 1] == a + init;
      assert (a + b)[|a + b| - 1] == b[n];
      EntryRequestsAppend(ctx, a, init);
      AppendAssoc(EntryRequests(ctx, a), EntryRequests(ctx, init), FileRequests(ctx, b[n].root, b[n].files));
    }
  }

  /** A library path that does not exist is skipped, and the paths after it are still scanned. */
  lemma MissingRootSkipped(ctx: ScanContext, before: seq<LibraryRoot>, missing: LibraryRoot, after: seq<LibraryRoot>)
    requires !missing.present
    ensures RootRequests(ctx, before + [missing] + after) == RootRequests(ctx, before) + RootRequests(ctx, after)
  {
    SingleMissingRoot(ctx, missing);
    RootRequestsAppend(ctx, before, [missing]);
    RootRequestsAppend(ctx, before + [missing], after);
  }

  lemma SingleMissingRoot(ctx: ScanContext, missing: LibraryRoot)
    requires !missing.present
    ensures RootRequests(ctx, [missing]) == []
  {
    assert [missing][..0] == [];
  }

  /** The paths of one walk entry's files, in order. */
  function FilePaths(root: string, files: seq<string>): seq<string>
  {
    if files == [] then []
    else
      var n := |files| - 1;
      FilePaths(root, files[..n]) + [Join(root, files[n])]
  }

  /** The paths one library path's walk reaches, in order. */
  function EntryPaths(walk: seq<WalkEntry>): seq<string>
  {
    if walk == [] then []
    else
      var n := |walk| - 1;
      EntryPaths(walk[..n]) + FilePaths(walk[n].root, walk[n].files)
  }

  /** The paths the walks of the existing library paths reach, in the order `full_scan` visits them. */
  function WalkedPaths(roots: seq<LibraryRoot>): seq<string>
  {
    if roots == [] then []
    else
      var n := |roots| - 1;
      WalkedPaths(roots[..n]) + (if roots[n].present then EntryPaths(roots[n].walk) else [])
  }

  lemma {:induction false} FileRequestsOnPaths(ctx: ScanContext, root: string, files: seq<string>)
    ensures forall r :: r in FileRequests(ctx, root, files) ==> r.path in FilePaths(root, files)
  {
    if files != [] {
      FileRequestsOnPaths(ctx, root, files[..|files| - 1]);
    }
  }

  lemma {:induction false} EntryRequestsOnPaths(ctx: ScanContext, walk: seq<WalkEntry>)
    ensures forall r :: r in EntryRequests(ctx, walk) ==> r.path in EntryPaths(walk)
  {
    if walk != [] {
      var n := |walk| - 1;
      EntryRequestsOnPaths(ctx, walk[..n]);
      FileRequestsOnPaths(ctx, walk[n].root, walk[n].files);
    }
  }

  /** Every request is for a path the walks reach. */
  lemma {:induction false} RootRequestsOnPaths(ctx: ScanContext, roots: seq<LibraryRoot>)
    ensures forall r :: r in RootRequests(ctx, roots) ==> r.path in WalkedPaths(roots)
  {
    if roots != [] {
      var n := |roots| - 1;
      RootRequestsOnPaths(ctx, roots[..n]);
      if roots[n].present {
        EntryRequestsOnPaths(ctx, roots[n].walk);
      }
    }
  }

  lemma {:induction false} FileRequestsDistinct(ctx: ScanContext, root: string, files: seq<string>)
    requires Distinct(FilePaths(root, files))
    ensures Distinct(FileRequests(ctx, root, files))
  {
    if files != [] {
      var n := |files| - 1;
      var last := OptionToSeq(FileRequest(ctx, Join(root, files[n])));
      DistinctAppend(FilePaths(root, files[..n]), [Join(root, files[n])]);
      FileRequestsDistinct(ctx, root, files[..n]);
      FileRequestsOnPaths(ctx, root, files[..n]);
      DistinctAppend(FileRequests(ctx, root, files[..n]), last);
    }
  }

  lemma {:induction false} EntryRequestsDistinct(ctx: ScanContext, walk: seq<WalkEntry>)
    requires Distinct(EntryPaths(walk))
    ensures Distinct(EntryRequests(ctx, walk))
  {
    if walk != [] {
      var n := |walk| - 1;
      DistinctAppend(EntryPaths(walk[..n]), FilePaths(walk[n].root, walk[n].files));
      EntryRequestsDistinct(ctx, walk[..n]);
      FileRequestsDistinct(ctx, walk[n].root, walk[n].files);
      EntryRequestsOnPaths(ctx, walk[..n]);
      FileRequestsOnPaths(ctx, walk[n].root, walk[n].files);
      DistinctAppend(EntryRequests(ctx, walk[..n]), FileRequests(ctx, walk[n].root, walk[n].files));
    }
  }

  /**
   * When the walks reach no path twice, `full_scan` sends at most one request
   * per file: no request occurs twice.
   */
  lemma {:induction false} RootRequestsDistinct(ctx: ScanContext, roots: seq<LibraryRoot>)
    requires Distinct(WalkedPaths(roots))
    ensures Distinct(RootRequests(ctx, roots))
  {
    if roots != [] {
      var n := |roots| - 1;
      if roots[n].present {
        DistinctAppend(WalkedPaths(roots[..n]), EntryPaths(roots[n].walk));
        RootRequestsDistinct(ctx, roots[..n]);
        EntryRequestsDistinct(ctx, roots[n].walk);
        RootRequestsOnPaths(ctx, roots[..n]);
        EntryRequestsOnPaths(ctx, roots[n].walk);
        DistinctAppend(RootRequests(ctx, roots[..n]), EntryRequests(ctx, roots[n].walk));
      } else {
        assert WalkedPaths(roots) == WalkedPaths(roots[..n]);
        RootRequestsDistinct(ctx, roots[..n]);
      }
    }
  }

  /**
   * Nothing keeps two configured library paths from overlapping. When one is
   * nested in the other, the outer walk also passes through the inner
   * directory, and both walks are made in full.
   */
  lemma NestedRootsWalkTwice(ctx: ScanContext, outer: LibraryRoot, inner: LibraryRoot, pre: seq<WalkEntry>, post: seq<WalkEntry>)
    requires outer.present && inner.present && outer.walk == pre + inner.walk + post
    ensures RootRequests(ctx, [outer, inner]) ==
      EntryRequests(ctx, pre) + EntryRequests(ctx, inner.walk) + EntryRequests(ctx, post) + EntryRequests(ctx, inner.walk)
  {
    TwoRoots(ctx, outer, inner);
    EntryRequestsAppend(ctx, pre, inner.walk);
    EntryRequestsAppend(ctx, pre + inner.walk, post);
  }

  lemma TwoRoots(ctx: ScanContext, a: LibraryRoot, b: LibraryRoot)
    requires a.present && b.present
    ensures RootRequests(ctx, [a, b]) == EntryRequests(ctx, a.walk) + EntryRequests(ctx, b.walk)
  {
    assert [a, b] == [a] + [b];
    RootRequestsAppend(ctx, [a], [b]);
    SinglePresentRoot(ctx, a);
    SinglePresentRoot(ctx, b);
  }

  lemma SinglePresentRoot(ctx: ScanContext, root: LibraryRoot)
    requires root.present
    ensures RootRequests(ctx, [root]) == EntryRequests(ctx, root.walk)
  {
    assert [root][..0] == [];
  }

  /** So every file of the inner path that is requested at all is requested twice. */
  lemma NestedRootsRequestTwice(ctx: ScanContext, outer: LibraryRoot, inner: LibraryRoot, pre: seq<WalkEntry>, post: seq<WalkEntry>, r: ScanRequest)
    requires outer.present && inner.present && outer.walk == pre + inner.walk + post
    requires r in EntryRequests(ctx, inner.walk)
    ensures multiset(RootRequests(ctx, [outer, inner]))[r] >= 2
    ensures !Distinct(RootRequests(ctx, [outer, inner]))
  {
    NestedRootsWalkTwice(ctx, outer, inner, pre, post);
    var twice := EntryRequests(ctx, pre) + EntryRequests(ctx, inner.walk) + EntryRequests(ctx, post);
    DistinctAppend(twice, EntryRequests(ctx, inner.walk));
    assert r in twice;
  }
}
