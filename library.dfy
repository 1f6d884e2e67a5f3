/**
 * The media server's libraries as the watcher sees them: the section
 * descriptors it reads once at start-up, the lookups over them, and the
 * show/episode/media/part tree that the cache step flattens into
 * known-file rows.
 */
module Library {
  import opened Wrappers
  import opened Sequences
  import opened KnownFiles

  /** `LibraryInfo`: one library section of the server. */
  datatype LibraryInfo = LibraryInfo(
    title: string,
    key: string,
    locations: seq<string>,
    libraryType: string,
    agent: string,
    scanner: string)

  /** A request to the server to rescan `path` in library `libraryKey` (the arguments of `send_scan_request`). */
  datatype ScanRequest = ScanRequest(libraryKey: string, path: string)

  /**
   * The requests that take effect of those sent in order: none without a
   * server connection; otherwise every request except those that fail. A
   * request fails when the server answers it with an API error, which
   * `send_scan_request` catches and logs, or with any other error, which
   * reaches the caller.
   */
  function Delivered(connected: bool, failures: set<ScanRequest>, requests: seq<ScanRequest>): seq<ScanRequest>
  {
    if !connected || requests == [] then []
    else
      var n := |requests| - 1;
      Delivered(connected, failures, requests[..n]) + (if requests[n] in failures then [] else [requests[n]])
  }

  /** Sending two lists one after the other delivers what each delivers, in that order. */
  lemma {:induction false} DeliveredAppend(connected: bool, failures: set<ScanRequest>, a: seq<ScanRequest>, b: seq<ScanRequest>)
    ensures Delivered(connected, failures, a + b) == Delivered(connected, failures, a) + Delivered(connected, failures, b)
  {
    if b == [] {
      assert a + b == a;
    } else if connected {
      var n := |b| - 1;
      var init := b[..n];
      assert (a + b)[..|a + b| - 1] == a + init;
      assert (a + b)[|a + b| - 1] == b[n];
      DeliveredAppend(connected, failures, a, init);
      AppendAssoc(Delivered(connected, failures, a), Delivered(connected, failures, init), if b[n] in failures then [] else [b[n]]);
    }
  }

  /**
   * A request takes effect exactly when there is a server, it was sent and it
   * does not fail: one failing request never keeps another from being
   * delivered.
   */
  lemma {:induction false} DeliveredExactly(connected: bool, failures: set<ScanRequest>, requests: seq<ScanRequest>)
    ensures |Delivered(connected, failures, requests)| <= |requests|
    ensures forall r :: r in Delivered(connected, failures, requests) <==> connected && r in requests && r !in failures
  {
    if connected && requests != [] {
      var n := |requests| - 1;
      DeliveredExactly(connected, failures, requests[..n]);
      assert requests == requests[..n] + [requests[n]];
    }
  }

  /** No request of the list is among `raising`. */
  predicate NoneRaise(raising: set<ScanRequest>, requests: seq<ScanRequest>)
  {
    forall i :: 0 <= i < |requests| ==> requests[i] !in raising
  }

  /**
   * The requests of a list that are sent when sending stops at the first one
   * that raises an error the sender does not catch: those before it, or the
   * whole list when none raises.
   */
  function BeforeRaise(raising: set<ScanRequest>, requests: seq<ScanRequest>): seq<ScanRequest>
  {
    if requests == [] then []
    else if requests[0] in raising then []
    else [requests[0]] + BeforeRaise(raising, requests[1..])
  }

  /**
   * What is sent is a prefix of the list in which nothing raises, and it is
   * either the whole list or stops just before a request that raises.
   */
  lemma {:induction false} BeforeRaiseSpec(raising: set<ScanRequest>, requests: seq<ScanRequest>)
    ensures BeforeRaise(raising, requests) <= requests
    ensures NoneRaise(raising, BeforeRaise(raising, requests))
    ensures BeforeRaise(raising, requests) == requests || requests[|BeforeRaise(raising, requests)|] in raising
  {
    if requests != [] && requests[0] !in raising {
      BeforeRaiseSpec(raising, requests[1..]);
      assert requests == [requests[0]] + requests[1..];
    }
  }

  /** When nothing raises, the whole list is sent. */
  lemma {:induction false} BeforeRaiseNone(raising: set<ScanRequest>, requests: seq<ScanRequest>)
    requires NoneRaise(raising, requests)
    ensures BeforeRaise(raising, requests) == requests
  {
    if requests != [] {
      assert requests[0] !in raising;
      BeforeRaiseNone(raising, requests[1..]);
      assert requests == [requests[0]] + requests[1..];
    }
  }

  /** A concatenation raises nowhere exactly when neither half does. */
  lemma NoneRaiseAppend(raising: set<ScanRequest>, a: seq<ScanRequest>, b: seq<ScanRequest>)
    ensures NoneRaise(raising, a + b) <==> NoneRaise(raising, a) && NoneRaise(raising, b)
  {
    if NoneRaise(raising, a + b) {
      forall i | 0 <= i < |a| ensures a[i] !in raising {
        assert a[i] == (a + b)[i];
      }
      forall i | 0 <= i < |b| ensures b[i] !in raising {
        assert b[i] == (a + b)[|a| + i];
      }
    }
  }

  /**
   * Sending `a` then `b`: when nothing in `a` raises, all of `a` is sent and
   * then what `b` sends; otherwise sending stops inside `a`.
   */
  lemma {:induction false} BeforeRaiseAppend(raising: set<ScanRequest>, a: seq<ScanRequest>, b: seq<ScanRequest>)
    ensures NoneRaise(raising, a) ==> BeforeRaise(raising, a + b) == a + BeforeRaise(raising, b)
    ensures !NoneRaise(raising, a) ==> BeforeRaise(raising, a + b) == BeforeRaise(raising, a)
  {
    if a == [] {
      assert a + b == b;
    } else {
      assert (a + b)[0] == a[0];
      assert (a + b)[1..] == a[1..] + b;
      BeforeRaiseAppend(raising, a[1..], b);
      if a[0] !in raising {
        assert NoneRaise(raising, a) ==> NoneRaise(raising, a[1..]);
        if !NoneRaise(raising, a) {
          var i :| 0 <= i < |a| && a[i] in raising;
          assert a[1..][i - 1] == a[i];
        }
        AppendAssoc([a[0]], a[1..], BeforeRaise(raising, b));
      }
    }
  }

  /** Once something in `a` raises, nothing after `a` is sent. */
  lemma BeforeRaiseStops(raising: set<ScanRequest>, a: seq<ScanRequest>, b: seq<ScanRequest>)
    requires !NoneRaise(raising, a)
    ensures BeforeRaise(raising, a + b) == BeforeRaise(raising, a)
    ensures !NoneRaise(raising, a + b)
  {
    BeforeRaiseAppend(raising, a, b);
    NoneRaiseAppend(raising, a, b);
  }

  /**
   * A request that raises in the middle of a list: a loop that stops at it
   * delivers only what comes before it, while a loop that catches the error
   * per request also delivers everything after it.
   */
  lemma RaiseStopsOnlyTheStoppingLoop(connected: bool, failures: set<ScanRequest>, raising: set<ScanRequest>,
                                      a: seq<ScanRequest>, r: ScanRequest, b: seq<ScanRequest>)
    requires NoneRaise(raising, a) && r in raising && raising <= failures
    ensures Delivered(connected, failures, BeforeRaise(raising, a + [r] + b)) == Delivered(connected, failures, a)
    ensures Delivered(connected, failures, a + [r] + b) == Delivered(connected, failures, a) + Delivered(connected, failures, b)
  {
    AppendAssoc(a, [r], b);
    BeforeRaiseAppend(raising, a, [r] + b);
    assert ([r] + b)[0] == r;
    assert BeforeRaise(raising, [r] + b) == [];
    assert a + [] == a;
    DeliveredAppend(connected, failures, a, [r] + b);
    DeliveredAppend(connected, failures, [r], b);
    assert [r][..0] == [];
    assert Delivered(connected, failures, [r]) == [];
  }

  /** Some location of the section is a string prefix of the path (`file_path.startswith(location)`). */
  predicate Owns(section: LibraryInfo, path: string)
  {
    exists loc :: loc in section.locations && loc <= path
  }

  /** `find_library_by_path`: the first section, in list order, that owns the path. */
  function FindLibraryByPath(sections: seq<LibraryInfo>, path: string): Option<LibraryInfo>
  {
    if sections == [] then None
    else if Owns(sections[0], path) then Some(sections[0])
    else FindLibraryByPath(sections[1..], path)
  }

  /**
   * The lookup finds the first owning section: a found section is at some
   * index, owns the path, and no earlier section does; nothing is found
   * exactly when no section owns the path.
   */
  lemma {:induction false} FindLibraryByPathSpec(sections: seq<LibraryInfo>, path: string)
    ensures FindLibraryByPath(sections, path).Some? ==>
      exists i :: 0 <= i < |sections| && sections[i] == FindLibraryByPath(sections, path).value && Owns(sections[i], path)
                  && forall j :: 0 <= j < i ==> !Owns(sections[j], path)
    ensures FindLibraryByPath(sections, path).None? <==> forall i :: 0 <= i < |sections| ==> !Owns(sections[i], path)
  {
    if sections != [] && !Owns(sections[0], path) {
      var tail := sections[1..];
      FindLibraryByPathSpec(tail, path);
      assert forall i :: 1 <= i < |sections| ==> sections[i] == tail[i - 1];
      if FindLibraryByPath(tail, path).Some? {
        var i :| 0 <= i < |tail| && tail[i] == FindLibraryByPath(tail, path).value && Owns(tail[i], path)
                 && forall j :: 0 <= j < i ==> !Owns(tail[j], path);
        assert sections[i + 1] == tail[i];
      }
    } else if sections != [] {
      assert Owns(sections[0], path);
    }
  }

  /** The section at index `i` is the last one with its title. */
  ghost predicate LastWithTitle(sections: seq<LibraryInfo>, i: int)
    requires 0 <= i < |sections|
  {
    forall j :: i < j < |sections| ==> sections[j].title != sections[i].title
  }

  /** A dict comprehension keyed by section title: a later section with the same title overwrites an earlier one. */
  function ByTitle<V>(sections: seq<LibraryInfo>, f: LibraryInfo -> V): map<string, V>
  {
    if sections == [] then map[]
    else ByTitle(sections[..|sections| - 1], f)[sections[|sections| - 1].title := f(sections[|sections| - 1])]
  }

  /** The keys of `ByTitle` are exactly the titles of the sections. */
  lemma {:induction false} ByTitleKeys<V>(sections: seq<LibraryInfo>, f: LibraryInfo -> V)
    ensures forall t :: t in ByTitle(sections, f) <==> exists i :: 0 <= i < |sections| && sections[i].title == t
  {
    if sections != [] {
      var n := |sections| - 1;
      var init := sections[..n];
      ByTitleKeys(init, f);
      forall t ensures t in ByTitle(sections, f) <==> exists i :: 0 <= i < |sections| && sections[i].title == t {
        if t != sections[n].title && exists i :: 0 <= i < |sections| && sections[i].title == t {
          var i :| 0 <= i < |sections| && sections[i].title == t;
          assert init[i] == sections[i];
        }
        if t != sections[n].title && t in ByTitle(init, f) {
          var i :| 0 <= i < n && init[i].title == t;
          assert sections[i] == init[i];
        }
      }
    }
  }

  /** Each title maps to the value of the last section that has it. */
  lemma {:induction false} ByTitleLastWins<V>(sections: seq<LibraryInfo>, f: LibraryInfo -> V, i: int)
    requires 0 <= i < |sections| && LastWithTitle(sections, i)
    ensures sections[i].title in ByTitle(sections, f)
    ensures ByTitle(sections, f)[sections[i].title] == f(sections[i])
  {
    var n := |sections| - 1;
    if i < n {
      var init := sections[..n];
      assert sections[n].title != sections[i].title;
      assert init[i] == sections[i];
      assert forall j :: i < j < n ==> init[j] == sections[j];
      ByTitleLastWins(init, f, i);
    }
  }

  /** The two facts about `ByTitle` that the title maps promise. */
  lemma ByTitleSpec<V>(sections: seq<LibraryInfo>, f: LibraryInfo -> V)
    ensures forall t :: t in ByTitle(sections, f) <==> exists i :: 0 <= i < |sections| && sections[i].title == t
    ensures forall i :: 0 <= i < |sections| && LastWithTitle(sections, i) ==> ByTitle(sections, f)[sections[i].title] == f(sections[i])
  {
    ByTitleKeys(sections, f);
    forall i | 0 <= i < |sections| && LastWithTitle(sections, i)
      ensures ByTitle(sections, f)[sections[i].title] == f(sections[i])
    {
      ByTitleLastWins(sections, f, i);
    }
  }

  /** `get_library_ids`: title to key; for duplicate titles the later section wins. */
  function GetLibraryIds(sections: seq<LibraryInfo>): (r: map<string, string>)
    ensures forall t :: t in r <==> exists i :: 0 <= i < |sections| && sections[i].title == t
    ensures forall i :: 0 <= i < |sections| && LastWithTitle(sections, i) ==> r[sections[i].title] == sections[i].key
  {
    ByTitleSpec(sections, (s: LibraryInfo) => s.key);
    ByTitle(sections, (s: LibraryInfo) => s.key)
  }

  /** `get_library_locations`: title to locations; for duplicate titles the later section wins. */
  function GetLibraryLocations(sections: seq<LibraryInfo>): (r: map<string, seq<string>>)
    ensures forall t :: t in r <==> exists i :: 0 <= i < |sections| && sections[i].title == t
    ensures forall i :: 0 <= i < |sections| && LastWithTitle(sections, i) ==> r[sections[i].title] == sections[i].locations
  {
    ByTitleSpec(sections, (s: LibraryInfo) => s.locations);
    ByTitle(sections, (s: LibraryInfo) => s.locations)
  }

  /** `get_libraries_by_type`: the sections of the given type, in their original order. */
  function GetLibrariesByType(sections: seq<LibraryInfo>, libraryType: string): (r: seq<LibraryInfo>)
    ensures |r| <= |sections|
    ensures forall s :: s in r <==> s in sections && s.libraryType == libraryType
  {
    if sections == [] then []
    else
      var n := |sections| - 1;
      var init := GetLibrariesByType(sections[..n], libraryType);
      assert sections == sections[..n] + [sections[n]];
      if sections[n].libraryType == libraryType then init + [sections[n]] else init
  }

  /** Filtering by type distributes over concatenation, so the relative order of the kept sections is the original one. */
  lemma {:induction false} LibrariesByTypeAppend(a: seq<LibraryInfo>, b: seq<LibraryInfo>, libraryType: string)
    ensures GetLibrariesByType(a + b, libraryType) == GetLibrariesByType(a, libraryType) + GetLibrariesByType(b, libraryType)
  {
    if b != [] {
      var n := |b| - 1;
      var init := b[..n];
      assert (a + b)[..|a + b| - 1] == a + init;
      assert (a + b)[|a + b| - 1] == b[n];
      LibrariesByTypeAppend(a, init, libraryType);
      AppendAssoc(GetLibrariesByType(a, libraryType), GetLibrariesByType(init, libraryType),
                  if b[n].libraryType == libraryType then [b[n]] else []);
    } else {
      assert a + b == a;
    }
  }

  /** Filtering by type twice is filtering once. */
  lemma {:induction false} LibrariesByTypeIdempotent(sections: seq<LibraryInfo>, libraryType: string)
    ensures GetLibrariesByType(GetLibrariesByType(sections, libraryType), libraryType) == GetLibrariesByType(sections, libraryType)
  {
    if sections != [] {
      var n := |sections| - 1;
      var init := GetLibrariesByType(sections[..n], libraryType);
      LibrariesByTypeIdempotent(sections[..n], libraryType);
      if sections[n].libraryType == libraryType {
        LibrariesByTypeAppend(init, [sections[n]], libraryType);
        assert [sections[n]][..0] == [];
      }
    }
  }

  /*
   * The server-side tree that `cache_library_files` walks. `part.file` is a
   * string; the empty string stands for a part without a file (Python's
   * falsy `part.file`).
   */
  datatype Part = Part(file: string)
  datatype Media = Media(parts: seq<Part>)
  datatype Episode = Episode(media: seq<Media>)
  /** An entry of `section.all()`: the show branch reads its episodes, the other branch its media. */
  datatype Item = Item(episodes: seq<Episode>, media: seq<Media>)
  /** A section of the server: its descriptor and its entries. */
  datatype Section = Section(info: LibraryInfo, items: seq<Item>)

  /** `get_library_sections`: the descriptors of the server's sections, none without a server. */
  function SectionInfos(server: Option<seq<Section>>): (r: seq<LibraryInfo>)
    ensures server.None? ==> r == []
    ensures server.Some? ==> |r| == |server.value| && forall i :: 0 <= i < |r| ==> r[i] == server.value[i].info
  {
    match server
    case None => []
    case Some(sections) => seq(|sections|, i requires 0 <= i < |sections| => sections[i].info)
  }

  /** `sectionByID`: the first section with that key, or none (the server's NotFound). */
  function SectionById(sections: seq<Section>, key: string): (r: Option<Section>)
    ensures r.Some? ==> r.value in sections && r.value.info.key == key
    ensures r.None? <==> forall i :: 0 <= i < |sections| ==> sections[i].info.key != key
  {
    if sections == [] then None
    else if sections[0].info.key == key then Some(sections[0])
    else
      var r := SectionById(sections[1..], key);
      assert forall i :: 1 <= i < |sections| ==> sections[i] == sections[1..][i - 1];
      r
  }

  /**
   * The descriptors read at start-up list a key exactly when the server can
   * find a section by it, and the section found is described among them.
   */
  lemma SectionInfosAgreeWithSectionById(sections: seq<Section>, key: string)
    ensures SectionById(sections, key).Some? <==>
      exists i :: 0 <= i < |SectionInfos(Some(sections))| && SectionInfos(Some(sections))[i].key == key
    ensures SectionById(sections, key).Some? ==> SectionById(sections, key).value.info in SectionInfos(Some(sections))
  {
    var infos := SectionInfos(Some(sections));
    if SectionById(sections, key).Some? {
      var i :| 0 <= i < |sections| && sections[i] == SectionById(sections, key).value;
      assert infos[i] == sections[i].info;
    }
  }

  /** The rows for the parts that have a file, in order. */
  function PartRows(key: string, parts: seq<Part>): seq<Row>
  {
    if parts == [] then []
    else
      var n := |parts| - 1;
      PartRows(key, parts[..n]) + (if parts[n].file != "" then [Row(key, parts[n].file)] else [])
  }

  function MediaRows(key: string, media: seq<Media>): seq<Row>
  {
    if media == [] then [] else MediaRows(key, media[..|media| - 1]) + PartRows(key, media[|media| - 1].parts)
  }

  function EpisodeRows(key: string, episodes: seq<Episode>): seq<Row>
  {
    if episodes == [] then [] else EpisodeRows(key, episodes[..|episodes| - 1]) + MediaRows(key, episodes[|episodes| - 1].media)
  }

  /** show -> episode -> media -> part. */
  function ShowRows(key: string, items: seq<Item>): seq<Row>
  {
    if items == [] then [] else ShowRows(key, items[..|items| - 1]) + EpisodeRows(key, items[|items| - 1].episodes)
  }

  /** movie -> media -> part. */
  function MovieRows(key: string, items: seq<Item>): seq<Row>
  {
    if items == [] then [] else MovieRows(key, items[..|items| - 1]) + MediaRows(key, items[|items| - 1].media)
  }

  /** The `library_files` list of `cache_library_files` for a section found under `key`. */
  function LibraryRows(key: string, section: Section): seq<Row>
  {
    if section.info.libraryType == "show" then ShowRows(key, section.items) else MovieRows(key, section.items)
  }

  /** A part list yields exactly the non-empty files, under the given key. */
  lemma {:induction false} PartRowsExactly(key: string, parts: seq<Part>)
    ensures forall r :: r in PartRows(key, parts) <==> r.libraryKey == key && r.filePath != "" && Part(r.filePath) in parts
  {
    if parts != [] {
      var n := |parts| - 1;
      PartRowsExactly(key, parts[..n]);
      assert parts == parts[..n] + [parts[n]];
    }
  }

  /** A media list yields exactly the non-empty files of its parts. */
  lemma {:induction false} MediaRowsExactly(key: string, media: seq<Media>)
    ensures forall r :: r in MediaRows(key, media) <==>
      r.libraryKey == key && r.filePath != "" && exists m :: m in media && Part(r.filePath) in m.parts
  {
    if media != [] {
      var n := |media| - 1;
      MediaRowsExactly(key, media[..n]);
      PartRowsExactly(key, media[n].parts);
      assert media == media[..n] + [media[n]];
    }
  }

  /** An episode list yields exactly the non-empty files of episode -> media -> part. */
  lemma {:induction false} EpisodeRowsExactly(key: string, episodes: seq<Episode>)
    ensures forall r :: r in EpisodeRows(key, episodes) <==>
      r.libraryKey == key && r.filePath != "" &&
      exists e, m :: e in episodes && m in e.media && Part(r.filePath) in m.parts
  {
    if episodes != [] {
      var n := |episodes| - 1;
      EpisodeRowsExactly(key, episodes[..n]);
      MediaRowsExactly(key, episodes[n].media);
      assert episodes == episodes[..n] + [episodes[n]];
    }
  }

  /** On the movie branch, the rows are exactly the non-empty files of movie -> media -> part, under the given key. */
  lemma {:induction false} MovieRowsExactly(key: string, items: seq<Item>)
    ensures forall r :: r in MovieRows(key, items) <==>
      r.libraryKey == key && r.filePath != "" &&
      exists movie, m :: movie in items && m in movie.media && Part(r.filePath) in m.parts
  {
    if items != [] {
      var n := |items| - 1;
      MovieRowsExactly(key, items[..n]);
      MediaRowsExactly(key, items[n].media);
      assert items == items[..n] + [items[n]];
    }
  }

  /** On the show branch, the rows are exactly the non-empty files of show -> episode -> media -> part, under the given key. */
  lemma {:induction false} ShowRowsExactly(key: string, items: seq<Item>)
    ensures forall r :: r in ShowRows(key, items) <==>
      r.libraryKey == key && r.filePath != "" &&
      exists show, e, m :: show in items && e in show.episodes && m in e.media && Part(r.filePath) in m.parts
  {
    if items != [] {
      var n := |items| - 1;
      ShowRowsExactly(key, items[..n]);
      EpisodeRowsExactly(key, items[n].episodes);
      assert items == items[..n] + [items[n]];
    }
  }
}
