/**
 * The debounce queue of the watcher's `BatchScanManager`: pending scans keyed
 * by library key and parent directory, each carrying the time of the latest
 * notification for its key. A processor pass emits, in insertion order, the
 * entries that have been quiet for at least the delay and keeps the others;
 * shutdown emits everything that is left.
 *
 * The dictionary is a map together with the order in which its keys were
 * first inserted (the iteration order of a Python dict). Times are whole
 * seconds supplied by the caller.
 */
module Coalescer {
  import opened Library
  import opened Sequences
  import PlexClient

  /** `PendingScan`: the library key, the directory to rescan and the time of the latest notification. */
  datatype PendingScan = PendingScan(libraryKey: string, parentDir: string, timestamp: int)

  /** The dictionary key `f"{library_key}:{parent_dir}"`. */
  function ScanKey(libraryKey: string, parentDir: string): string
  {
    libraryKey + ":" + parentDir
  }

  function KeyOf(s: PendingScan): string
  {
    ScanKey(s.libraryKey, s.parentDir)
  }

  /** Library keys without ':' (the server's keys are numerals) keep the composite key unambiguous. */
  lemma ScanKeyInjective(libraryKey1: string, parentDir1: string, libraryKey2: string, parentDir2: string)
    requires ':' !in libraryKey1 && ':' !in libraryKey2
    ensures ScanKey(libraryKey1, parentDir1) == ScanKey(libraryKey2, parentDir2) <==>
            libraryKey1 == libraryKey2 && parentDir1 == parentDir2
  {
    if ScanKey(libraryKey1, parentDir1) == ScanKey(libraryKey2, parentDir2) {
      ScanKeyParts(libraryKey1, parentDir1);
      ScanKeyParts(libraryKey2, parentDir2);
      if |libraryKey1| < |libraryKey2| {
        assert false;
      } else if |libraryKey2| < |libraryKey1| {
        assert false;
      }
    }
  }

  /** The composite key is the library key, a ':' at its length, and the directory. */
  lemma ScanKeyParts(libraryKey: string, parentDir: string)
    ensures forall i :: 0 <= i < |libraryKey| ==> ScanKey(libraryKey, parentDir)[i] == libraryKey[i]
    ensures ScanKey(libraryKey, parentDir)[|libraryKey|] == ':'
    ensures ScanKey(libraryKey, parentDir)[..|libraryKey|] == libraryKey
    ensures ScanKey(libraryKey, parentDir)[|libraryKey| + 1..] == parentDir
  {
  }

  /** With a ':' inside a library key two different requests share one dictionary entry. */
  lemma ScanKeyCollision()
    ensures ScanKey("1:a", "b") == ScanKey("1", "a:b")
  {
  }

  /** The pending dictionary: keys in first-insertion order, and the entry of each key. */
  datatype Queue = Queue(order: seq<string>, scans: map<string, PendingScan>)

  /** The order lists each key of the map exactly once, and each entry sits under its own key. */
  ghost predicate WellFormed(q: Queue)
  {
    && Distinct(q.order)
    && (forall k :: k in q.scans <==> k in q.order)
    && (forall k :: k in q.scans ==> KeyOf(q.scans[k]) == k)
  }

  /** The dictionary of a fresh manager. */
  const Empty: Queue := Queue([], map[])

  /**
   * The assignment `pending_scans[scan_key] = PendingScan(...)`: a new key is
   * appended to the order, an existing key keeps its place and gets the new
   * entry.
   */
  function Record(q: Queue, libraryKey: string, parentDir: string, now: int): Queue
  {
    var k := ScanKey(libraryKey, parentDir);
    Queue(if k in q.scans then q.order else q.order + [k], q.scans[k := PendingScan(libraryKey, parentDir, now)])
  }

  /** An entry is ready once `current_time - timestamp >= delay_seconds`. */
  predicate IsReady(s: PendingScan, now: int, delay: int)
  {
    now - s.timestamp >= delay
  }

  /** The ready entries of the keys in `order`, in that order. */
  function ReadyOf(order: seq<string>, scans: map<string, PendingScan>, now: int, delay: int): seq<PendingScan>
  {
    if order == [] then []
    else
      var n := |order| - 1;
      ReadyOf(order[..n], scans, now, delay)
        + (if order[n] in scans && IsReady(scans[order[n]], now, delay) then [scans[order[n]]] else [])
  }

  /** The keys in `order` whose entries are not ready, in that order. */
  function KeptOf(order: seq<string>, scans: map<string, PendingScan>, now: int, delay: int): seq<string>
  {
    if order == [] then []
    else
      var n := |order| - 1;
      KeptOf(order[..n], scans, now, delay)
        + (if order[n] in scans && !IsReady(scans[order[n]], now, delay) then [order[n]] else [])
  }

  /** The entries of the keys in `order`, in that order (`list(pending_scans.values())`). */
  function ScansOf(order: seq<string>, scans: map<string, PendingScan>): seq<PendingScan>
  {
    if order == [] then []
    else
      var n := |order| - 1;
      ScansOf(order[..n], scans) + (if order[n] in scans then [scans[order[n]]] else [])
  }

  /** What one processor pass takes out of the dictionary, and what it leaves. */
  datatype Pass = Pass(ready: seq<PendingScan>, rest: Queue)

  /** The locked loop of `_batch_processor`: the ready entries, in order, are removed and returned. */
  function Drain(q: Queue, now: int, delay: int): Pass
  {
    Pass(ReadyOf(q.order, q.scans, now, delay),
         Queue(KeptOf(q.order, q.scans, now, delay),
               map k | k in q.scans && !IsReady(q.scans[k], now, delay) :: q.scans[k]))
  }

  /** The entries shutdown takes out, in order. */
  function Flush(q: Queue): seq<PendingScan>
  {
    ScansOf(q.order, q.scans)
  }

  /** The scan requests for a list of entries, in order (`send_scan_request(library_key, parent_dir)` for each). */
  function Requests(scans: seq<PendingScan>): seq<ScanRequest>
  {
    if scans == [] then []
    else
      var n := |scans| - 1;
      Requests(scans[..n]) + [ScanRequest(scans[n].libraryKey, scans[n].parentDir)]
  }

  /** One request per entry, in the entries' order. */
  lemma {:induction false} RequestsOfEntries(scans: seq<PendingScan>)
    ensures |Requests(scans)| == |scans|
    ensures forall i :: 0 <= i < |scans| ==> Requests(scans)[i] == ScanRequest(scans[i].libraryKey, scans[i].parentDir)
  {
    if scans != [] {
      RequestsOfEntries(scans[..|scans| - 1]);
    }
  }

  /**
   * The send loop catches a failure per entry: whatever requests fail, by an
   * API error or by any other error, every other entry's request still takes
   * effect.
   */
  lemma SendFailureIsolated(connected: bool, failures: set<ScanRequest>, scans: seq<PendingScan>, i: nat)
    requires i < |scans|
    ensures ScanRequest(scans[i].libraryKey, scans[i].parentDir) in Delivered(connected, failures, Requests(scans)) <==>
      connected && ScanRequest(scans[i].libraryKey, scans[i].parentDir) !in failures
  {
    RequestsOfEntries(scans);
    DeliveredExactly(connected, failures, Requests(scans));
    assert Requests(scans)[i] == ScanRequest(scans[i].libraryKey, scans[i].parentDir);
  }

  /**
   * An add sets the entry of its key to a record with the current time,
   * leaves every other key as it was, grows the dictionary by at most one
   * key, never reorders the keys already there, and keeps the dictionary
   * well formed.
   */
  lemma RecordSpec(q: Queue, libraryKey: string, parentDir: string, now: int)
    requires WellFormed(q)
    ensures WellFormed(Record(q, libraryKey, parentDir, now))
    ensures Record(q, libraryKey, parentDir, now).scans[ScanKey(libraryKey, parentDir)] == PendingScan(libraryKey, parentDir, now)
    ensures forall k :: k != ScanKey(libraryKey, parentDir) ==>
      (k in Record(q, libraryKey, parentDir, now).scans <==> k in q.scans) &&
      (k in q.scans ==> Record(q, libraryKey, parentDir, now).scans[k] == q.scans[k])
    ensures |Record(q, libraryKey, parentDir, now).scans| <= |q.scans| + 1
    ensures q.order <= Record(q, libraryKey, parentDir, now).order
  {
    RecordKeepsWellFormed(q, libraryKey, parentDir, now);
    RecordGrowsByAtMostOne(q, libraryKey, parentDir, now);
  }

  lemma RecordKeepsWellFormed(q: Queue, libraryKey: string, parentDir: string, now: int)
    requires WellFormed(q)
    ensures WellFormed(Record(q, libraryKey, parentDir, now))
  {
    var k := ScanKey(libraryKey, parentDir);
    var r := Record(q, libraryKey, parentDir, now);
    if k !in q.scans {
      forall i, j | 0 <= i < j < |r.order|
        ensures r.order[i] != r.order[j]
      {
        if j == |q.order| {
          assert q.order[i] in q.order;
        }
      }
    }
  }

  lemma RecordGrowsByAtMostOne(q: Queue, libraryKey: string, parentDir: string, now: int)
    ensures |Record(q, libraryKey, parentDir, now).scans| <= |q.scans| + 1
  {
    var k := ScanKey(libraryKey, parentDir);
    var r := Record(q, libraryKey, parentDir, now);
    if k !in q.scans {
      assert r.scans.Keys == q.scans.Keys + {k};
    } else {
      assert r.scans.Keys == q.scans.Keys;
    }
  }

  /** A burst of adds for one key: the same add at each of the given times. */
  function RecordAll(q: Queue, libraryKey: string, parentDir: string, times: seq<int>): Queue
  {
    if times == [] then q
    else Record(RecordAll(q, libraryKey, parentDir, times[..|times| - 1]), libraryKey, parentDir, times[|times| - 1])
  }

  /** Repeated adds for one key leave one entry carrying the latest time: the earlier adds leave no trace. */
  lemma {:induction false} RecordAllIsLastRecord(q: Queue, libraryKey: string, parentDir: string, times: seq<int>)
    requires times != []
    ensures RecordAll(q, libraryKey, parentDir, times) == Record(q, libraryKey, parentDir, times[|times| - 1])
  {
    var n := |times| - 1;
    if n > 0 {
      RecordAllIsLastRecord(q, libraryKey, parentDir, times[..n]);
      assert times[..n][n - 1] == times[n - 1];
      var k := ScanKey(libraryKey, parentDir);
      var once := Record(q, libraryKey, parentDir, times[n - 1]);
      assert k in once.scans;
      assert Record(once, libraryKey, parentDir, times[n]).scans == q.scans[k := PendingScan(libraryKey, parentDir, times[n])];
    }
  }

  lemma {:induction false} ReadyOfMembers(order: seq<string>, scans: map<string, PendingScan>, now: int, delay: int)
    ensures forall s :: s in ReadyOf(order, scans, now, delay) <==>
      IsReady(s, now, delay) && exists k :: k in order && k in scans && scans[k] == s
  {
    if order != [] {
      var n := |order| - 1;
      ReadyOfMembers(order[..n], scans, now, delay);
      assert order == order[..n] + [order[n]];
    }
  }

  lemma {:induction false} KeptOfMembers(order: seq<string>, scans: map<string, PendingScan>, now: int, delay: int)
    ensures forall k :: k in KeptOf(order, scans, now, delay) <==> k in order && k in scans && !IsReady(scans[k], now, delay)
  {
    if order != [] {
      var n := |order| - 1;
      KeptOfMembers(order[..n], scans, now, delay);
      assert order == order[..n] + [order[n]];
    }
  }

  /** When every key of the order is present, each key goes to exactly one of the two sides. */
  lemma {:induction false} ReadyKeptCount(order: seq<string>, scans: map<string, PendingScan>, now: int, delay: int)
    requires forall k :: k in order ==> k in scans
    ensures |ReadyOf(order, scans, now, delay)| + |KeptOf(order, scans, now, delay)| == |order|
  {
    if order != [] {
      var n := |order| - 1;
      assert forall k :: k in order[..n] ==> k in order;
      ReadyKeptCount(order[..n], scans, now, delay);
      assert order[n] in order;
    }
  }

  /** Distinct keys whose entries sit under their own keys give distinct ready entries. */
  lemma {:induction false} ReadyOfDistinct(order: seq<string>, scans: map<string, PendingScan>, now: int, delay: int)
    requires Distinct(order)
    requires forall k :: k in scans ==> KeyOf(scans[k]) == k
    ensures Distinct(ReadyOf(order, scans, now, delay))
  {
    if order != [] {
      var n := |order| - 1;
      var init := ReadyOf(order[..n], scans, now, delay);
      ReadyOfDistinct(order[..n], scans, now, delay);
      ReadyOfMembers(order[..n], scans, now, delay);
      if order[n] in scans && IsReady(scans[order[n]], now, delay) {
        forall i | 0 <= i < |init| ensures init[i] != scans[order[n]] {
          assert init[i] in init;
          var k :| k in order[..n] && k in scans && scans[k] == init[i];
          var a :| 0 <= a < n && order[..n][a] == k;
          assert order[a] != order[n];
        }
      }
    }
  }

  lemma {:induction false} KeptOfDistinct(order: seq<string>, scans: map<string, PendingScan>, now: int, delay: int)
    requires Distinct(order)
    ensures Distinct(KeptOf(order, scans, now, delay))
  {
    if order != [] {
      var n := |order| - 1;
      var init := KeptOf(order[..n], scans, now, delay);
      KeptOfDistinct(order[..n], scans, now, delay);
      KeptOfMembers(order[..n], scans, now, delay);
      forall i | 0 <= i < |init| ensures init[i] != order[n] {
        assert init[i] in init;
        var a :| 0 <= a < n && order[..n][a] == init[i];
        assert order[a] != order[n];
      }
    }
  }

  /**
   * One processor pass emits exactly the ready entries, each once, and keeps
   * exactly the others, unchanged and still well formed; every key goes to
   * one side or the other.
   */
  lemma DrainSpec(q: Queue, now: int, delay: int)
    requires WellFormed(q)
    ensures WellFormed(Drain(q, now, delay).rest)
    ensures forall s :: s in Drain(q, now, delay).ready <==> s in q.scans.Values && IsReady(s, now, delay)
    ensures Distinct(Drain(q, now, delay).ready)
    ensures forall k :: k in Drain(q, now, delay).rest.scans <==> k in q.scans && !IsReady(q.scans[k], now, delay)
    ensures forall k :: k in Drain(q, now, delay).rest.scans ==> Drain(q, now, delay).rest.scans[k] == q.scans[k]
    ensures |Drain(q, now, delay).ready| + |Drain(q, now, delay).rest.order| == |q.order|
  {
    ReadyOfMembers(q.order, q.scans, now, delay);
    KeptOfMembers(q.order, q.scans, now, delay);
    ReadyOfDistinct(q.order, q.scans, now, delay);
    KeptOfDistinct(q.order, q.scans, now, delay);
    ReadyKeptCount(q.order, q.scans, now, delay);
  }

  /** A second pass at the same time finds nothing ready. */
  lemma DrainAgainEmitsNothing(q: Queue, now: int, delay: int)
    requires WellFormed(q)
    ensures Drain(Drain(q, now, delay).rest, now, delay).ready == []
  {
    var rest := Drain(q, now, delay).rest;
    DrainSpec(q, now, delay);
    NoneReadyEmitsNothing(rest.order, rest.scans, now, delay);
  }

  lemma {:induction false} NoneReadyEmitsNothing(order: seq<string>, scans: map<string, PendingScan>, now: int, delay: int)
    requires forall k :: k in order && k in scans ==> !IsReady(scans[k], now, delay)
    ensures ReadyOf(order, scans, now, delay) == []
  {
    if order != [] {
      var n := |order| - 1;
      assert forall k :: k in order[..n] ==> k in order;
      NoneReadyEmitsNothing(order[..n], scans, now, delay);
      assert order[n] in order;
    }
  }

  /** A map holding exactly the entries of `q` that are not ready is the dictionary a pass leaves. */
  lemma RemainingIsRest(q: Queue, now: int, delay: int, m: map<string, PendingScan>)
    requires forall k :: k in m <==> k in q.scans && !IsReady(q.scans[k], now, delay)
    requires forall k :: k in m ==> m[k] == q.scans[k]
    ensures m == Drain(q, now, delay).rest.scans
  {
  }

  /** An entry found ready is emitted exactly once by the pass, and its key leaves the dictionary. */
  lemma EmittedOnceWhenQuiet(q: Queue, k: string, now: int, delay: int)
    requires WellFormed(q) && k in q.scans && IsReady(q.scans[k], now, delay)
    ensures exists i :: 0 <= i < |Drain(q, now, delay).ready| && Drain(q, now, delay).ready[i] == q.scans[k]
    ensures forall i, j ::
      (0 <= i < |Drain(q, now, delay).ready| && 0 <= j < |Drain(q, now, delay).ready| &&
       KeyOf(Drain(q, now, delay).ready[i]) == k && KeyOf(Drain(q, now, delay).ready[j]) == k) ==> i == j
    ensures k !in Drain(q, now, delay).rest.scans
  {
    var ready := Drain(q, now, delay).ready;
    DrainSpec(q, now, delay);
    assert q.scans[k] in ready;
    forall i, j | 0 <= i < |ready| && 0 <= j < |ready| && KeyOf(ready[i]) == k && KeyOf(ready[j]) == k
      ensures i == j
    {
      assert ready[i] in ready && ready[j] in ready;
      assert ready[i] == q.scans[KeyOf(ready[i])];
    }
  }

  /** Shutdown emits every entry once, whatever its age. */
  lemma {:induction false} FlushSpec(q: Queue)
    requires WellFormed(q)
    ensures |Flush(q)| == |q.order|
    ensures forall s :: s in Flush(q) <==> s in q.scans.Values
    ensures Distinct(Flush(q))
  {
    ScansOfSpec(q.order, q.scans);
  }

  lemma {:induction false} ScansOfSpec(order: seq<string>, scans: map<string, PendingScan>)
    requires Distinct(order) && (forall k :: k in order ==> k in scans)
    requires forall k :: k in scans ==> KeyOf(scans[k]) == k
    ensures |ScansOf(order, scans)| == |order|
    ensures forall s :: s in ScansOf(order, scans) <==> exists k :: k in order && k in scans && scans[k] == s
    ensures Distinct(ScansOf(order, scans))
  {
    if order != [] {
      var n := |order| - 1;
      var init := ScansOf(order[..n], scans);
      assert forall k :: k in order[..n] ==> k in order;
      ScansOfSpec(order[..n], scans);
      assert order == order[..n] + [order[n]];
      assert order[n] in order;
      forall i | 0 <= i < |init| ensures init[i] != scans[order[n]] {
        assert init[i] in init;
        var k :| k in order[..n] && k in scans && scans[k] == init[i];
        var a :| 0 <= a < n && order[..n][a] == k;
        assert order[a] != order[n];
      }
    }
  }

  lemma ReadyOfStep(order: seq<string>, scans: map<string, PendingScan>, now: int, delay: int, i: nat)
    requires i < |order|
    ensures ReadyOf(order[..i + 1], scans, now, delay) == ReadyOf(order[..i], scans, now, delay)
      + (if order[i] in scans && IsReady(scans[order[i]], now, delay) then [scans[order[i]]] else [])
  {
    assert order[..i + 1][..i] == order[..i];
  }

  lemma KeptOfStep(order: seq<string>, scans: map<string, PendingScan>, now: int, delay: int, i: nat)
    requires i < |order|
    ensures KeptOf(order[..i + 1], scans, now, delay) == KeptOf(order[..i], scans, now, delay)
      + (if order[i] in scans && !IsReady(scans[order[i]], now, delay) then [order[i]] else [])
  {
    assert order[..i + 1][..i] == order[..i];
  }

  /** A notification, or a processor pass at some time. */
  datatype Step = Add(libraryKey: string, parentDir: string, time: int) | Tick(time: int)

  /** The entries emitted by a sequence of adds and passes, in order. */
  function Run(q: Queue, steps: seq<Step>, delay: int): seq<PendingScan>
    decreases |steps|
  {
    if steps == [] then []
    else match steps[0]
      case Add(libraryKey, parentDir, time) => Run(Record(q, libraryKey, parentDir, time), steps[1..], delay)
      case Tick(time) => Drain(q, time, delay).ready + Run(Drain(q, time, delay).rest, steps[1..], delay)
  }

  /**
   * Every pass comes less than `delay` after the latest add for key `k`,
   * starting from an entry stamped `last`: the key never goes quiet.
   */
  ghost predicate Busy(k: string, last: int, steps: seq<Step>, delay: int)
    decreases |steps|
  {
    steps == [] ||
    match steps[0]
    case Add(libraryKey, parentDir, time) => Busy(k, if ScanKey(libraryKey, parentDir) == k then time else last, steps[1..], delay)
    case Tick(time) => time - last < delay && Busy(k, last, steps[1..], delay)
  }

  /**
   * Rolling-window debounce: while notifications for a key keep arriving less
   * than `delay` apart, no pass emits it, however long the burst lasts.
   */
  lemma {:induction false} HeldWhileBusy(q: Queue, k: string, steps: seq<Step>, delay: int)
    requires WellFormed(q) && k in q.scans
    requires Busy(k, q.scans[k].timestamp, steps, delay)
    ensures forall s :: s in Run(q, steps, delay) ==> KeyOf(s) != k
    decreases |steps|
  {
    if steps != [] {
      match steps[0]
      case Add(libraryKey, parentDir, time) =>
        RecordSpec(q, libraryKey, parentDir, time);
        HeldWhileBusy(Record(q, libraryKey, parentDir, time), k, steps[1..], delay);
      case Tick(time) =>
        var p := Drain(q, time, delay);
        DrainSpec(q, time, delay);
        HeldWhileBusy(p.rest, k, steps[1..], delay);
        forall s | s in p.ready ensures KeyOf(s) != k {
          var k' :| k' in q.scans && q.scans[k'] == s;
        }
    }
  }

  /** `BatchScanManager`: the pending dictionary, the worker flag and the stop flag. */
  class BatchScanManager {
    const plex: PlexClient.Plex
    const delaySeconds: nat
    var pendingScans: map<string, PendingScan>
    /** The keys of `pendingScans` in the dictionary's iteration order. */
    var scanOrder: seq<string>
    /** A worker thread is alive. */
    var workerRunning: bool
    /** `stop_event` is set. */
    var stopRequested: bool

    function Pending(): Queue
      reads this
    {
      Queue(scanOrder, pendingScans)
    }

    /** The dictionary is well formed, and while a scan is pending and no stop was requested a worker is alive to emit it. */
    ghost predicate Valid()
      reads this
    {
      WellFormed(Pending()) && (pendingScans != map[] && !stopRequested ==> workerRunning)
    }

    constructor (plex: PlexClient.Plex, delaySeconds: nat)
      ensures Valid()
      ensures this.plex == plex && this.delaySeconds == delaySeconds
      ensures Pending() == Empty && !workerRunning && !stopRequested
    {
      this.plex := plex;
      this.delaySeconds := delaySeconds;
      pendingScans := map[];
      scanOrder := [];
      workerRunning := false;
      stopRequested := false;
    }

    /**
     * `add_scan_request`: record the notification, then start a worker unless
     * one is alive; afterwards a worker is alive.
     */
    method AddScanRequest(libraryKey: string, parentDir: string, now: int) returns (started: bool)
      requires Valid()
      modifies this
      ensures Valid()
      ensures Pending() == Record(old(Pending()), libraryKey, parentDir, now)
      ensures workerRunning && started == !old(workerRunning)
      ensures stopRequested == old(stopRequested)
    {
      RecordSpec(Pending(), libraryKey, parentDir, now);
      var scanKey := ScanKey(libraryKey, parentDir);
      if scanKey !in pendingScans {
        scanOrder := scanOrder + [scanKey];
      }
      pendingScans := pendingScans[scanKey := PendingScan(libraryKey, parentDir, now)];
      started := !workerRunning;
      if started {
        workerRunning := true;
      }
    }

    /**
     * One iteration of `_batch_processor`'s loop: with the stop flag set the
     * worker exits; otherwise the ready entries are taken out and sent in
     * order, and the worker exits when the dictionary is left empty and goes
     * on to another pass otherwise.
     */
    method BatchPass(now: int) returns (continues: bool)
      requires Valid() && workerRunning
      modifies this, plex`sent
      ensures Valid()
      ensures stopRequested == old(stopRequested)
      ensures old(stopRequested) ==> Pending() == old(Pending()) && plex.sent == old(plex.sent)
      ensures !old(stopRequested) ==>
        Pending() == Drain(old(Pending()), now, delaySeconds).rest &&
        plex.sent == old(plex.sent) + plex.Issued(Requests(Drain(old(Pending()), now, delaySeconds).ready))
      ensures continues == workerRunning
      ensures continues <==> !stopRequested && pendingScans != map[]
    {
      if stopRequested {
        workerRunning := false;
        return false;
      }
      DrainSpec(Pending(), now, delaySeconds);
      var ready := TakeReady(now);
      SendAll(ready);
      if pendingScans == map[] {
        workerRunning := false;
      }
      continues := workerRunning;
    }

    /** The locked loop of a pass: each ready entry is appended to the list and deleted from the dictionary. */
    method TakeReady(now: int) returns (ready: seq<PendingScan>)
      requires WellFormed(Pending())
      modifies this`pendingScans, this`scanOrder
      ensures Pending() == Drain(old(Pending()), now, delaySeconds).rest
      ensures ready == Drain(old(Pending()), now, delaySeconds).ready
    {
      var order := scanOrder;
      var scans := pendingScans;
      ready := [];
      var kept: seq<string> := [];
      for i := 0 to |order|
        invariant ready == ReadyOf(order[..i], scans, now, delaySeconds)
        invariant kept == KeptOf(order[..i], scans, now, delaySeconds)
        invariant forall k :: k in pendingScans <==> k in scans && (k in order[..i] ==> !IsReady(scans[k], now, delaySeconds))
        invariant forall k :: k in pendingScans ==> pendingScans[k] == scans[k]
      {
        ReadyOfStep(order, scans, now, delaySeconds, i);
        KeptOfStep(order, scans, now, delaySeconds, i);
        var scanKey := order[i];
        assert scanKey in order;
        var pendingScan := scans[scanKey];
        if now - pendingScan.timestamp >= delaySeconds {
          ready := ready + [pendingScan];
          pendingScans := pendingScans - {scanKey};
        } else {
          kept := kept + [scanKey];
        }
        assert forall k :: k in order[..i + 1] <==> k in order[..i] || k == scanKey;
      }
      assert order[..|order|] == order;
      RemainingIsRest(Queue(order, scans), now, delaySeconds, pendingScans);
      scanOrder := kept;
    }

    /**
     * The send loop of a pass and of shutdown: every entry in order. Each send
     * has its own handler, so an error a send raises is caught and the loop
     * goes on with the next entry.
     */
    method SendAll(scans: seq<PendingScan>)
      modifies plex`sent
      ensures plex.sent == old(plex.sent) + plex.Issued(Requests(scans))
    {
      for i := 0 to |scans|
        invariant plex.sent == old(plex.sent) + plex.Issued(Requests(scans[..i]))
      {
        ghost var before := Requests(scans[..i]);
        ghost var step := [ScanRequest(scans[i].libraryKey, scans[i].parentDir)];
        var _ := plex.SendScanRequest(scans[i].libraryKey, scans[i].parentDir);
        assert scans[..i + 1][..i] == scans[..i];
        assert Requests(scans[..i + 1]) == before + step;
        DeliveredAppend(plex.server.Some?, plex.Failures(), before, step);
        AppendAssoc(old(plex.sent), plex.Issued(before), plex.Issued(step));
      }
      assert scans[..|scans|] == scans;
    }

    /**
     * `shutdown`: set the stop flag, take every remaining entry out of the
     * dictionary and send each once, whatever its age. The worker sees the
     * flag at its next check.
     */
    method Shutdown()
      requires Valid()
      modifies this, plex`sent
      ensures Valid()
      ensures stopRequested && Pending() == Empty
      ensures workerRunning == old(workerRunning)
      ensures plex.sent == old(plex.sent) + plex.Issued(Requests(Flush(old(Pending()))))
    {
      stopRequested := true;
      var remainingScans := Flush(Pending());
      pendingScans := map[];
      scanOrder := [];
      SendAll(remainingScans);
    }
  }
}
