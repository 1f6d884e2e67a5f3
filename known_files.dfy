/**
 * The known-file table `plex_library_files` of the local database: one row
 * per file the media server already lists, `file_path` UNIQUE, filled with
 * INSERT OR IGNORE and queried by the pair (library key, file path).
 *
 * The table is the sequence of its rows in insertion order; the row id is
 * left out. Uniqueness of `file_path` is not built into the representation:
 * it is the invariant `UniquePaths` that every insert is proved to keep.
 */
module KnownFiles {

  /** A row: the library key and the file path (the `(key, path)` pairs the cache step produces). */
  datatype Row = Row(libraryKey: string, filePath: string)

  /** Some row carries this file path. */
  predicate HasPath(rows: seq<Row>, path: string)
  {
    exists i :: 0 <= i < |rows| && rows[i].filePath == path
  }

  /** `SELECT 1 ... WHERE library_key = ? AND file_path = ?` finds a row. */
  predicate Contains(rows: seq<Row>, libraryKey: string, path: string)
  {
    Row(libraryKey, path) in rows
  }

  /** The UNIQUE constraint on `file_path`. */
  ghost predicate UniquePaths(rows: seq<Row>)
  {
    forall i, j :: 0 <= i < j < |rows| ==> rows[i].filePath != rows[j].filePath
  }

  /** One `INSERT OR IGNORE`: a row whose path is already present is dropped, whatever its key. */
  function InsertOne(rows: seq<Row>, r: Row): seq<Row>
  {
    if HasPath(rows, r.filePath) then rows else rows + [r]
  }

  /** `executemany` of INSERT OR IGNORE: the batch applied row by row, in order. */
  function InsertOrIgnore(rows: seq<Row>, batch: seq<Row>): seq<Row>
  {
    if batch == [] then rows
    else InsertOne(InsertOrIgnore(rows, batch[..|batch| - 1]), batch[|batch| - 1])
  }

  /** Rows already in the table stay where they are, unchanged: the old table is a prefix of the new one. */
  lemma {:induction false} InsertKeepsRows(rows: seq<Row>, batch: seq<Row>)
    ensures rows <= InsertOrIgnore(rows, batch)
  {
    if batch != [] {
      InsertKeepsRows(rows, batch[..|batch| - 1]);
    }
  }

  /** Every row the insert adds comes from the batch. */
  lemma {:induction false} InsertAddsOnlyBatchRows(rows: seq<Row>, batch: seq<Row>)
    ensures forall x :: x in InsertOrIgnore(rows, batch) ==> x in rows || x in batch
  {
    if batch != [] {
      var init := batch[..|batch| - 1];
      InsertAddsOnlyBatchRows(rows, init);
      forall x | x in init ensures x in batch {
        var k :| 0 <= k < |init| && init[k] == x;
        assert batch[k] == x;
      }
    }
  }

  /** After an insert, every path of the batch is in the table. */
  lemma {:induction false} InsertCoversBatch(rows: seq<Row>, batch: seq<Row>)
    ensures forall i :: 0 <= i < |batch| ==> HasPath(InsertOrIgnore(rows, batch), batch[i].filePath)
  {
    if batch != [] {
      var n := |batch| - 1;
      var before := InsertOrIgnore(rows, batch[..n]);
      InsertCoversBatch(rows, batch[..n]);
      InsertKeepsRows(before, [batch[n]]);
      var after := InsertOrIgnore(rows, batch);
      assert InsertOrIgnore(before, [batch[n]]) == after by {
        assert [batch[n]][..0] == [];
      }
      forall i | 0 <= i < |batch| ensures HasPath(after, batch[i].filePath) {
        if i < n {
          assert batch[..n][i] == batch[i];
          var k :| 0 <= k < |before| && before[k].filePath == batch[i].filePath;
          assert after[k] == before[k];
        } else if !HasPath(before, batch[n].filePath) {
          assert after[|before|] == batch[n];
        }
      }
    }
  }

  /** The insert keeps the UNIQUE constraint on `file_path`. */
  lemma {:induction false} InsertKeepsUnique(rows: seq<Row>, batch: seq<Row>)
    requires UniquePaths(rows)
    ensures UniquePaths(InsertOrIgnore(rows, batch))
  {
    if batch != [] {
      InsertKeepsUnique(rows, batch[..|batch| - 1]);
    }
  }

  /** A path that was already in the table keeps exactly its old rows: a pair with that path under any other key is ignored. */
  lemma {:induction false} ExistingPathIgnored(rows: seq<Row>, batch: seq<Row>, path: string)
    requires HasPath(rows, path)
    ensures forall key :: Contains(InsertOrIgnore(rows, batch), key, path) <==> Contains(rows, key, path)
  {
    if batch != [] {
      var n := |batch| - 1;
      var before := InsertOrIgnore(rows, batch[..n]);
      ExistingPathIgnored(rows, batch[..n], path);
      InsertKeepsRows(rows, batch[..n]);
      var k :| 0 <= k < |rows| && rows[k].filePath == path;
      assert before[k] == rows[k];
    }
  }

  /** Within one batch the first pair with a new path is the one kept: the path ends up under that pair's key and no other. */
  lemma {:induction false} FirstPairWins(rows: seq<Row>, batch: seq<Row>, i: nat)
    requires UniquePaths(rows)
    requires i < |batch| && !HasPath(rows, batch[i].filePath)
    requires forall j :: 0 <= j < i ==> batch[j].filePath != batch[i].filePath
    ensures Contains(InsertOrIgnore(rows, batch), batch[i].libraryKey, batch[i].filePath)
    ensures forall key :: Contains(InsertOrIgnore(rows, batch), key, batch[i].filePath) ==> key == batch[i].libraryKey
  {
    var n := |batch| - 1;
    var p := batch[i].filePath;
    var before := InsertOrIgnore(rows, batch[..n]);
    var after := InsertOrIgnore(rows, batch);
    InsertKeepsUnique(rows, batch);
    if i == n {
      NewPathStaysAbsent(rows, batch[..n], p);
      assert after == before + [batch[n]];
    } else {
      FirstPairWins(rows, batch[..n], i);
      assert Row(batch[i].libraryKey, p) in before;
      InsertKeepsRows(before, [batch[n]]);
      assert InsertOrIgnore(before, [batch[n]]) == after by {
        assert [batch[n]][..0] == [];
      }
    }
    forall key | Contains(after, key, p) ensures key == batch[i].libraryKey {
      var a :| 0 <= a < |after| && after[a] == Row(key, p);
      var b :| 0 <= b < |after| && after[b] == Row(batch[i].libraryKey, p);
      assert a == b;
    }
  }

  /** A path that neither the table nor the batch holds is still absent afterwards. */
  lemma {:induction false} NewPathStaysAbsent(rows: seq<Row>, batch: seq<Row>, path: string)
    requires !HasPath(rows, path)
    requires forall j :: 0 <= j < |batch| ==> batch[j].filePath != path
    ensures !HasPath(InsertOrIgnore(rows, batch), path)
  {
    if batch != [] {
      var n := |batch| - 1;
      NewPathStaysAbsent(rows, batch[..n], path);
    }
  }

  /** Inserting a batch whose paths are all present already changes nothing. */
  lemma {:induction false} InsertOfPresentPathsIsNoop(rows: seq<Row>, batch: seq<Row>)
    requires forall i :: 0 <= i < |batch| ==> HasPath(rows, batch[i].filePath)
    ensures InsertOrIgnore(rows, batch) == rows
  {
    if batch != [] {
      InsertOfPresentPathsIsNoop(rows, batch[..|batch| - 1]);
    }
  }

  /** Inserting the same batch twice leaves the table of inserting it once. */
  lemma InsertIdempotent(rows: seq<Row>, batch: seq<Row>)
    ensures InsertOrIgnore(InsertOrIgnore(rows, batch), batch) == InsertOrIgnore(rows, batch)
  {
    InsertCoversBatch(rows, batch);
    InsertOfPresentPathsIsNoop(InsertOrIgnore(rows, batch), batch);
  }

  /**
   * Uniqueness is on the path alone while the lookup is on the pair: after the
   * same path is offered under two keys, the lookup under the second key fails.
   */
  lemma LookupIsByPairNotPath(path: string)
    ensures HasPath(InsertOrIgnore([], [Row("1", path), Row("2", path)]), path)
    ensures !Contains(InsertOrIgnore([], [Row("1", path), Row("2", path)]), "2", path)
  {
    var batch := [Row("1", path), Row("2", path)];
    assert batch[..1] == [Row("1", path)];
    assert [Row("1", path)][..0] == [];
    assert InsertOrIgnore([], [Row("1", path)]) == [Row("1", path)];
    assert HasPath([Row("1", path)], path);
  }

  /** The `DatabaseManager`: the connection flag and the table it holds. */
  class DatabaseManager {
    var connected: bool
    var rows: seq<Row>

    ghost predicate Valid()
      reads this
    {
      UniquePaths(rows)
    }

    /**
     * `connect`: any existing database file is removed first, so the table
     * starts empty; `opens` says whether removing the file and opening the
     * database succeeded (an OS or sqlite error leaves no connection).
     */
    constructor (opens: bool)
      ensures Valid()
      ensures connected == opens && rows == []
    {
      connected := opens;
      rows := [];
    }

    /** `insert_plex_library_files`: nothing without a connection, otherwise INSERT OR IGNORE of every pair in order. */
    method InsertPlexLibraryFiles(data: seq<Row>)
      requires Valid()
      modifies this`rows
      ensures Valid()
      ensures rows == if connected then InsertOrIgnore(old(rows), data) else old(rows)
    {
      if !connected {
        return;
      }
      for i := 0 to |data|
        invariant rows == InsertOrIgnore(old(rows), data[..i])
      {
        assert data[..i + 1][..i] == data[..i];
        if !HasPath(rows, data[i].filePath) {
          rows := rows + [data[i]];
        }
      }
      assert data[..|data|] == data;
      InsertKeepsUnique(old(rows), data);
    }

    /** The lookup of `full_scan`: is there a row with exactly this key and this path? */
    method IsCached(libraryKey: string, path: string) returns (found: bool)
      requires connected
      ensures found <==> Contains(rows, libraryKey, path)
    {
      found := false;
      var i := 0;
      while i < |rows| && !found
        invariant 0 <= i <= |rows|
        invariant found <==> Row(libraryKey, path) in rows[..i]
      {
        found := rows[i] == Row(libraryKey, path);
        assert rows[..i + 1] == rows[..i] + [rows[i]];
        i := i + 1;
      }
      assert !found ==> rows[..i] == rows;
      assert found ==> forall x :: x in rows[..i] ==> x in rows;
    }
  }
}
