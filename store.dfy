/** The SQLite store of notices: a `notices` table with `UNIQUE(date, title)`
    filled with `INSERT OR IGNORE`, the connection's `total_changes` counter,
    and the request handler's decision to persist. */
module NoticeStore {
  import opened Strings
  import opened Dom
  import opened Notices

  /** The table's uniqueness key, `UNIQUE(date, title)`. */
  datatype Key = Key(date: string, title: string)

  /** The other columns of a row (`download_links_json` kept as the list). */
  datatype Row = Row(description: string, downloadLinks: seq<string>, fetchedAt: string)

  /** The rows of the `notices` table, by key. */
  type Table = map<Key, Row>

  function KeyOf(n: Notice): Key {
    Key(n.date, n.title)
  }

  function RowOf(n: Notice): Row {
    Row(n.description, n.downloadLinks, n.fetchedAt)
  }

  /** The keys of a batch of records. */
  function KeysOf(batch: seq<Notice>): set<Key> {
    set n | n in batch :: KeyOf(n)
  }

  /** One `INSERT OR IGNORE`: a record whose key is already present changes
      nothing. */
  function InsertOrIgnore(t: Table, n: Notice): (r: Table)
    ensures r.Keys == t.Keys + {KeyOf(n)}
    ensures forall k :: k in t ==> r[k] == t[k]
    ensures KeyOf(n) !in t ==> r[KeyOf(n)] == RowOf(n)
  {
    if KeyOf(n) in t then t else t[KeyOf(n) := RowOf(n)]
  }

  /** One `INSERT OR IGNORE` adds a row exactly when the key is new. */
  lemma InsertOrIgnoreCount(t: Table, n: Notice)
    ensures |InsertOrIgnore(t, n)| == if KeyOf(n) in t then |t| else |t| + 1
  {
  }

  /** The table after one `INSERT OR IGNORE` per record of `batch`, in order. */
  function InsertAll(t: Table, batch: seq<Notice>): Table {
    if batch == [] then t
    else InsertOrIgnore(InsertAll(t, batch[..|batch| - 1]), batch[|batch| - 1])
  }

  lemma InsertAllSnoc(t: Table, batch: seq<Notice>, i: nat)
    requires i < |batch|
    ensures InsertAll(t, batch[..i + 1]) == InsertOrIgnore(InsertAll(t, batch[..i]), batch[i])
  {
    assert batch[..i + 1][..i] == batch[..i];
  }

  lemma KeysOfSnoc(batch: seq<Notice>)
    requires batch != []
    ensures KeysOf(batch) == KeysOf(batch[..|batch| - 1]) + {KeyOf(batch[|batch| - 1])}
  {
    var prefix, last := batch[..|batch| - 1], batch[|batch| - 1];
    assert batch == prefix + [last];
    forall k | k in KeysOf(batch)
      ensures k in KeysOf(prefix) + {KeyOf(last)}
    {
      var n :| n in batch && KeyOf(n) == k;
      if n != last {
        assert n in prefix;
      }
    }
  }

  /** After a batch the table holds one row per key that was there before or
      occurs in the batch, and no other. */
  lemma {:induction false} InsertAllKeys(t: Table, batch: seq<Notice>)
    ensures InsertAll(t, batch).Keys == t.Keys + KeysOf(batch)
  {
    if batch != [] {
      var prefix, last := batch[..|batch| - 1], batch[|batch| - 1];
      InsertAllKeys(t, prefix);
      KeysOfSnoc(batch);
      var before := InsertAll(t, prefix);
      assert InsertAll(t, batch) == InsertOrIgnore(before, last);
      assert InsertAll(t, batch).Keys == before.Keys + {KeyOf(last)};
    }
  }

  /** Rows already in the table are never modified. */
  lemma {:induction false} InsertAllKeepsExisting(t: Table, batch: seq<Notice>, k: Key)
    requires k in t
    ensures k in InsertAll(t, batch) && InsertAll(t, batch)[k] == t[k]
  {
    if batch != [] {
      InsertAllKeepsExisting(t, batch[..|batch| - 1], k);
    }
  }

  /** Within a batch, the first record with a new key is the one stored. */
  lemma {:induction false} InsertAllFirstWins(t: Table, batch: seq<Notice>, i: nat)
    requires i < |batch| && KeyOf(batch[i]) !in t
    requires forall j :: 0 <= j < i ==> KeyOf(batch[j]) != KeyOf(batch[i])
    ensures KeyOf(batch[i]) in InsertAll(t, batch)
    ensures InsertAll(t, batch)[KeyOf(batch[i])] == RowOf(batch[i])
  {
    var prefix := batch[..|batch| - 1];
    if i < |batch| - 1 {
      assert forall j :: 0 <= j <= i ==> prefix[j] == batch[j];
      InsertAllFirstWins(t, prefix, i);
    } else {
      InsertAllKeys(t, prefix);
      assert KeyOf(batch[i]) !in KeysOf(prefix);
    }
  }

  /** Inserting records whose keys are all present changes nothing. */
  lemma {:induction false} InsertAllPresent(t: Table, batch: seq<Notice>)
    requires KeysOf(batch) <= t.Keys
    ensures InsertAll(t, batch) == t
  {
    if batch != [] {
      var prefix := batch[..|batch| - 1];
      assert KeysOf(prefix) <= KeysOf(batch);
      InsertAllPresent(t, prefix);
      assert batch[|batch| - 1] in batch;
    }
  }

  /** Saving the same batch twice leaves the table as after saving it once. */
  lemma SaveTwiceIsSaveOnce(t: Table, batch: seq<Notice>)
    ensures InsertAll(InsertAll(t, batch), batch) == InsertAll(t, batch)
  {
    InsertAllKeys(t, batch);
    InsertAllPresent(InsertAll(t, batch), batch);
  }

  /** The number of rows a batch adds: one per key of the batch not yet in
      the table. */
  lemma InsertAllCount(t: Table, batch: seq<Notice>)
    ensures |InsertAll(t, batch)| == |t| + |KeysOf(batch) - t.Keys|
  {
    InsertAllKeys(t, batch);
    var after := InsertAll(t, batch).Keys;
    assert after == t.Keys + (KeysOf(batch) - t.Keys);
    assert t.Keys * (KeysOf(batch) - t.Keys) == {};
  }

  /** An open connection to the database file. `table` is the `notices`
      table (None before it is created); `totalChanges` is SQLite's
      `total_changes`, the number of rows inserted since the connection was
      opened. */
  class Connection {
    var table: Option<Table>
    var totalChanges: nat

    constructor Open(stored: Option<Table>)
      ensures table == stored && totalChanges == 0
    {
      table := stored;
      totalChanges := 0;
    }

    /** `CREATE TABLE IF NOT EXISTS notices (...)`. */
    method InitDb()
      modifies this
      ensures table == Some(if old(table).Some? then old(table).value else map[])
      ensures totalChanges == old(totalChanges)
    {
      if table.None? {
        table := Some(map[]);
      }
    }

    /** One `INSERT OR IGNORE` per record; returns the connection's
        cumulative `total_changes`. */
    method SaveNotices(notices: seq<Notice>) returns (total: nat)
      requires table.Some?
      modifies this
      ensures table == Some(InsertAll(old(table).value, notices))
      ensures totalChanges == old(totalChanges) + |KeysOf(notices) - old(table).value.Keys|
      ensures total == totalChanges
    {
      var i := 0;
      while i < |notices|
        invariant 0 <= i <= |notices|
        invariant table == Some(InsertAll(old(table).value, notices[..i]))
        invariant totalChanges == old(totalChanges) + |table.value| - |old(table).value|
      {
        InsertAllSnoc(old(table).value, notices, i);
        var n := notices[i];
        var rows := table.value;
        InsertOrIgnoreCount(rows, n);
        if KeyOf(n) !in rows {
          table := Some(rows[KeyOf(n) := RowOf(n)]);
          totalChanges := totalChanges + 1;
        }
        i := i + 1;
      }
      assert notices[..i] == notices;
      InsertAllCount(old(table).value, notices);
      total := totalChanges;
    }
  }

  /** The `persist` query parameter, absent meaning "false", lower-cased and
      compared with "1", "true" and "yes". */
  predicate PersistRequested(persist: Option<string>)
    ensures PersistRequested(persist) ==> persist.Some? && |persist.value| in {1, 3, 4}
  {
    var arg := if persist.Some? then persist.value else "false";
    Lower(arg) in ["1", "true", "yes"]
  }

  /** What the notices endpoint answers once the records are extracted. */
  datatype Response =
    | NoNotices
    | Listed(noticesCount: nat, insertedRowsEstimate: nat, notices: seq<Notice>)

  /** The notices endpoint after extraction: an empty extraction is answered
      at once; otherwise the records are saved, through a connection opened
      for this request, only when `persist` asks for it. `stored` is the
      notices table in the database file (None when it does not exist yet);
      `after` is that table once the request is done. */
  method HandleNotices(notices: seq<Notice>, persist: Option<string>, stored: Option<Table>)
    returns (response: Response, after: Option<Table>)
    ensures notices == [] ==> response == NoNotices && after == stored
    ensures notices != [] && !PersistRequested(persist) ==>
              response == Listed(|notices|, 0, notices) && after == stored
    ensures notices != [] && PersistRequested(persist) ==>
              var before := if stored.Some? then stored.value else map[];
              after == Some(InsertAll(before, notices)) &&
              response == Listed(|notices|, |KeysOf(notices) - before.Keys|, notices)
  {
    if notices == [] {
      return NoNotices, stored;
    }
    var inserted := 0;
    after := stored;
    if PersistRequested(persist) {
      var conn := new Connection.Open(stored);
      conn.InitDb();
      inserted := conn.SaveNotices(notices);
      after := conn.table;
    }
    response := Listed(|notices|, inserted, notices);
  }

  /** Persisting is requested by "1", "true" or "yes" in any case, and by
      nothing else: an absent flag reads as "false", and the value is not
      stripped, so surrounding whitespace turns a request off. */
  lemma PersistFlagValues(p: string)
    ensures PersistRequested(Some(p)) <==> Lower(p) == "1" || Lower(p) == "true" || Lower(p) == "yes"
    ensures PersistRequested(Some(p)) <==> PersistRequested(Some(Lower(p)))
    ensures PersistRequested(Some(p)) ==> p != [] && !IsSpace(p[0]) && !IsSpace(p[|p| - 1])
    ensures !PersistRequested(None)
  {
    assert Lower(Lower(p)) == Lower(p);
    assert Lower("false") == "false";
    if PersistRequested(Some(p)) {
      assert Lower(p)[0] == LowerChar(p[0]) && Lower(p)[|p| - 1] == LowerChar(p[|p| - 1]);
    }
  }
}
