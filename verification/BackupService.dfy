/** Backup and restore as they run, proved against their functions in `Backup`. */
module BackupService {
  import opened Text
  import opened Database
  import opened Backup

  /** `SELECT * FROM table`, in whatever order the database returns the rows. */
  method SelectAll(table: Rows) returns (rows: seq<Row>, ghost keys: seq<Key>)
    ensures Listing(rows, keys, table)
  {
    rows, keys := [], [];
    var left := table.Keys;
    while left != {}
      invariant left <= table.Keys && Lists(rows, keys, table)
      invariant forall k | k in table :: k in keys <==> k !in left
      decreases left
    {
      var key :| key in left;
      rows, keys, left := rows + [table[key]], keys + [key], left - {key};
    }
  }

  /** `safe` are the rows under the indices `kept`, redacted: all that are not secret, in the order of `rows`. */
  predicate Kept(table: string, rows: seq<Row>, safe: seq<Row>, kept: seq<nat>) {
    && |kept| == |safe| && (forall a, b | 0 <= a < b < |kept| :: kept[a] < kept[b])
    && (forall n | 0 <= n < |kept| ::
          kept[n] < |rows| && !Secret(table, rows[kept[n]]) && safe[n] == Redacted(table, rows[kept[n]]))
    && (forall i | 0 <= i < |rows| && !Secret(table, rows[i]) :: i in kept)
  }

  /** The copy of the rows that leaves the secret columns out, and secret settings. */
  method WithoutSecrets(table: string, rows: seq<Row>) returns (safe: seq<Row>, ghost kept: seq<nat>)
    ensures Kept(table, rows, safe, kept)
  {
    safe, kept := [], [];
    for n := 0 to |rows|
      invariant Kept(table, rows[..n], safe, kept)
    {
      if !Secret(table, rows[n]) { safe, kept := safe + [Redacted(table, rows[n])], kept + [n]; }
      assert rows[..n + 1] == rows[..n] + [rows[n]];
    }
    assert rows[..|rows|] == rows;
  }

  lemma {:induction false} KeptShown(table: string, rows: seq<Row>, keys: seq<Key>, original: Rows, safe: seq<Row>,
      kept: seq<nat>)
      returns (shown: seq<Key>)
    requires Listing(rows, keys, original) && Kept(table, rows, safe, kept)
    ensures ListsShown(table, safe, shown, original)
  {
    shown := seq(|kept|, n requires 0 <= n < |kept| => keys[kept[n]]);
    forall k | k in original && !Secret(table, original[k])
      ensures k in shown
    {
      ShownKey(table, rows, keys, original, safe, kept, shown, k);
    }
  }

  lemma {:induction false} ShownKey(table: string, rows: seq<Row>, keys: seq<Key>, original: Rows, safe: seq<Row>,
      kept: seq<nat>,
      shown: seq<Key>, k: Key)
    requires Listing(rows, keys, original) && Kept(table, rows, safe, kept) && k in original
             && !Secret(table, original[k])
    requires |shown| == |kept| && forall n | 0 <= n < |kept| :: shown[n] == keys[kept[n]]
    ensures k in shown
  {
    var i :| 0 <= i < |keys| && keys[i] == k;
    var n :| 0 <= n < |kept| && kept[n] == i;
    assert shown[n] == k;
  }

  /** What a backup holds of one table. */
  predicate TableOk(table: string, rows: seq<Row>, keys: seq<Key>, original: Rows, includeSecrets: bool) {
    if includeSecrets then Listing(rows, keys, original) else ListsShown(table, rows, keys, original)
  }

  predicate PayloadOk(data: Data, order: Order, db: Tables, tables: seq<string>, includeSecrets: bool) {
    && data.Keys == (set t | t in tables)
    && forall t | t in tables :: t in data && TableOk(t, data[t], ReadAs(order, t), RowsOf(db, t), includeSecrets)
  }

  lemma {:induction false} PayloadNext(data: Data, order: Order, db: Tables, tables: seq<string>, table: string,
      rows: seq<Row>,
      keys: seq<Key>, includeSecrets: bool)
    requires PayloadOk(data, order, db, tables, includeSecrets)
             && TableOk(table, rows, keys, RowsOf(db, table), includeSecrets)
    ensures PayloadOk(data[table := rows], order[table := keys], db, tables + [table], includeSecrets)
  {
  }

  class Store {
    var db: Tables
    const schema: Schema

    constructor (schema: Schema, db: Tables)
      ensures this.schema == schema && this.db == db
    {
      this.schema, this.db := schema, db;
    }

    /** `createBackupPayload` */
    method CreateBackupPayload(includeSecrets: bool) returns (data: Data, ghost order: Order)
      ensures data.Keys == set t | t in BACKUP_TABLES
      ensures includeSecrets ==> EachListing(data, db, BACKUP_TABLES, order)
      ensures !includeSecrets ==> EachShown(data, db, BACKUP_TABLES, order) && SafeBackup(data, db)
    {
      data, order := ReadTables(BACKUP_TABLES, includeSecrets);
      if !includeSecrets { ShownSafe(data, db, order); }
    }

    /** Its loop over the tables. */
    method ReadTables(tables: seq<string>, includeSecrets: bool) returns (data: Data, ghost order: Order)
      ensures PayloadOk(data, order, db, tables, includeSecrets)
    {
      data, order := map[], map[];
      for i := 0 to |tables|
        invariant PayloadOk(data, order, db, tables[..i], includeSecrets)
      {
        var rows, keys := ReadTable(tables[i], includeSecrets);
        PayloadNext(data, order, db, tables[..i], tables[i], rows, keys, includeSecrets);
        data, order := data[tables[i] := rows], order[tables[i] := keys];
        assert tables[..i + 1] == tables[..i] + [tables[i]];
      }
      assert tables[..|tables|] == tables;
    }

    /** The body of its loop. */
    method ReadTable(table: string, includeSecrets: bool) returns (rows: seq<Row>, ghost keys: seq<Key>)
      ensures TableOk(table, rows, keys, RowsOf(db, table), includeSecrets)
    {
      var all, allKeys := SelectAll(RowsOf(db, table));
      if includeSecrets { return all, allKeys; }
      var safe, kept := WithoutSecrets(table, all);
      keys := KeptShown(table, all, allKeys, RowsOf(db, table), safe, kept);
      return safe, keys;
    }

    /** The deletes of `wipeExisting`, from the last table to the first. */
    method Wipe() returns (ok: bool)
      modifies this`db
      ensures (db, ok) == WipeAll(schema, old(db), BACKUP_TABLES)
    {
      var i := |BACKUP_TABLES|;
      assert BACKUP_TABLES[..i] == BACKUP_TABLES;
      while i > 0
        invariant 0 <= i <= |BACKUP_TABLES|
        invariant WipeAll(schema, old(db), BACKUP_TABLES) == WipeAll(schema, db, BACKUP_TABLES[..i])
      {
        var table := BACKUP_TABLES[i - 1];
        assert BACKUP_TABLES[..i][..i - 1] == BACKUP_TABLES[..i - 1];
        if !Unwiped(table) {
          var next := DeleteAll(schema, db, table);
          if next.None? { return false; }
          db := next.value;
        }
        i := i - 1;
      }
      return true;
    }

    /** The chunk loop over one table's rows. */
    method RestoreRows(table: string, rows: seq<Row>) returns (inserted: nat, ok: bool)
      modifies this`db
      ensures (db, ok) == RunChunks(schema, old(db), table, rows)
      ensures ok ==> inserted == |Statements(rows)|
    {
      inserted := 0;
      var index := 0;
      assert rows[0..] == rows && rows[..0] == [];
      while index < |rows|
        invariant 0 <= index <= |rows| && inserted == |Statements(rows[..index])|
        invariant RunChunks(schema, old(db), table, rows) == RunChunks(schema, db, table, rows[index..])
      {
        var end := if index + CHUNK < |rows| then index + CHUNK else |rows|;
        var statements := Statements(rows[index..end]);
        assert rows[index..][..Chunk(rows[index..])] == rows[index..end]
            && rows[index..][Chunk(rows[index..])..] == rows[end..];
        var next := UpsertAll(schema, db, table, statements);
        if next.None? { return inserted, false; }
        db := next.value;
        StatementsConcat(rows[..index], rows[index..end]);
        assert rows[..end] == rows[..index] + rows[index..end];
        inserted := inserted + |statements|;
        index := end;
      }
      assert rows[..index] == rows;
      return inserted, true;
    }

    /** `restoreBackup`; without data it throws before it touches anything. */
    method RestoreBackup(data: Option<Data>, wipeExisting: bool) returns (report: Option<Report>)
      modifies this`db
      ensures data.None? ==> report.None? && db == old(db)
      ensures data.Some? ==> Outcome(db, report) == Restore(schema, old(db), data.value, wipeExisting)
    {
      if data.None? { return None; }
      var payload := data.value;
      if wipeExisting {
        var ok := Wipe();
        if !ok { return None; }
      }
      ghost var start := db;
      var restored: map<string, nat>, skipped: seq<Skip> := map[], [];
      assert BACKUP_TABLES[0..] == BACKUP_TABLES;
      for i := 0 to |BACKUP_TABLES|
        invariant RestoreTables(schema, start, BACKUP_TABLES, payload, NOTHING) ==
                  RestoreTables(schema, db, BACKUP_TABLES[i..], payload, Report(restored, skipped))
      {
        var table := BACKUP_TABLES[i];
        assert BACKUP_TABLES[i..][1..] == BACKUP_TABLES[i + 1..];
        if table !in payload || payload[table] == [] {
          skipped := skipped + [Skip(table, Empty)];
        } else if !(RequiredColumns(table) <= payload[table][0].Keys) {
          skipped := skipped + [Skip(table, MissingSecretColumns)];
        } else {
          var inserted, ok := RestoreRows(table, payload[table]);
          if !ok { return None; }
          restored := restored[table := inserted];
        }
      }
      return Some(Report(restored, skipped));
    }
  }
}
