/** Backup and restore: every table read into a payload, and a payload written back table by table, in batches of
    upserts. */
module Backup {
  import opened Text
  import opened Database

  const BACKUP_TABLES: seq<string> := [
    "roles", "permissions", "role_permissions", "admins", "users", "nodes", "user_nodes", "subscriptions",
    "routing_rules", "dns_servers", "domain_filters", "proxy_chains", "backends", "warp_configs", "telegram_admins",
    "system_settings"]

  /** `PRIMARY KEY` */
  function KeyColumns(table: string): seq<string> {
    if table == "role_permissions" then ["role_id", "permission_id"]
    else if table == "user_nodes" then ["user_id", "node_id"]
    else if table == "system_settings" then ["key"]
    else ["id"]
  }

  /** `REFERENCES` */
  function Refs(table: string): seq<Ref> {
    if table == "role_permissions" then [Ref("role_id", "roles", Cascade), Ref("permission_id", "permissions", Cascade)]
    else if table == "admins" then [Ref("role_id", "roles", NoAction)]
    else if table == "sessions" then [Ref("admin_id", "admins", Cascade)]
    else if table == "subscriptions" then [Ref("user_id", "users", Cascade)]
    else if table == "user_nodes" then [Ref("user_id", "users", Cascade), Ref("node_id", "nodes", Cascade)]
    else if table == "node_health_checks" then [Ref("node_id", "nodes", Cascade)]
    else if table == "cf_resources" then [Ref("node_id", "nodes", SetNull)]
    else []
  }

  /** `UNIQUE`, besides the primary key. */
  function Uniques(table: string): seq<string> {
    if table == "roles" then ["name"]
    else if table == "permissions" then ["key"]
    else if table == "admins" || table == "users" then ["username"]
    else if table == "sessions" then ["token_hash"]
    else if table == "subscriptions" then ["user_id", "token"]
    else if table == "telegram_admins" then ["telegram_id"]
    else if table == "backups" then ["r2_key"]
    else []
  }

  /** All tables of the panel. */
  const PANEL_TABLES := {
    "roles", "permissions", "role_permissions", "admins", "sessions", "login_attempts", "users", "subscriptions",
        "nodes",
    "user_nodes", "node_health_checks", "routing_rules", "dns_servers", "domain_filters", "proxy_chains", "backends",
    "warp_configs", "telegram_admins", "notifications", "audit_logs", "app_logs", "system_settings", "backups",
    "traffic_samples", "cf_resources"}

  /** Every table is backed up but for sessions, logs, samples, checks, resources, notifications and the list of backups
      itself. */
  lemma {:induction false} BackedUp(table: string)
    ensures table in BACKUP_TABLES <==>
            table in PANEL_TABLES
            && table !in {"sessions", "login_attempts", "audit_logs", "app_logs", "traffic_samples",
               "node_health_checks",
                          "cf_resources", "notifications", "backups"}
  {
    if table in BACKUP_TABLES { var i :| 0 <= i < |BACKUP_TABLES| && BACKUP_TABLES[i] == table; }
    assert BACKUP_TABLES[0] == "roles" && BACKUP_TABLES[15] == "system_settings";
  }

  /** The tables that refer to backed-up ones without being backed up. */
  const OUTSIDE: seq<string> := ["sessions", "node_health_checks", "cf_resources"]

  /** The panel's schema, as far as keys and references go. */
  ghost predicate PanelSchema(schema: Schema) {
    && (forall t | t in BACKUP_TABLES || t in OUTSIDE :: t in schema.tables)
    && (forall t :: schema.keyColumns(t) == KeyColumns(t))
    && (forall t :: schema.refs(t) == Refs(t))
    && (forall t :: schema.uniques(t) == Uniques(t))
    && schema.defaults.Keys == schema.tables
    && SoundLegal(schema)
  }

  lemma {:induction false} TargetTable(table: string, ref: Ref)
    requires ref in Refs(table)
    ensures ref.target in {"roles", "permissions", "admins", "users", "nodes"}
    ensures ref.onDelete == SetNull ==> table == "cf_resources" && ref.column == "node_id"
    ensures ref.onDelete == NoAction || table == "role_permissions" ==> ref.target in {"roles", "permissions"}
  {
  }

  lemma {:induction false} PanelRefsSound(schema: Schema)
    requires PanelSchema(schema)
    ensures SoundRefs(schema)
  {
    forall table, other, ref, back | ref in schema.refs(table) && ref.onDelete == Cascade && back in schema.refs(other)
      ensures back.target != table
    {
      TargetTable(other, back);
    }
    forall table, ref | ref in schema.refs(table) && ref.onDelete == SetNull
      ensures ref.column !in schema.keyColumns(table)
    {
      TargetTable(table, ref);
    }
  }

  /** The tables that a wipe leaves alone. */
  predicate Unwiped(table: string) { table == "roles" || table == "permissions" || table == "role_permissions" }

  /** `SECRET_COLUMNS` */
  function SecretColumns(table: string): set<string> {
    if table == "admins" then {"password_hash", "totp_secret_enc", "recovery_code_hash"}
    else if table == "backends" then {"secret_enc"}
    else if table == "users" then {"credential_uuid", "trojan_password", "ss_password"}
    else if table == "subscriptions" then {"token"}
    else {}
  }

  /** `REQUIRED_COLUMNS` */
  function RequiredColumns(table: string): set<string> {
    if table == "admins" then {"password_hash"}
    else if table == "users" then {"credential_uuid", "trojan_password", "ss_password"}
    else if table == "subscriptions" then {"token"}
    else {}
  }

  /** `CONFLICT_TARGET` */
  function ConflictTarget(table: string): string {
    if table == "role_permissions" then "role_id, permission_id"
    else if table == "user_nodes" then "user_id, node_id"
    else if table == "system_settings" then "key"
    else "id"
  }

  function TrimAll(parts: seq<string>): seq<string> {
    if parts == [] then [] else [Trim(parts[0])] + TrimAll(parts[1..])
  }

  function ConflictColumns(table: string): seq<string> { TrimAll(Split(ConflictTarget(table), ',')) }

  type Data = map<string, seq<Row>>

  datatype Reason = Empty | MissingSecretColumns

  datatype Skip = Skip(table: string, reason: Reason)

  datatype Report = Report(restored: map<string, nat>, skipped: seq<Skip>)

  /** The database afterwards, and the report unless an error was thrown. */
  datatype Outcome = Outcome(db: Tables, report: Option<Report>)

  // ---------------------------------------------------------------- restoring

  /** A batch: all of its statements, or none. */
  function UpsertAll(schema: Schema, db: Tables, table: string, rows: seq<Row>): Option<Tables> {
    if rows == [] then Some(db)
    else
      var next := Upsert(schema, db, table, rows[0]);
      if next.None? then None else UpsertAll(schema, next.value, table, rows[1..])
  }

  /** Rows without columns make no statement. */
  function Statements(rows: seq<Row>): (s: seq<Row>)
    ensures |s| <= |rows|
  {
    if rows == [] then [] else (if rows[0].Keys == {} then [] else [rows[0]]) + Statements(rows[1..])
  }

  const CHUNK := 40

  function Chunk(rows: seq<Row>): nat { if |rows| < CHUNK then |rows| else CHUNK }

  /** The chunks of a table one after the other; an error keeps the chunks before it. */
  function RunChunks(schema: Schema, db: Tables, table: string, rows: seq<Row>): (Tables, bool)
    decreases |rows|
  {
    if rows == [] then (db, true)
    else
      var next := UpsertAll(schema, db, table, Statements(rows[..Chunk(rows)]));
      if next.None? then (db, false) else RunChunks(schema, next.value, table, rows[Chunk(rows)..])
  }

  function RestoreTable(schema: Schema, db: Tables, table: string, data: Data, report: Report): Outcome {
    if table !in data || data[table] == []
        then Outcome(db, Some(report.(skipped := report.skipped + [Skip(table, Empty)])))
    else if !(RequiredColumns(table) <= data[table][0].Keys) then
      Outcome(db, Some(report.(skipped := report.skipped + [Skip(table, MissingSecretColumns)])))
    else
      var (next, ok) := RunChunks(schema, db, table, data[table]);
      Outcome(next, if ok then Some(report.(restored := report.restored[table := |Statements(data[table])|])) else None)
  }

  function RestoreTables(schema: Schema, db: Tables, tables: seq<string>, data: Data, report: Report): Outcome
    decreases |tables|
  {
    if tables == [] then Outcome(db, Some(report))
    else
      var o := RestoreTable(schema, db, tables[0], data, report);
      if o.report.None? then o else RestoreTables(schema, o.db, tables[1..], data, o.report.value)
  }

  /** The wipe, from the last table to the first; the error of a delete keeps the deletes before it. */
  function WipeAll(schema: Schema, db: Tables, tables: seq<string>): (Tables, bool)
    decreases |tables|
  {
    if tables == [] then (db, true)
    else
      var last, rest := tables[|tables| - 1], tables[..|tables| - 1];
      if Unwiped(last) then WipeAll(schema, db, rest)
      else
        var next := DeleteAll(schema, db, last);
        if next.None? then (db, false) else WipeAll(schema, next.value, rest)
  }

  const NOTHING := Report(map[], [])

  /** `restoreBackup` for a payload with data. */
  function Restore(schema: Schema, db: Tables, data: Data, wipe: bool): Outcome {
    var (start, ok) := if wipe then WipeAll(schema, db, BACKUP_TABLES) else (db, true);
    if !ok then Outcome(start, None) else RestoreTables(schema, start, BACKUP_TABLES, data, NOTHING)
  }

  // ---------------------------------------------------------------- backing up

  /** A row without its table's secret columns. */
  function Redacted(table: string, row: Row): Row {
    map column | column in row && column !in SecretColumns(table) :: row[column]
  }

  /** Settings marked secret are left out of a backup without secrets. */
  predicate Secret(table: string, row: Row) { table == "system_settings" && ValueAt(row, "is_secret") == Int(1) }

  /** `rows` are rows of a table, each at most once: those under `keys`. */
  predicate Lists(rows: seq<Row>, keys: seq<Key>, table: Rows) {
    && |rows| == |keys|
    && (forall i, j | 0 <= i < j < |keys| :: keys[i] != keys[j])
    && (forall i | 0 <= i < |keys| :: keys[i] in table && rows[i] == table[keys[i]])
  }

  /** All of them. */
  predicate Listing(rows: seq<Row>, keys: seq<Key>, table: Rows) {
    Lists(rows, keys, table) && (forall k | k in table :: k in keys) && (forall k | k in keys :: k in table)
  }

  /** `rows` are the rows of a table that are not secret, redacted, each exactly once: those under `keys`. */
  predicate ListsShown(table: string, rows: seq<Row>, keys: seq<Key>, original: Rows) {
    && |rows| == |keys|
    && (forall i, j | 0 <= i < j < |keys| :: keys[i] != keys[j])
    && (forall i | 0 <= i < |keys| ::
          keys[i] in original && !Secret(table, original[keys[i]]) && rows[i] == Redacted(table, original[keys[i]]))
    && (forall k | k in original && !Secret(table, original[k]) :: k in keys)
  }

  /** The rows that a backup without secrets shows: redacted rows of the table, no secret setting among them. */
  ghost predicate ListsSafe(table: string, rows: seq<Row>, original: Rows) {
    forall row | row in rows ::
      exists k :: k in original && row == Redacted(table, original[k]) && !Secret(table, original[k])
  }

  ghost predicate SafeBackup(data: Data, db: Tables) {
    forall table | table in data :: table in BACKUP_TABLES && ListsSafe(table, data[table], RowsOf(db, table))
  }

  // ---------------------------------------------------------------- the order of the tables

  lemma {:induction false} TwoColumns(text: string, a: string, b: string)
    requires ',' !in a && ',' !in b && Trimmed(a) && Trimmed(b) && text == a + ([','] + ([' '] + b))
    ensures TrimAll(Split(text, ',')) == [a, b]
  {
    var second := [' '] + b;
    var parts := [a, second];
    assert parts[1..] == [second] && [second][1..] == parts[2..];
    SplitJoin(parts, ',');
    AssociativeText(a, [','], second);
    TrimmedTrims(a);
    TrimmedTrims(b);
    assert second[1..] == b;
    assert TrimAll([second]) == [Trim(second)] + TrimAll([]);
  }

  lemma {:induction false} OneColumn(a: string)
    requires ',' !in a && Trimmed(a)
    ensures TrimAll(Split(a, ',')) == [a]
  {
    SplitFree(a, ',');
    TrimmedTrims(a);
    assert [a][1..] == [];
  }

  /** The upserts name each table's primary key as their conflict target. */
  lemma {:induction false} ConflictIsKey(table: string)
    ensures ConflictColumns(table) == KeyColumns(table)
  {
    if table == "role_permissions" {
      TwoColumns("role_id, permission_id", "role_id", "permission_id");
    } else if table == "user_nodes" {
      TwoColumns("user_id, node_id", "user_id", "node_id");
    } else {
      OneColumn(ConflictTarget(table));
    }
  }

  /** References point to tables before, and no table comes twice. */
  predicate TopologicalOrder(schema: Schema, tables: seq<string>) {
    && (forall i, ref | 0 <= i < |tables| && ref in schema.refs(tables[i]) :: ref.target in tables[..i])
    && (forall i, j | 0 <= i < j < |tables| :: tables[i] != tables[j])
    && (forall t | t in tables :: t in schema.tables)
  }

  /** `BACKUP_TABLES` is a topological order of the references. */
  lemma {:induction false} BackupOrder(schema: Schema)
    requires PanelSchema(schema)
    ensures TopologicalOrder(schema, BACKUP_TABLES)
  {
    forall i, ref | 0 <= i < |BACKUP_TABLES| && ref in schema.refs(BACKUP_TABLES[i])
      ensures ref.target in BACKUP_TABLES[..i]
    {
      ReferringTable(i, ref);
    }
  }

  lemma {:induction false} ReferringTable(i: nat, ref: Ref)
    requires i < |BACKUP_TABLES| && ref in Refs(BACKUP_TABLES[i])
    ensures ref.target in BACKUP_TABLES[..i]
  {
    assert i == 2 || i == 3 || i == 6 || i == 7;
    assert BACKUP_TABLES[..i][0] == "roles" && BACKUP_TABLES[..i][1] == "permissions";
    if i > 5 { assert BACKUP_TABLES[..i][4] == "users" && BACKUP_TABLES[..i][5] == "nodes"; }
  }

  /** No delete of a wipe can be refused, and none takes anything from the tables that are left alone. */
  ghost predicate Wipeable(schema: Schema) {
    && (forall t: string, ref | ref in schema.refs(t) && ref.onDelete == NoAction :: Unwiped(ref.target))
    && (forall t: string, ref | Unwiped(t) && ref in schema.refs(t) :: Unwiped(ref.target))
  }

  lemma {:induction false} PanelWipeable(schema: Schema)
    requires PanelSchema(schema)
    ensures Wipeable(schema)
  {
  }

  // ---------------------------------------------------------------- every restore keeps the constraints

  lemma {:induction false} UpsertAllKeeps(schema: Schema, db: Tables, table: string, rows: seq<Row>)
    requires WellFormed(schema, db) && UpsertAll(schema, db, table, rows).Some?
    ensures WellFormed(schema, UpsertAll(schema, db, table, rows).value)
  {
    if rows != [] {
      UpsertKeeps(schema, db, table, rows[0]);
      UpsertAllKeeps(schema, Upsert(schema, db, table, rows[0]).value, table, rows[1..]);
    }
  }

  lemma {:induction false} ChunksKeep(schema: Schema, db: Tables, table: string, rows: seq<Row>, after: Tables)
    requires WellFormed(schema, db) && after == RunChunks(schema, db, table, rows).0
    ensures WellFormed(schema, after)
    decreases |rows|
  {
    if rows != [] {
      var batch := Statements(rows[..Chunk(rows)]);
      var next := UpsertAll(schema, db, table, batch);
      if next.Some? {
        UpsertAllKeeps(schema, db, table, batch);
        ChunksKeep(schema, next.value, table, rows[Chunk(rows)..], after);
      }
    }
  }

  lemma {:induction false} RestoreTablesKeeps(schema: Schema, db: Tables, tables: seq<string>, data: Data,
      report: Report)
    requires WellFormed(schema, db)
    ensures WellFormed(schema, RestoreTables(schema, db, tables, data, report).db)
    decreases |tables|
  {
    if tables != [] {
      var o := RestoreTable(schema, db, tables[0], data, report);
      if tables[0] in data {
        ChunksKeep(schema, db, tables[0], data[tables[0]], RunChunks(schema, db, tables[0], data[tables[0]]).0);
      }
      if o.report.Some? { RestoreTablesKeeps(schema, o.db, tables[1..], data, o.report.value); }
    }
  }

  lemma {:induction false} WipeKeeps(schema: Schema, db: Tables, tables: seq<string>)
    requires SoundRefs(schema) && SoundLegal(schema) && WellFormed(schema, db)
    ensures WellFormed(schema, WipeAll(schema, db, tables).0)
  {
    if tables != [] {
      var last, rest := tables[|tables| - 1], tables[..|tables| - 1];
      if Unwiped(last) {
        WipeKeeps(schema, db, rest);
      } else if DeleteAll(schema, db, last).Some? {
        DeleteKeeps(schema, db, last);
        WipeKeeps(schema, DeleteAll(schema, db, last).value, rest);
      }
    }
  }

  /** Whatever the payload, and also when an error stops it half way, a restore leaves every constraint in force. */
  lemma {:induction false} RestoreKeeps(schema: Schema, db: Tables, data: Data, wipe: bool)
    requires SoundRefs(schema) && SoundLegal(schema) && WellFormed(schema, db)
    ensures WellFormed(schema, Restore(schema, db, data, wipe).db)
  {
    var start := if wipe then WipeAll(schema, db, BACKUP_TABLES).0 else db;
    WipeKeeps(schema, db, BACKUP_TABLES);
    RestoreTablesKeeps(schema, start, BACKUP_TABLES, data, NOTHING);
  }

  // ---------------------------------------------------------------- the wipe

  predicate Emptied(db: Tables, tables: seq<string>) {
    forall table | table in tables && !Unwiped(table) :: RowsOf(db, table) == map[]
  }

  ghost predicate UnwipedSame(before: Tables, after: Tables) {
    forall table | Unwiped(table) :: RowsOf(after, table) == RowsOf(before, table)
  }

  lemma {:induction false} DeleteUnwiped(schema: Schema, db: Tables, target: string, table: string)
    requires Wipeable(schema) && !Unwiped(target) && Unwiped(table)
    ensures Without(schema, table, RowsOf(db, table), target) == RowsOf(db, table)
  {
    var rows := RowsOf(db, table);
    forall key | key in rows ensures Nulled(schema, table, rows[key], target) == rows[key] {}
  }

  lemma {:induction false} DeleteEmpties(schema: Schema, db: Tables, target: string, done: seq<string>)
    requires Wipeable(schema) && !Unwiped(target) && Emptied(db, done)
    ensures var next := DeleteAll(schema, db, target);
            next.Some? && Emptied(next.value, [target] + done) && UnwipedSame(db, next.value)
  {
    var next := DeleteAll(schema, db, target);
    forall table | Unwiped(table)
      ensures RowsOf(next.value, table) == RowsOf(db, table)
    {
      DeleteUnwiped(schema, db, target, table);
    }
    forall table | table in [target] + done && !Unwiped(table) ensures RowsOf(next.value, table) == map[] {
      if table in db { assert next.value[table] == Without(schema, table, db[table], target); }
    }
  }

  /** A wipe succeeds, empties every table it is for, and leaves the others as they are. */
  lemma {:induction false} WipeEmpties(schema: Schema, db: Tables, tables: seq<string>, done: seq<string>)
    requires Wipeable(schema) && Emptied(db, done)
    ensures var (after, ok) := WipeAll(schema, db, tables);
            ok && Emptied(after, tables + done) && UnwipedSame(db, after)
    decreases |tables|
  {
    if tables == [] {
      assert tables + done == done;
    } else {
      var last, rest := tables[|tables| - 1], tables[..|tables| - 1];
      assert tables + done == rest + ([last] + done);
      if Unwiped(last) {
        WipeEmpties(schema, db, rest, [last] + done);
      } else {
        DeleteEmpties(schema, db, last, done);
        WipeEmpties(schema, DeleteAll(schema, db, last).value, rest, [last] + done);
      }
    }
  }

  // ---------------------------------------------------------------- rows of a full backup

  /** No row under a key that the original does not have. */
  predicate Within(rows: Rows, original: Rows) { forall k | k in rows :: k in original }

  /** The tables that `table` refers to are as they were. */
  predicate TargetsEqual(schema: Schema, db: Tables, original: Tables, table: string) {
    forall ref | ref in schema.refs(table) :: RowsOf(db, ref.target) == RowsOf(original, ref.target)
  }

  /** A database into which rows of the original table can be written. */
  ghost predicate Ready(schema: Schema, original: Tables, db: Tables, table: string) {
    && WellFormed(schema, original) && WellFormed(schema, db) && table in schema.tables
    && (forall ref | ref in schema.refs(table) :: ref.target != table)
    && Within(RowsOf(db, table), RowsOf(original, table)) && TargetsEqual(schema, db, original, table)
  }

  lemma {:induction false} SameColumnsMerge(a: Row, b: Row)
    requires a.Keys == b.Keys
    ensures a + b == b
  {
  }

  /** Upserting an original row stores that row, unless another row holds one of its unique values. */
  lemma {:induction false} UpsertOriginal(schema: Schema, original: Tables, db: Tables, table: string, key: Key)
    requires Ready(schema, original, db, table) && key in RowsOf(original, table)
    ensures table in db && Upsert(schema, db, table, original[table][key]) ==
            if UniqueOk(schema, db[table], table, key, original[table][key])
            then Some(db[table := db[table][key := original[table][key]]]) else None
  {
    var row := original[table][key];
    assert RowOk(schema, original, table, key, row);
    SameColumnsMerge(schema.defaults[table], row);
    if key in db[table] {
      assert RowOk(schema, db, table, key, db[table][key]);
      SameColumnsMerge(db[table][key], row);
    }
  }

  /** `start` with the original rows under `keys` written over it. */
  function Overwritten(start: Rows, original: Rows, keys: seq<Key>): Rows
    requires forall k | k in keys :: k in original
  {
    if keys == [] then start
    else
      var last := keys[|keys| - 1];
      Overwritten(start, original, keys[..|keys| - 1])[last := original[last]]
  }

  lemma {:induction false} OverwrittenAt(start: Rows, original: Rows, keys: seq<Key>, k: Key)
    requires forall key | key in keys :: key in original
    ensures var rows := Overwritten(start, original, keys);
            && (k in rows <==> k in start || k in keys)
            && (k in rows ==> rows[k] == if k in keys then original[k] else start[k])
  {
    if keys != [] { OverwrittenAt(start, original, keys[..|keys| - 1], k); }
  }

  /** No row that is written after the `i`th holds, as it stands, a unique value of the `i`th. */
  predicate ClearAt(schema: Schema, table: string, start: Rows, original: Rows, keys: seq<Key>, i: nat)
    requires i < |keys| && keys[i] in original
  {
    forall j | i < j < |keys| && keys[j] in start :: Apart(schema, table, original[keys[i]], start[keys[j]])
  }

  predicate ClearRange(schema: Schema, table: string, start: Rows, original: Rows, keys: seq<Key>, a: nat, b: nat)
    requires b <= |keys| && forall k | k in keys :: k in original
  {
    forall i: nat | a <= i < b :: ClearAt(schema, table, start, original, keys, i)
  }

  /** No row still to be written ever holds the unique value of the one being written. */
  predicate Unblocked(schema: Schema, table: string, start: Rows, original: Rows, keys: seq<Key>)
    requires forall k | k in keys :: k in original
  {
    ClearRange(schema, table, start, original, keys, 0, |keys|)
  }

  /** The rows that the `a`th is checked against are those written before it, which are the original ones, and those
      still to be written. */
  lemma {:induction false} CheckedAgainst(schema: Schema, table: string, start: Rows, original: Rows, keys: seq<Key>,
      a: nat)
    requires a < |keys| && (forall k | k in keys :: k in original) && (forall k | k in original :: k in keys)
    requires (forall i, j | 0 <= i < j < |keys| :: keys[i] != keys[j]) && Within(start, original)
    requires UniqueOk(schema, original, table, keys[a], original[keys[a]])
    ensures UniqueOk(schema, Overwritten(start, original, keys[..a]), table, keys[a], original[keys[a]])
       <==> ClearAt(schema, table, start, original, keys, a)
  {
    var now, row := Overwritten(start, original, keys[..a]), original[keys[a]];
    forall k ensures (k in now <==> k in start || k in keys[..a])
                  && (k in now ==> now[k] == if k in keys[..a] then original[k] else start[k])
    {
      OverwrittenAt(start, original, keys[..a], k);
    }
    if ClearAt(schema, table, start, original, keys, a) {
      forall k | k in now && k != keys[a] ensures Apart(schema, table, row, now[k]) {
        if k !in keys[..a] { var j :| 0 <= j < |keys| && keys[j] == k; assert j > a; }
      }
    } else {
      var j :| a < j < |keys| && keys[j] in start && !Apart(schema, table, row, start[keys[j]]);
      assert keys[j] !in keys[..a];
    }
  }

  /** The database once the first `a` rows are written. */
  function Written(db: Tables, original: Tables, table: string, keys: seq<Key>, a: nat): Tables
    requires a <= |keys| && forall k | k in keys :: k in RowsOf(original, table)
  {
    db[table := Overwritten(RowsOf(db, table), RowsOf(original, table), keys[..a])]
  }

  lemma {:induction false} WrittenReady(schema: Schema, original: Tables, db: Tables, table: string, keys: seq<Key>,
      a: nat)
    requires Ready(schema, original, db, table) && a <= |keys| && forall k | k in keys :: k in RowsOf(original, table)
    requires WellFormed(schema, Written(db, original, table, keys, a))
    ensures Ready(schema, original, Written(db, original, table, keys, a), table)
  {
    forall k | k in Overwritten(RowsOf(db, table), RowsOf(original, table), keys[..a])
      ensures k in RowsOf(original, table)
    {
      OverwrittenAt(RowsOf(db, table), RowsOf(original, table), keys[..a], k);
    }
  }

  /** A listing of an original table, the rows it is written over, and how far it is written. */
  ghost predicate Writing(schema: Schema, original: Tables, db: Tables, table: string, rows: seq<Row>,
      keys: seq<Key>, a: nat) {
    && Ready(schema, original, db, table) && Listing(rows, keys, RowsOf(original, table)) && a <= |rows|
    && WellFormed(schema, Written(db, original, table, keys, a))
  }

  lemma {:induction false} WriteChecked(schema: Schema, original: Tables, db: Tables, table: string, rows: seq<Row>,
      keys: seq<Key>, a: nat)
    requires Writing(schema, original, db, table, rows, keys, a) && a < |rows|
    ensures keys[a] in RowsOf(original, table) && rows[a] == RowsOf(original, table)[keys[a]]
    ensures UniqueOk(schema, Overwritten(RowsOf(db, table), RowsOf(original, table), keys[..a]), table, keys[a],
            rows[a])
       <==> ClearAt(schema, table, RowsOf(db, table), RowsOf(original, table), keys, a)
  {
    assert RowOk(schema, original, table, keys[a], original[table][keys[a]]);
    CheckedAgainst(schema, table, RowsOf(db, table), RowsOf(original, table), keys, a);
  }

  lemma {:induction false} WrittenNext(db: Tables, original: Tables, table: string, keys: seq<Key>, a: nat)
    requires a < |keys| && forall k | k in keys :: k in RowsOf(original, table)
    ensures var before := Written(db, original, table, keys, a);
            Written(db, original, table, keys, a + 1) ==
              before[table := before[table][keys[a] := RowsOf(original, table)[keys[a]]]]
  {
    assert keys[..a + 1][..a] == keys[..a];
  }

  lemma {:induction false} WriteOne(schema: Schema, original: Tables, db: Tables, table: string, rows: seq<Row>,
      keys: seq<Key>, a: nat)
    requires Writing(schema, original, db, table, rows, keys, a) && a < |rows|
    ensures var before, after := Written(db, original, table, keys, a), Written(db, original, table, keys, a + 1);
            if ClearAt(schema, table, RowsOf(db, table), RowsOf(original, table), keys, a)
            then Upsert(schema, before, table, rows[a]) == Some(after)
                && Writing(schema, original, db, table, rows, keys, a + 1)
            else Upsert(schema, before, table, rows[a]) == None
  {
    var before := Written(db, original, table, keys, a);
    WriteChecked(schema, original, db, table, rows, keys, a);
    WrittenNext(db, original, table, keys, a);
    assert Ready(schema, original, before, table) by { WrittenReady(schema, original, db, table, keys, a); }
    UpsertOriginal(schema, original, before, table, keys[a]);
    if Upsert(schema, before, table, rows[a]).Some? { UpsertKeeps(schema, before, table, rows[a]); }
  }

  lemma {:induction false} ClearNext(schema: Schema, table: string, start: Rows, whole: Rows, keys: seq<Key>, a: nat,
      b: nat)
    requires a < b <= |keys| && forall k | k in keys :: k in whole
    ensures ClearRange(schema, table, start, whole, keys, a, b) <==>
            ClearAt(schema, table, start, whole, keys, a) && ClearRange(schema, table, start, whole, keys, a + 1, b)
  {
  }

  /** A batch of original rows. */
  lemma {:induction false} WriteBatch(schema: Schema, original: Tables, db: Tables, table: string, rows: seq<Row>,
      keys: seq<Key>, a: nat, b: nat)
    requires Writing(schema, original, db, table, rows, keys, a) && a <= b <= |rows|
    ensures var before, after := Written(db, original, table, keys, a), Written(db, original, table, keys, b);
            if ClearRange(schema, table, RowsOf(db, table), RowsOf(original, table), keys, a, b)
            then UpsertAll(schema, before, table, rows[a..b]) == Some(after)
                && Writing(schema, original, db, table, rows, keys, b)
            else UpsertAll(schema, before, table, rows[a..b]) == None
    decreases b - a
  {
    if a < b {
      var start, whole := RowsOf(db, table), RowsOf(original, table);
      assert rows[a..b][0] == rows[a] && rows[a..b][1..] == rows[a + 1..b];
      ClearNext(schema, table, start, whole, keys, a, b);
      WriteOne(schema, original, db, table, rows, keys, a);
      if ClearAt(schema, table, start, whole, keys, a) {
        WriteBatch(schema, original, db, table, rows, keys, a + 1, b);
      }
    }
  }

  predicate HasColumns(rows: seq<Row>) { forall row | row in rows :: row.Keys != {} }

  lemma {:induction false} AllStatements(rows: seq<Row>)
    requires HasColumns(rows)
    ensures Statements(rows) == rows
  {
    if rows != [] {
      assert HasColumns(rows[1..]);
      AllStatements(rows[1..]);
      assert rows == [rows[0]] + rows[1..];
      assert rows[0] in rows;
    }
  }

  lemma {:induction false} ChunkStep(schema: Schema, db: Tables, table: string, rows: seq<Row>, a: nat, b: nat)
    requires a < |rows| && b == a + Chunk(rows[a..]) && HasColumns(rows)
    ensures var next := UpsertAll(schema, db, table, rows[a..b]);
            RunChunks(schema, db, table, rows[a..]) ==
              if next.None? then (db, false) else RunChunks(schema, next.value, table, rows[b..])
  {
    assert rows[a..][..Chunk(rows[a..])] == rows[a..b] && rows[a..][Chunk(rows[a..])..] == rows[b..];
    AllStatements(rows[a..b]);
  }

  /** The chunks of a listing succeed exactly when no row is blocked. */
  lemma {:induction false} WriteChunks(schema: Schema, original: Tables, db: Tables, table: string, rows: seq<Row>,
      keys: seq<Key>, a: nat)
    requires Writing(schema, original, db, table, rows, keys, a) && HasColumns(rows)
    ensures var (after, ok) := RunChunks(schema, Written(db, original, table, keys, a), table, rows[a..]);
            && (ok <==> ClearRange(schema, table, RowsOf(db, table), RowsOf(original, table), keys, a, |keys|))
            && (ok ==> after == Written(db, original, table, keys, |keys|) && WellFormed(schema, after))
    decreases |rows| - a
  {
    if a < |rows| {
      var start, whole, b := RowsOf(db, table), RowsOf(original, table), a + Chunk(rows[a..]);
      ChunkStep(schema, Written(db, original, table, keys, a), table, rows, a, b);
      WriteBatch(schema, original, db, table, rows, keys, a, b);
      ClearSplit(schema, table, start, whole, keys, a, b);
      if ClearRange(schema, table, start, whole, keys, a, b) {
        WriteChunks(schema, original, db, table, rows, keys, b);
      }
    }
  }

  lemma {:induction false} ClearSplit(schema: Schema, table: string, start: Rows, original: Rows, keys: seq<Key>,
      a: nat, b: nat)
    requires a <= b <= |keys| && forall k | k in keys :: k in original
    ensures ClearRange(schema, table, start, original, keys, a, |keys|) <==>
            ClearRange(schema, table, start, original, keys, a, b)
                && ClearRange(schema, table, start, original, keys, b, |keys|)
  {
    if ClearRange(schema, table, start, original, keys, a, b)
        && ClearRange(schema, table, start, original, keys, b, |keys|) {
      forall i: nat | a <= i < |keys| ensures ClearAt(schema, table, start, original, keys, i) {}
    }
  }

  lemma {:induction false} CountKeys(keys: seq<Key>)
    requires forall i, j | 0 <= i < j < |keys| :: keys[i] != keys[j]
    ensures |KeySet(keys)| == |keys|
  {
    if keys != [] {
      CountKeys(keys[1..]);
      assert KeySet(keys) == {keys[0]} + KeySet(keys[1..]);
    }
  }

  function KeySet(keys: seq<Key>): set<Key> { set k | k in keys }

  lemma {:induction false} ListingCounts(rows: seq<Row>, keys: seq<Key>, table: Rows)
    requires Listing(rows, keys, table)
    ensures |table| == |rows| && (rows == [] <==> table == map[])
  {
    CountKeys(keys);
    assert KeySet(keys) == table.Keys;
    assert |table| == |table.Keys|;
    if rows != [] { assert keys[0] in table; }
  }

  lemma {:induction false} OverwrittenWhole(start: Rows, original: Rows, keys: seq<Key>)
    requires Within(start, original) && (forall k | k in keys :: k in original)
             && (forall k | k in original :: k in keys)
    ensures Overwritten(start, original, keys) == original
  {
    forall k ensures (k in Overwritten(start, original, keys) <==> k in original)
                  && (k in original ==> Overwritten(start, original, keys)[k] == original[k])
    {
      OverwrittenAt(start, original, keys, k);
    }
  }

  lemma {:induction false} ListedColumns(schema: Schema, original: Tables, table: string, rows: seq<Row>,
      keys: seq<Key>, row: Row)
    requires WellFormed(schema, original) && table in original && Lists(rows, keys, original[table]) && row in rows
    ensures row.Keys == schema.defaults[table].Keys
  {
  }

  function TableReport(table: string, rows: Rows, report: Report): Report {
    if rows == map[] then report.(skipped := report.skipped + [Skip(table, Empty)])
    else report.(restored := report.restored[table := |rows|])
  }

  predicate ColumnsOk(schema: Schema, table: string) {
    table in schema.defaults && schema.defaults[table].Keys != {}
        && RequiredColumns(table) <= schema.defaults[table].Keys
  }

  lemma {:induction false} ListingOk(schema: Schema, original: Tables, table: string, rows: seq<Row>, keys: seq<Key>)
    requires WellFormed(schema, original) && table in original && Lists(rows, keys, original[table]) && rows != []
    requires ColumnsOk(schema, table)
    ensures HasColumns(rows) && Statements(rows) == rows && RequiredColumns(table) <= rows[0].Keys
  {
    forall row | row in rows ensures row.Keys == schema.defaults[table].Keys {
      ListedColumns(schema, original, table, rows, keys, row);
    }
    assert rows[0] in rows;
    AllStatements(rows);
  }

  /** A filled table: its chunks make it the original one, or a row is blocked. */
  lemma {:induction false} FilledRestored(schema: Schema, original: Tables, db: Tables, table: string,
      rows: seq<Row>, keys: seq<Key>)
    requires Ready(schema, original, db, table) && ColumnsOk(schema, table) && rows != []
    requires Listing(rows, keys, RowsOf(original, table))
    ensures var (after, ok) := RunChunks(schema, db, table, rows);
            && (ok <==> Unblocked(schema, table, RowsOf(db, table), RowsOf(original, table), keys))
            && (ok ==> after == db[table := RowsOf(original, table)] && WellFormed(schema, after))
  {
    ListingOk(schema, original, table, rows, keys);
    assert keys[..0] == [] && rows[0..] == rows && keys[..|keys|] == keys && table in db;
    assert Written(db, original, table, keys, 0) == db;
    WriteChunks(schema, original, db, table, rows, keys, 0);
    OverwrittenWhole(RowsOf(db, table), RowsOf(original, table), keys);
  }

  lemma {:induction false} EmptyTable(schema: Schema, original: Tables, db: Tables, table: string)
    requires Ready(schema, original, db, table) && RowsOf(original, table) == map[]
    ensures table in db && db[table := RowsOf(original, table)] == db
  {
  }

  /** Restoring one table from a full backup makes it the original one, or stops with an error if and only if a row is
      blocked by one still to be written. */
  lemma {:induction false} TableRestored(schema: Schema, original: Tables, db: Tables, table: string, data: Data,
      keys: seq<Key>, report: Report)
    requires Ready(schema, original, db, table) && ColumnsOk(schema, table)
    requires table in data && Listing(data[table], keys, RowsOf(original, table))
    ensures var o := RestoreTable(schema, db, table, data, report);
            && (o.report.Some? <==> Unblocked(schema, table, RowsOf(db, table), RowsOf(original, table), keys))
            && (o.report.Some? ==>
                  && o == Outcome(db[table := RowsOf(original, table)],
                     Some(TableReport(table, RowsOf(original, table), report)))
                  && WellFormed(schema, o.db))
  {
    ListingCounts(data[table], keys, RowsOf(original, table));
    if data[table] == [] {
      EmptyTable(schema, original, db, table);
    } else {
      FilledRestored(schema, original, db, table, data[table], keys);
      ListingOk(schema, original, table, data[table], keys);
    }
  }

  // ---------------------------------------------------------------- the whole restore

  /** The order in which the database returned each table's rows to the backup. */
  type Order = map<string, seq<Key>>

  function ReadAs(order: Order, table: string): seq<Key> { if table in order then order[table] else [] }

  predicate EachWithin(db: Tables, original: Tables, tables: seq<string>) {
    forall t | t in tables :: Within(RowsOf(db, t), RowsOf(original, t))
  }

  predicate EachEqual(db: Tables, original: Tables, tables: seq<string>) {
    forall t | t in tables :: RowsOf(db, t) == RowsOf(original, t)
  }

  /** Every table is in the report: a filled one with its number of rows, an empty one as skipped. */
  predicate Reported(report: Report, original: Tables, tables: seq<string>) {
    forall t | t in tables ::
      if RowsOf(original, t) == map[] then Skip(t, Empty) in report.skipped
      else t in report.restored && report.restored[t] == |RowsOf(original, t)|
  }

  predicate EachColumnsOk(schema: Schema, tables: seq<string>) { forall t | t in tables :: ColumnsOk(schema, t) }

  /** The payload lists every table, in that order. */
  predicate EachListing(data: Data, original: Tables, tables: seq<string>, order: Order) {
    forall t | t in tables :: t in data && Listing(data[t], ReadAs(order, t), RowsOf(original, t))
  }

  /** Without secrets it lists what is not secret. */
  predicate EachShown(data: Data, original: Tables, tables: seq<string>, order: Order) {
    forall t | t in tables :: t in data && ListsShown(t, data[t], ReadAs(order, t), RowsOf(original, t))
  }

  lemma {:induction false} ShownSafe(data: Data, db: Tables, order: Order)
    requires data.Keys == (set t | t in BACKUP_TABLES) && EachShown(data, db, BACKUP_TABLES, order)
    ensures SafeBackup(data, db)
  {
    forall t, row | t in data && row in data[t]
      ensures exists k :: k in RowsOf(db, t) && row == Redacted(t, RowsOf(db, t)[k]) && !Secret(t, RowsOf(db, t)[k])
    {
      var i :| 0 <= i < |data[t]| && data[t][i] == row;
      assert ReadAs(order, t)[i] in RowsOf(db, t);
    }
  }

  predicate EachUnblocked(schema: Schema, db: Tables, original: Tables, tables: seq<string>, order: Order)
    requires forall t | t in tables :: forall k | k in ReadAs(order, t) :: k in RowsOf(original, t)
  {
    forall t | t in tables :: Unblocked(schema, t, RowsOf(db, t), RowsOf(original, t), ReadAs(order, t))
  }

  /** Restoring the tables from the `i`th on, with those before as they were. */
  ghost predicate Reached(schema: Schema, original: Tables, db: Tables, tables: seq<string>, i: nat, report: Report)
    requires i <= |tables|
  {
    && WellFormed(schema, db) && EachWithin(db, original, tables)
    && EachEqual(db, original, tables[..i]) && Reported(report, original, tables[..i])
  }

  lemma {:induction false} ReportNext(original: Tables, tables: seq<string>, i: nat, report: Report)
    requires i < |tables| && tables[i] !in tables[..i] && Reported(report, original, tables[..i])
    ensures Reported(TableReport(tables[i], RowsOf(original, tables[i]), report), original, tables[..i + 1])
  {
    assert tables[..i + 1] == tables[..i] + [tables[i]];
  }

  lemma {:induction false} ReachNext(schema: Schema, original: Tables, db: Tables, tables: seq<string>, i: nat,
      report: Report)
    requires TopologicalOrder(schema, tables) && i < |tables| && Reached(schema, original, db, tables, i, report)
             && tables[i] in db
    requires WellFormed(schema, db[tables[i] := RowsOf(original, tables[i])])
    ensures var t := tables[i];
            Reached(schema, original, db[t := RowsOf(original, t)], tables, i + 1,
                TableReport(t, RowsOf(original, t), report))
  {
    var t := tables[i];
    assert tables[..i + 1] == tables[..i] + [t] && t !in tables[..i];
    assert EachEqual(db[t := RowsOf(original, t)], original, tables[..i + 1]);
    ReportNext(original, tables, i, report);
  }

  /** What the tables still to be restored hold does not change before their turn. */
  lemma {:induction false} LaterUnblocked(schema: Schema, original: Tables, db: Tables, tables: seq<string>, i: nat,
      order: Order)
    requires TopologicalOrder(schema, tables) && i < |tables|
    requires forall t | t in tables :: forall k | k in ReadAs(order, t) :: k in RowsOf(original, t)
    ensures var t := tables[i];
            EachUnblocked(schema, db, original, tables[i..], order) <==>
            && Unblocked(schema, t, RowsOf(db, t), RowsOf(original, t), ReadAs(order, t))
            && EachUnblocked(schema, db[t := RowsOf(original, t)], original, tables[i + 1..], order)
  {
    assert tables[i..] == [tables[i]] + tables[i + 1..];
    assert tables[i] !in tables[i + 1..];
  }

  lemma {:induction false} RestFrom(tables: seq<string>, i: nat)
    requires i < |tables|
    ensures tables[i] in tables && tables[i..][0] == tables[i] && tables[i..][1..] == tables[i + 1..]
  {
  }

  lemma {:induction false} TablesFrom(schema: Schema, original: Tables, db: Tables, tables: seq<string>, i: nat,
      data: Data,
      order: Order, report: Report)
    requires TopologicalOrder(schema, tables) && WellFormed(schema, original) && EachColumnsOk(schema, tables)
    requires EachListing(data, original, tables, order) && i <= |tables|
             && Reached(schema, original, db, tables, i, report)
    ensures var o := RestoreTables(schema, db, tables[i..], data, report);
            && (o.report.Some? <==> EachUnblocked(schema, db, original, tables[i..], order))
            && (o.report.Some? ==> Reached(schema, original, o.db, tables, |tables|, o.report.value))
    decreases |tables| - i
  {
    if i < |tables| {
      var t := tables[i];
      RestFrom(tables, i);
      TableRestored(schema, original, db, t, data, ReadAs(order, t), report);
      LaterUnblocked(schema, original, db, tables, i, order);
      if Unblocked(schema, t, RowsOf(db, t), RowsOf(original, t), ReadAs(order, t)) {
        ReachNext(schema, original, db, tables, i, report);
        TablesFrom(schema, original, db[t := RowsOf(original, t)], tables, i + 1, data, order,
            TableReport(t, RowsOf(original, t), report));
      }
    }
  }

  /** The tables that a wipe leaves alone let a restore through: nothing was added to them, and no row of theirs that is
      still to be written holds, as it was changed later, a unique value of the one being written. */
  predicate LetsThrough(schema: Schema, later: Tables, original: Tables, tables: seq<string>, order: Order)
    requires forall t | t in tables :: forall k | k in ReadAs(order, t) :: k in RowsOf(original, t)
  {
    forall t | t in tables && Unwiped(t) ::
      && Within(RowsOf(later, t), RowsOf(original, t))
      && Unblocked(schema, t, RowsOf(later, t), RowsOf(original, t), ReadAs(order, t))
  }

  /** A full backup, restored with a wipe onto any later database, succeeds and makes every backed-up table what it
      was, if and only if the roles, permissions and grants there let it through.  It then keeps every constraint and
      reports every row. */
  lemma {:induction false} RestoresIff(schema: Schema, original: Tables, later: Tables, data: Data, order: Order)
    requires PanelSchema(schema) && EachColumnsOk(schema, BACKUP_TABLES)
    requires WellFormed(schema, original) && WellFormed(schema, later)
             && EachListing(data, original, BACKUP_TABLES, order)
    ensures var o := Restore(schema, later, data, true);
            && (o.report.Some? && EachEqual(o.db, original, BACKUP_TABLES) <==>
                LetsThrough(schema, later, original, BACKUP_TABLES, order))
            && WellFormed(schema, o.db)
            && (LetsThrough(schema, later, original, BACKUP_TABLES, order) ==>
                Reported(o.report.value, original, BACKUP_TABLES))
  {
    BackupOrder(schema);
    PanelRefsSound(schema);
    PanelWipeable(schema);
    RestoreKeeps(schema, later, data, true);
    RestoresIffOf(schema, original, later, data, BACKUP_TABLES, order);
  }

  lemma {:induction false} WipedThrough(schema: Schema, original: Tables, later: Tables, start: Tables,
      tables: seq<string>, order: Order)
    requires Emptied(start, tables) && UnwipedSame(later, start)
    requires forall t | t in tables :: forall k | k in ReadAs(order, t) :: k in RowsOf(original, t)
    ensures LetsThrough(schema, later, original, tables, order) <==>
            EachWithin(start, original, tables) && EachUnblocked(schema, start, original, tables, order)
  {
  }

  lemma {:induction false} RestoresIffOf(schema: Schema, original: Tables, later: Tables, data: Data,
      tables: seq<string>, order: Order)
    requires TopologicalOrder(schema, tables) && Wipeable(schema) && SoundRefs(schema) && SoundLegal(schema)
    requires EachColumnsOk(schema, tables) && EachListing(data, original, tables, order)
    requires WellFormed(schema, original) && WellFormed(schema, later)
    ensures var (start, ok) := WipeAll(schema, later, tables);
            var o := RestoreTables(schema, start, tables, data, NOTHING);
            && ok
            && (o.report.Some? && EachEqual(o.db, original, tables) <==>
                LetsThrough(schema, later, original, tables, order))
            && (LetsThrough(schema, later, original, tables, order) ==> Reported(o.report.value, original, tables))
  {
    WipeEmpties(schema, later, tables, []);
    assert tables + [] == tables && tables[0..] == tables && tables[..|tables|] == tables;
    var start := WipeAll(schema, later, tables).0;
    var o := RestoreTables(schema, start, tables, data, NOTHING);
    WipeKeeps(schema, later, tables);
    WipedThrough(schema, original, later, start, tables, order);
    if o.report.Some? && EachEqual(o.db, original, tables) { KeysStay(schema, original, start, tables, data); }
    if EachWithin(start, original, tables) { TablesFrom(schema, original, start, tables, 0, data, order, NOTHING); }
  }

  lemma {:induction false} KeysStay(schema: Schema, original: Tables, start: Tables, tables: seq<string>, data: Data)
    requires var o := RestoreTables(schema, start, tables, data, NOTHING); EachEqual(o.db, original, tables)
    ensures EachWithin(start, original, tables)
  {
    forall t, k | t in tables && k in RowsOf(start, t) ensures k in RowsOf(original, t) {
      TablesKeepKeys(schema, start, tables, data, NOTHING, t, k);
    }
  }

  predicate SameUniques(schema: Schema, table: string, a: Row, b: Row) {
    forall column | column in schema.uniques(table) :: ValueAt(a, column) == ValueAt(b, column)
  }

  /** No row was added, and none had a unique column changed. */
  predicate Compatible(schema: Schema, table: string, rows: Rows, original: Rows) {
    forall k | k in rows :: k in original && SameUniques(schema, table, rows[k], original[k])
  }

  lemma {:induction false} CompatibleClear(schema: Schema, original: Tables, table: string, rows: Rows, keys: seq<Key>)
    requires WellFormed(schema, original) && Compatible(schema, table, rows, RowsOf(original, table))
    requires (forall i, j | 0 <= i < j < |keys| :: keys[i] != keys[j]) && forall k | k in keys ::
             k in RowsOf(original, table)
    ensures Within(rows, RowsOf(original, table)) && Unblocked(schema, table, rows, RowsOf(original, table), keys)
  {
    var whole := RowsOf(original, table);
    forall i: nat, j | i < j < |keys| && keys[j] in rows ensures Apart(schema, table, whole[keys[i]], rows[keys[j]]) {
      assert RowOk(schema, original, table, keys[i], whole[keys[i]]);
      assert keys[j] in whole && Apart(schema, table, whole[keys[i]], whole[keys[j]]);
    }
  }

  /** In particular it succeeds when no role, permission or grant was added or renamed. */
  lemma {:induction false} FullRestore(schema: Schema, original: Tables, later: Tables, data: Data, order: Order)
    requires PanelSchema(schema) && EachColumnsOk(schema, BACKUP_TABLES)
    requires WellFormed(schema, original) && WellFormed(schema, later)
             && EachListing(data, original, BACKUP_TABLES, order)
    requires forall t | Unwiped(t) :: Compatible(schema, t, RowsOf(later, t), RowsOf(original, t))
    ensures var o := Restore(schema, later, data, true);
            && o.report.Some? && WellFormed(schema, o.db)
            && EachEqual(o.db, original, BACKUP_TABLES) && Reported(o.report.value, original, BACKUP_TABLES)
  {
    RestoresIff(schema, original, later, data, order);
    forall t | t in BACKUP_TABLES && Unwiped(t)
      ensures Within(RowsOf(later, t), RowsOf(original, t))
      ensures Unblocked(schema, t, RowsOf(later, t), RowsOf(original, t), ReadAs(order, t))
    {
      CompatibleClear(schema, original, t, RowsOf(later, t), ReadAs(order, t));
    }
  }

  /** What a table that is not wiped holds stays there. */
  lemma {:induction false} AddedRolesStay(schema: Schema, later: Tables, data: Data, table: string, key: Key)
    requires PanelSchema(schema) && Unwiped(table) && key in RowsOf(later, table)
             && Restore(schema, later, data, true).report.Some?
    ensures key in RowsOf(Restore(schema, later, data, true).db, table)
  {
    PanelWipeable(schema);
    WipeEmpties(schema, later, BACKUP_TABLES, []);
    TablesKeepKeys(schema, WipeAll(schema, later, BACKUP_TABLES).0, BACKUP_TABLES, data, NOTHING, table, key);
  }

  /** By their names: a wipe empties every backed-up table but these three, which it leaves as they are. */
  lemma {:induction false} WipedByName(schema: Schema, db: Tables, table: string)
    requires PanelSchema(schema) && table in BACKUP_TABLES
    ensures var (after, ok) := WipeAll(schema, db, BACKUP_TABLES);
            && ok
            && RowsOf(after, table) ==
               if table in {"roles", "permissions", "role_permissions"} then RowsOf(db, table) else map[]
  {
    PanelWipeable(schema);
    WipeEmpties(schema, db, BACKUP_TABLES, []);
    assert BACKUP_TABLES + [] == BACKUP_TABLES;
  }

  // ---------------------------------------------------------------- chunks

  lemma {:induction false} StatementsConcat(a: seq<Row>, b: seq<Row>)
    ensures Statements(a + b) == Statements(a) + Statements(b)
  {
    if a == [] {
      assert a + b == b;
    } else {
      StatementsConcat(a[1..], b);
      assert (a + b)[1..] == a[1..] + b;
      AssociativeRows(if a[0].Keys == {} then [] else [a[0]], Statements(a[1..]), Statements(b));
    }
  }

  lemma {:induction false} AssociativeRows(a: seq<Row>, b: seq<Row>, c: seq<Row>)
    ensures a + b + c == a + (b + c)
  {
  }

  lemma {:induction false} UpsertAllConcat(schema: Schema, db: Tables, table: string, a: seq<Row>, b: seq<Row>)
    ensures UpsertAll(schema, db, table, a + b) ==
            var next := UpsertAll(schema, db, table, a);
            if next.None? then None else UpsertAll(schema, next.value, table, b)
  {
    if a == [] {
      assert a + b == b;
    } else {
      assert (a + b)[1..] == a[1..] + b && (a + b)[0] == a[0];
      var next := Upsert(schema, db, table, a[0]);
      if next.Some? { UpsertAllConcat(schema, next.value, table, a[1..], b); }
    }
  }

  lemma {:induction false} TwoParts(schema: Schema, db: Tables, table: string, rows: seq<Row>, n: nat, m: nat)
    requires n <= n + m <= |rows| && UpsertAll(schema, db, table, Statements(rows[..n])).Some?
    ensures UpsertAll(schema, db, table, Statements(rows[..n + m])) ==
            UpsertAll(schema, UpsertAll(schema, db, table, Statements(rows[..n])).value, table,
                Statements(rows[n..][..m]))
  {
    assert rows[..n + m] == rows[..n] + rows[n..][..m];
    StatementsConcat(rows[..n], rows[n..][..m]);
    UpsertAllConcat(schema, db, table, Statements(rows[..n]), Statements(rows[n..][..m]));
  }

  lemma {:induction false} FirstAndRest(schema: Schema, db: Tables, next: Tables, table: string, rows: seq<Row>, n: nat)
    requires n <= |rows| && UpsertAll(schema, db, table, Statements(rows[..n])) == Some(next)
    ensures UpsertAll(schema, db, table, Statements(rows)) == UpsertAll(schema, next, table, Statements(rows[n..]))
  {
    var m := |rows| - n;
    TwoParts(schema, db, table, rows, n, m);
    assert rows[..n + m] == rows && rows[n..][..m] == rows[n..];
  }

  /** Chunks that all go through amount to one batch. */
  lemma {:induction false} ChunksAreOne(schema: Schema, db: Tables, table: string, rows: seq<Row>)
    requires RunChunks(schema, db, table, rows).1
    ensures UpsertAll(schema, db, table, Statements(rows)) == Some(RunChunks(schema, db, table, rows).0)
    decreases |rows|
  {
    if rows != [] {
      var n := Chunk(rows);
      var next := UpsertAll(schema, db, table, Statements(rows[..n]));
      ChunksAreOne(schema, next.value, table, rows[n..]);
      FirstAndRest(schema, db, next.value, table, rows, n);
    }
  }

  /** The end of the chunk of forty that starts at `i`. */
  function ChunkEnd(i: nat, n: nat): nat { if i + 40 <= n then i + 40 else n }

  /** The first `k` chunks of forty make `stopped` of the database, and the next one fails there. */
  predicate StopsAt(schema: Schema, db: Tables, table: string, rows: seq<Row>, k: nat, stopped: Tables) {
    && 40 * k < |rows| && 40 * k <= ChunkEnd(40 * k, |rows|)
    && UpsertAll(schema, db, table, Statements(rows[..40 * k])) == Some(stopped)
    && UpsertAll(schema, stopped, table, Statements(rows[40 * k..ChunkEnd(40 * k, |rows|)])) == None
  }

  lemma {:induction false} StopsLater(schema: Schema, db: Tables, next: Tables, table: string, rows: seq<Row>, k: nat,
      stopped: Tables)
    requires |rows| > 40 && UpsertAll(schema, db, table, Statements(rows[..40])) == Some(next)
    requires StopsAt(schema, next, table, rows[40..], k, stopped)
    ensures StopsAt(schema, db, table, rows, k + 1, stopped)
  {
    var m := 40 * k;
    TwoParts(schema, db, table, rows, 40, m);
    assert rows[40..][m..ChunkEnd(m, |rows| - 40)] == rows[40 + m..ChunkEnd(40 + m, |rows|)];
  }

  /** An error keeps the chunks of forty before the one in which it happened, and nothing of that one. */
  lemma {:induction false} ErrorKeepsForties(schema: Schema, db: Tables, table: string, rows: seq<Row>)
      returns (k: nat)
    requires !RunChunks(schema, db, table, rows).1
    ensures StopsAt(schema, db, table, rows, k, RunChunks(schema, db, table, rows).0)
    decreases |rows|
  {
    var n := Chunk(rows);
    var next := UpsertAll(schema, db, table, Statements(rows[..n]));
    if next.None? {
      k := 0;
      assert rows[0..n] == rows[..n] && rows[..0] == [];
    } else {
      assert n == 40;
      k := ErrorKeepsForties(schema, next.value, table, rows[n..]);
      StopsLater(schema, db, next.value, table, rows, k, RunChunks(schema, db, table, rows).0);
      k := k + 1;
    }
  }

  lemma {:induction false} UpsertsKeepKeys(schema: Schema, db: Tables, table: string, rows: seq<Row>, other: string,
      key: Key)
    requires key in RowsOf(db, other) && UpsertAll(schema, db, table, rows).Some?
    ensures key in RowsOf(UpsertAll(schema, db, table, rows).value, other)
  {
    if rows != [] { UpsertsKeepKeys(schema, Upsert(schema, db, table, rows[0]).value, table, rows[1..], other, key); }
  }

  lemma {:induction false} ChunksKeepKeys(schema: Schema, db: Tables, table: string, rows: seq<Row>, other: string,
      key: Key)
    requires key in RowsOf(db, other)
    ensures key in RowsOf(RunChunks(schema, db, table, rows).0, other)
    decreases |rows|
  {
    if rows != [] {
      var batch := Statements(rows[..Chunk(rows)]);
      var next := UpsertAll(schema, db, table, batch);
      if next.Some? {
        UpsertsKeepKeys(schema, db, table, batch, other, key);
        ChunksKeepKeys(schema, next.value, table, rows[Chunk(rows)..], other, key);
      }
    }
  }

  lemma {:induction false} TablesKeepKeys(schema: Schema, db: Tables, tables: seq<string>, data: Data,
      report: Report, other: string, key: Key)
    requires key in RowsOf(db, other)
    ensures key in RowsOf(RestoreTables(schema, db, tables, data, report).db, other)
    decreases |tables|
  {
    if tables != [] {
      var o := RestoreTable(schema, db, tables[0], data, report);
      if tables[0] in data { ChunksKeepKeys(schema, db, tables[0], data[tables[0]], other, key); }
      if o.report.Some? { TablesKeepKeys(schema, o.db, tables[1..], data, o.report.value, other, key); }
    }
  }

  // ---------------------------------------------------------------- a backup without secrets

  /** A backend may be stored without its secret. */
  ghost predicate SecretOptional(schema: Schema) {
    && "backends" in schema.defaults
    && forall row | schema.legal("backends", row) ::
       schema.legal("backends", Candidate(schema, "backends", Redacted("backends", row)))
  }

  lemma {:induction false} NothingRedacted(table: string, row: Row)
    requires SecretColumns(table) == {}
    ensures Redacted(table, row) == row
  {
  }

  lemma {:induction false} CandidateLegal(schema: Schema, table: string, row: Row)
    requires PanelSchema(schema) && SecretOptional(schema) && table in schema.defaults
             && row.Keys == schema.defaults[table].Keys
    requires schema.legal(table, row) && RequiredColumns(table) == {}
    ensures schema.legal(table, Candidate(schema, table, Redacted(table, row)))
  {
    if table != "backends" {
      NothingRedacted(table, row);
      SameColumnsMerge(schema.defaults[table], row);
    }
  }

  /** An upsert that gives only what is stored already changes nothing. */
  lemma {:induction false} UpsertSame(schema: Schema, db: Tables, table: string, given: Row, key: Key)
    requires table in db && key in db[table] && RowOk(schema, db, table, key, db[table][key])
    requires given.Keys <= schema.defaults[table].Keys && KeyOf(schema, table, Candidate(schema, table, given)) == key
    requires schema.legal(table, Candidate(schema, table, given)) && db[table][key] + given == db[table][key]
    ensures Upsert(schema, db, table, given) == Some(db)
  {
    assert Stored(schema, db, table, given) == db[table][key];
    assert db[table][key := db[table][key]] == db[table];
    assert db[table := db[table]] == db;
  }

  /** Upserting a row without its secrets over itself changes nothing. */
  lemma {:induction false} RedactedUpsert(schema: Schema, db: Tables, table: string, key: Key)
    requires PanelSchema(schema) && SecretOptional(schema) && WellFormed(schema, db) && key in RowsOf(db, table)
             && RequiredColumns(table) == {}
    ensures Upsert(schema, db, table, Redacted(table, db[table][key])) == Some(db)
  {
    var row := db[table][key];
    assert RowOk(schema, db, table, key, row);
    CandidateLegal(schema, table, row);
    assert row + Redacted(table, row) == row;
    UpsertSame(schema, db, table, Redacted(table, row), key);
  }

  lemma {:induction false} SafeBatch(schema: Schema, db: Tables, table: string, rows: seq<Row>)
    requires PanelSchema(schema) && SecretOptional(schema) && WellFormed(schema, db) && RequiredColumns(table) == {}
    requires ListsSafe(table, rows, RowsOf(db, table))
    ensures UpsertAll(schema, db, table, rows) == Some(db)
  {
    if rows != [] {
      assert rows[0] in rows;
      var k :| k in RowsOf(db, table) && rows[0] == Redacted(table, RowsOf(db, table)[k])
          && !Secret(table, RowsOf(db, table)[k]);
      RedactedUpsert(schema, db, table, k);
      forall row | row in rows[1..] ensures row in rows {}
      SafeBatch(schema, db, table, rows[1..]);
    }
  }

  lemma {:induction false} SomeStatements(rows: seq<Row>, row: Row)
    requires row in Statements(rows)
    ensures row in rows
  {
    if row != rows[0] || rows[0].Keys == {} { SomeStatements(rows[1..], row); }
  }

  lemma {:induction false} SafeChunks(schema: Schema, db: Tables, table: string, rows: seq<Row>)
    requires PanelSchema(schema) && SecretOptional(schema) && WellFormed(schema, db) && RequiredColumns(table) == {}
    requires ListsSafe(table, rows, RowsOf(db, table))
    ensures RunChunks(schema, db, table, rows) == (db, true)
    decreases |rows|
  {
    if rows != [] {
      var n := Chunk(rows);
      forall row | row in Statements(rows[..n]) ensures row in rows { SomeStatements(rows[..n], row); }
      SafeBatch(schema, db, table, Statements(rows[..n]));
      forall row | row in rows[n..] ensures row in rows {}
      SafeChunks(schema, db, table, rows[n..]);
    }
  }

  lemma {:induction false} RequiredMissing(table: string, rows: seq<Row>, original: Rows)
    requires ListsSafe(table, rows, original) && rows != [] && RequiredColumns(table) != {}
    ensures !(RequiredColumns(table) <= rows[0].Keys)
  {
    assert rows[0] in rows;
    var k :| k in original && rows[0] == Redacted(table, original[k]) && !Secret(table, original[k]);
    var column :| column in RequiredColumns(table);
    assert RequiredColumns(table) <= SecretColumns(table);
    assert column !in rows[0];
  }

  lemma {:induction false} SafeTables(schema: Schema, db: Tables, tables: seq<string>, data: Data, report: Report)
    requires PanelSchema(schema) && SecretOptional(schema) && WellFormed(schema, db) && SafeBackup(data, db)
    ensures var o := RestoreTables(schema, db, tables, data, report); o.report.Some? && o.db == db
    decreases |tables|
  {
    if tables != [] {
      var t := tables[0];
      if t in data && data[t] != [] {
        if RequiredColumns(t) == {} {
          SafeChunks(schema, db, t, data[t]);
        } else {
          RequiredMissing(t, data[t], RowsOf(db, t));
        }
      }
      var o := RestoreTable(schema, db, t, data, report);
      SafeTables(schema, db, tables[1..], data, o.report.value);
    }
  }

  /** A backup without secrets, restored without a wipe onto the database it was made of, succeeds and changes
      nothing: no secret is lost. */
  lemma {:induction false} SafeRestore(schema: Schema, db: Tables, data: Data)
    requires PanelSchema(schema) && SecretOptional(schema) && WellFormed(schema, db) && SafeBackup(data, db)
    ensures var o := Restore(schema, db, data, false); o.report.Some? && o.db == db
  {
    SafeTables(schema, db, BACKUP_TABLES, data, NOTHING);
  }

  // ---------------------------------------------------------------- what a backup without secrets holds

  /** Password hashes and one-time secrets, the secrets of backends, the credentials of users, and the tokens of
      subscriptions. */
  predicate IsSecretColumn(table: string, column: string) {
    || (table == "admins" && column in {"password_hash", "totp_secret_enc", "recovery_code_hash"})
    || (table == "backends" && column == "secret_enc")
    || (table == "users" && column in {"credential_uuid", "trojan_password", "ss_password"})
    || (table == "subscriptions" && column == "token")
  }

  /** A setting that is marked secret. */
  predicate IsSecretSetting(table: string, row: Row) {
    table == "system_settings" && "is_secret" in row && row["is_secret"] == Int(1)
  }

  /** `shown` is `row` without its secret columns. */
  ghost predicate Shows(table: string, shown: Row, row: Row) {
    && (forall column :: column in shown <==> column in row && !IsSecretColumn(table, column))
    && (forall column | column in shown :: shown[column] == row[column])
  }

  lemma {:induction false} RedactedShows(table: string, row: Row)
    ensures Shows(table, Redacted(table, row), row) && (Secret(table, row) <==> IsSecretSetting(table, row))
  {
  }

  /** Nothing in a backup without secrets comes from a secret column or setting. */
  lemma {:induction false} NoSecretShown(data: Data, db: Tables, table: string, shown: Row)
    requires SafeBackup(data, db) && table in data && shown in data[table]
    ensures exists k :: k in RowsOf(db, table) && Shows(table, shown, RowsOf(db, table)[k])
                        && !IsSecretSetting(table, RowsOf(db, table)[k])
    ensures forall column | column in shown :: !IsSecretColumn(table, column)
    ensures !IsSecretSetting(table, shown)
  {
    var k :| k in RowsOf(db, table) && shown == Redacted(table, RowsOf(db, table)[k])
             && !Secret(table, RowsOf(db, table)[k]);
    RedactedShows(table, RowsOf(db, table)[k]);
  }

  /** And nothing else is missing. */
  lemma {:induction false} RestShown(data: Data, db: Tables, order: Order, table: string, key: Key)
    requires EachShown(data, db, BACKUP_TABLES, order) && table in BACKUP_TABLES && key in RowsOf(db, table)
    requires !IsSecretSetting(table, RowsOf(db, table)[key])
    ensures exists shown :: shown in data[table] && Shows(table, shown, RowsOf(db, table)[key])
  {
    RedactedShows(table, RowsOf(db, table)[key]);
    var keys := ReadAs(order, table);
    var i :| 0 <= i < |keys| && keys[i] == key;
    assert data[table][i] in data[table];
  }

  /** A restore leaves out a table that is empty in the payload, and admins, users and subscriptions without the columns
      that the table cannot be without. */
  lemma {:induction false} SkippedIff(schema: Schema, db: Tables, table: string, data: Data, report: Report)
    ensures var o := RestoreTable(schema, db, table, data, report);
            var empty := table !in data || data[table] == [];
            var missing := !empty
                && (|| (table == "admins" && "password_hash" !in data[table][0])
                    || (table == "users" && !({"credential_uuid", "trojan_password", "ss_password"}
                        <= data[table][0].Keys))
                    || (table == "subscriptions" && "token" !in data[table][0]));
            && (empty ==> o == Outcome(db, Some(report.(skipped := report.skipped + [Skip(table, Empty)]))))
            && (missing ==>
                  o == Outcome(db, Some(report.(skipped := report.skipped + [Skip(table, MissingSecretColumns)]))))
            && (!empty && !missing && o.report.Some? ==>
                  o.report.value.skipped == report.skipped
                  && o.report.value.restored == report.restored[table := |Statements(data[table])|])
  {
  }

  /** So a backup without secrets never writes admins, users and subscriptions. */
  lemma {:induction false} NeverWritten(schema: Schema, db: Tables, original: Tables, table: string, data: Data,
      report: Report)
    requires SafeBackup(data, original) && table in {"admins", "users", "subscriptions"}
    ensures var o := RestoreTable(schema, db, table, data, report);
            var reason := if table !in data || data[table] == [] then Empty else MissingSecretColumns;
            o == Outcome(db, Some(report.(skipped := report.skipped + [Skip(table, reason)])))
  {
    SkippedIff(schema, db, table, data, report);
    if table in data && data[table] != [] { NoSecretShown(data, original, table, data[table][0]); }
  }
}
