/** Relational tables under a schema, and the two kinds of statement that a restore runs, with the constraints that the
    database checks at the end of each. */
module Database {
  import opened Text

  datatype Value = Null | Int(n: int) | Text(s: string)

  type Row = map<string, Value>

  type Key = seq<Value>

  /** A table by primary key. */
  type Rows = map<Key, Row>

  type Tables = map<string, Rows>

  datatype OnDelete = Cascade | SetNull | NoAction

  /** A foreign key: `column` holds the key of a row of `target`, or NULL. */
  datatype Ref = Ref(column: string, target: string, onDelete: OnDelete)

  /** The tables; each one's primary key, foreign keys and other unique columns; its row of default values, which has
      all its columns; and which rows satisfy its types and `NOT NULL`s. */
  datatype Schema = Schema(
    tables: set<string>,
    keyColumns: string -> seq<string>,
    refs: string -> seq<Ref>,
    uniques: string -> seq<string>,
    defaults: map<string, Row>,
    legal: (string, Row) -> bool)

  function ValueAt(row: Row, column: string): Value { if column in row then row[column] else Null }

  function KeyIn(columns: seq<string>, row: Row): (key: Key)
    ensures |key| == |columns| && forall i | 0 <= i < |key| :: key[i] == ValueAt(row, columns[i])
  {
    seq(|columns|, i requires 0 <= i < |columns| => ValueAt(row, columns[i]))
  }

  function KeyOf(schema: Schema, table: string, row: Row): Key { KeyIn(schema.keyColumns(table), row) }

  function RowsOf(db: Tables, table: string): Rows { if table in db then db[table] else map[] }

  predicate RefOk(db: Tables, ref: Ref, row: Row) {
    ValueAt(row, ref.column) == Null || [ValueAt(row, ref.column)] in RowsOf(db, ref.target)
  }

  predicate RefsOk(schema: Schema, db: Tables, table: string, row: Row) {
    forall ref | ref in schema.refs(table) :: RefOk(db, ref, row)
  }

  /** Two rows do not agree on a unique column, NULLs aside. */
  predicate Apart(schema: Schema, table: string, a: Row, b: Row) {
    forall column | column in schema.uniques(table) :: ValueAt(a, column) == Null
        || ValueAt(a, column) != ValueAt(b, column)
  }

  predicate UniqueOk(schema: Schema, rows: Rows, table: string, key: Key, row: Row) {
    forall k | k in rows && k != key :: Apart(schema, table, row, rows[k])
  }

  /** What a row satisfies by itself. */
  predicate ShapeOk(schema: Schema, table: string, key: Key, row: Row) {
    && table in schema.defaults && row.Keys == schema.defaults[table].Keys
    && KeyOf(schema, table, row) == key && schema.legal(table, row)
  }

  predicate RowOk(schema: Schema, db: Tables, table: string, key: Key, row: Row) {
    && ShapeOk(schema, table, key, row)
    && RefsOk(schema, db, table, row) && UniqueOk(schema, RowsOf(db, table), table, key, row)
  }

  /** Every row of every table satisfies every constraint. */
  ghost predicate WellFormed(schema: Schema, db: Tables) {
    && db.Keys == schema.tables
    && forall table, key | table in db && key in db[table] :: RowOk(schema, db, table, key, db[table][key])
  }

  // ---------------------------------------------------------------- INSERT … ON CONFLICT(primary key) DO UPDATE

  /** The row to insert: the columns that are not given take their defaults. */
  function Candidate(schema: Schema, table: string, row: Row): Row
    requires table in schema.defaults
  {
    schema.defaults[table] + row
  }

  /** The row as it is stored: over an existing row with the same key only the given columns change. */
  function Stored(schema: Schema, db: Tables, table: string, row: Row): Row
    requires table in schema.defaults
  {
    var candidate := Candidate(schema, table, row);
    var key := KeyOf(schema, table, candidate);
    if key in RowsOf(db, table) then RowsOf(db, table)[key] + row else candidate
  }

  /** One upsert; `None` is a constraint error, which leaves the database as it was. */
  function Upsert(schema: Schema, db: Tables, table: string, row: Row): Option<Tables> {
    if table !in db || table !in schema.defaults || !(row.Keys <= schema.defaults[table].Keys) then None
    else
      var key := KeyOf(schema, table, Candidate(schema, table, row));
      var stored := Stored(schema, db, table, row);
      if schema.legal(table, Candidate(schema, table, row)) && RowOk(schema, db, table, key, stored)
      then Some(db[table := db[table][key := stored]])
      else None
  }

  lemma {:induction false} UniqueStill(schema: Schema, rows: Rows, table: string, key: Key, stored: Row, k: Key)
    requires k in rows && k != key && UniqueOk(schema, rows, table, k, rows[k])
             && UniqueOk(schema, rows, table, key, stored)
    ensures UniqueOk(schema, rows[key := stored], table, k, rows[k])
  {
  }

  /** An upsert that succeeds leaves every constraint in force. */
  lemma {:induction false} UpsertKeeps(schema: Schema, db: Tables, table: string, row: Row)
    requires WellFormed(schema, db) && Upsert(schema, db, table, row).Some?
    ensures WellFormed(schema, Upsert(schema, db, table, row).value)
  {
    var after := Upsert(schema, db, table, row).value;
    var key := KeyOf(schema, table, Candidate(schema, table, row));
    var stored := Stored(schema, db, table, row);
    StoreKeeps(schema, db, table, key, stored);
  }

  lemma {:induction false} StoreKeeps(schema: Schema, db: Tables, table: string, key: Key, stored: Row)
    requires WellFormed(schema, db) && table in db && RowOk(schema, db, table, key, stored)
    ensures WellFormed(schema, db[table := db[table][key := stored]])
  {
    var after := db[table := db[table][key := stored]];
    forall t, k | t in after && k in after[t] ensures RowOk(schema, after, t, k, after[t][k]) {
      var r := after[t][k];
      assert RowOk(schema, db, t, k, r);
      if t == table && k != key { UniqueStill(schema, db[t], t, key, stored, k); }
    }
  }

  // ---------------------------------------------------------------- DELETE FROM table

  /** A row that refers to some row of `target` in one way. */
  predicate Refers(schema: Schema, table: string, row: Row, target: string, how: OnDelete) {
    exists ref | ref in schema.refs(table) :: ref.target == target && ref.onDelete == how
        && ValueAt(row, ref.column) != Null
  }

  predicate Nulls(schema: Schema, table: string, target: string, column: string) {
    exists ref | ref in schema.refs(table) :: ref.target == target && ref.onDelete == SetNull && ref.column == column
  }

  /** A row once `ON DELETE SET NULL` has acted. */
  function Nulled(schema: Schema, table: string, row: Row, target: string): (r: Row)
    ensures forall column :: ValueAt(r, column) == if Nulls(schema, table, target, column) then Null
            else ValueAt(row, column)
  {
    map column | column in row :: if Nulls(schema, table, target, column) then Null else row[column]
  }

  /** What deleting all rows of `target` makes of a table. */
  function Without(schema: Schema, table: string, rows: Rows, target: string): Rows {
    if table == target then map[]
    else
      map key | key in rows && !Refers(schema, table, rows[key], target, Cascade) ::
        Nulled(schema, table, rows[key], target)
  }

  /** `DELETE FROM target`; `None` is a foreign key error.  Cascades go one step: see `SoundRefs`. */
  function DeleteAll(schema: Schema, db: Tables, target: string): Option<Tables> {
    if exists table, key | table in db && key in db[table] :: Refers(schema, table, db[table][key], target, NoAction)
        then None
    else Some(map table | table in db :: Without(schema, table, db[table], target))
  }

  /** Rows that a cascade takes along are never referred to themselves, and no key column is ever set to NULL. */
  ghost predicate SoundRefs(schema: Schema) {
    && (forall table, other, ref, back | ref in schema.refs(table) && ref.onDelete == Cascade
          && back in schema.refs(other) :: back.target != table)
    && (forall table, ref | ref in schema.refs(table) && ref.onDelete == SetNull ::
          ref.column !in schema.keyColumns(table))
  }

  /** Setting a reference to NULL keeps a row legal. */
  ghost predicate SoundLegal(schema: Schema) {
    forall table, row, target | schema.legal(table, row) :: schema.legal(table, Nulled(schema, table, row, target))
  }

  lemma {:induction false} KeptApart(schema: Schema, table: string, a: Row, b: Row, target: string)
    requires Apart(schema, table, a, b)
    ensures Apart(schema, table, Nulled(schema, table, a, target), Nulled(schema, table, b, target))
  {
  }

  /** References of a row that is kept do not point to a deleted row. */
  lemma {:induction false} KeptRefs(schema: Schema, db: Tables, after: Tables, target: string, table: string, key: Key)
    requires SoundRefs(schema) && DeleteAll(schema, db, target) == Some(after)
    requires table in db && key in Without(schema, table, db[table], target)
             && RefsOk(schema, db, table, db[table][key])
    ensures RefsOk(schema, after, table, Nulled(schema, table, db[table][key], target))
  {
  }

  lemma {:induction false} KeptRow(schema: Schema, db: Tables, after: Tables, target: string, table: string, key: Key)
    requires SoundRefs(schema) && SoundLegal(schema) && WellFormed(schema, db)
             && DeleteAll(schema, db, target) == Some(after)
    requires table in after && key in after[table]
    ensures RowOk(schema, after, table, key, after[table][key])
  {
    var rows := db[table];
    assert after[table] == Without(schema, table, rows, target);
    assert RowOk(schema, db, table, key, rows[key]);
    KeptRefs(schema, db, after, target, table, key);
    forall k | k in after[table] && k != key ensures Apart(schema, table, after[table][key], after[table][k]) {
      KeptApart(schema, table, rows[key], rows[k], target);
    }
  }

  /** Deleting all rows of a table leaves every constraint in force. */
  lemma {:induction false} DeleteKeeps(schema: Schema, db: Tables, target: string)
    requires SoundRefs(schema) && SoundLegal(schema) && WellFormed(schema, db) && DeleteAll(schema, db, target).Some?
    ensures WellFormed(schema, DeleteAll(schema, db, target).value)
  {
    var after := DeleteAll(schema, db, target).value;
    forall t, k | t in after && k in after[t] ensures RowOk(schema, after, t, k, after[t][k]) {
      KeptRow(schema, db, after, target, t, k);
    }
  }
}
