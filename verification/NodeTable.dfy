/**
 Node tables: columns of values and an index from primary keys to rows.
 The functions on the value `Table` say what each operation does; the class
 `NodeTable` is proved to do it in place.
 */
module NodeTable {
  import opened Wrappers
  import opened Values

  datatype ColumnDef = ColumnDef(name: string, dataType: DataType)

  datatype Schema = Schema(tableId: nat, columns: seq<ColumnDef>, primaryKey: seq<string>)

  function Names(s: Schema): (names: seq<string>)
    ensures |names| == |s.columns|
  {
    seq(|s.columns|, i requires 0 <= i < |s.columns| => s.columns[i].name)
  }

  /** What `NodeTableSchema::validate` accepts. */
  ghost predicate SchemaOk(s: Schema) {
    && |s.columns| > 0 && |s.primaryKey| > 0
    && (forall i, j :: 0 <= i < j < |s.columns| ==> s.columns[i].name != s.columns[j].name)
    && (forall k :: 0 <= k < |s.primaryKey| ==> s.primaryKey[k] in Names(s))
  }

  /** `position`: the first index holding a name. */
  function Position(names: seq<string>, name: string): (r: Option<nat>)
    ensures r.Some? <==> name in names
    ensures r.Some? ==> r.value < |names| && names[r.value] == name
    ensures r.Some? ==> name !in names[..r.value]
  {
    if names == [] then None
    else if names[0] == name then Some(0)
    else match Position(names[1..], name)
      case Some(i) => Some(i + 1)
      case None => None
  }

  /** The primary key of a row given in schema order; `filter_map` skips unknown columns. */
  function KeyFrom(s: Schema, pk: seq<string>, row: seq<Value>): seq<Value>
    requires |row| == |s.columns|
  {
    if pk == [] then []
    else (match Position(Names(s), pk[0]) case Some(i) => [row[i]] case None => []) + KeyFrom(s, pk[1..], row)
  }

  function KeyOf(s: Schema, row: seq<Value>): seq<Value>
    requires |row| == |s.columns|
  {
    KeyFrom(s, s.primaryKey, row)
  }

  // ------------------------------------------------------------------ tables as values

  datatype TableData = TableData(columns: seq<seq<Value>>, rowCount: nat)

  datatype Table = Table(schema: Schema, data: TableData, pkIndex: map<seq<Value>, nat>)

  ghost predicate Rectangular(s: Schema, d: TableData) {
    |d.columns| == |s.columns| && forall c :: 0 <= c < |d.columns| ==> |d.columns[c]| == d.rowCount
  }

  function RowAt(s: Schema, d: TableData, i: nat): (row: seq<Value>)
    requires Rectangular(s, d) && i < d.rowCount
    ensures |row| == |s.columns|
  {
    seq(|d.columns|, c requires 0 <= c < |d.columns| => d.columns[c][i])
  }

  /** The saved cell of a row in the first column of that name. */
  ghost predicate HasCell(t: Table, row: nat, column: string, v: Value) {
    exists c ::
      && 0 <= c < |t.schema.columns| && t.schema.columns[c].name == column
      && (forall b :: 0 <= b < c ==> t.schema.columns[b].name != column)
      && c < |t.data.columns| && row < |t.data.columns[c]| && t.data.columns[c][row] == v
  }

  /** The index maps each row's key to that row and holds nothing else. */
  ghost predicate IndexOk(s: Schema, d: TableData, index: map<seq<Value>, nat>)
    requires Rectangular(s, d)
  {
    && (forall i: nat :: i < d.rowCount ==> KeyOf(s, RowAt(s, d, i)) in index && index[KeyOf(s, RowAt(s, d, i))] == i)
    && (forall k :: k in index ==> index[k] < d.rowCount && KeyOf(s, RowAt(s, d, index[k])) == k)
  }

  ghost predicate TableOk(t: Table) {
    SchemaOk(t.schema) && Rectangular(t.schema, t.data) && IndexOk(t.schema, t.data, t.pkIndex)
  }

  function EmptyTable(s: Schema): (t: Table)
    ensures t.schema == s && t.data.rowCount == 0 && t.pkIndex == map[] && |t.data.columns| == |s.columns|
    ensures forall c :: 0 <= c < |s.columns| ==> t.data.columns[c] == []
  {
    Table(s, TableData(seq(|s.columns|, i => []), 0), map[])
  }

  function AppendData(d: TableData, row: seq<Value>): TableData
    requires |row| == |d.columns|
  {
    TableData(seq(|d.columns|, c requires 0 <= c < |d.columns| => d.columns[c] + [row[c]]), d.rowCount + 1)
  }

  /** One more row and one more index entry. */
  function AppendRow(t: Table, row: seq<Value>): Table
    requires |row| == |t.data.columns| == |t.schema.columns|
  {
    Table(t.schema, AppendData(t.data, row), t.pkIndex[KeyOf(t.schema, row) := t.data.rowCount])
  }

  lemma AppendedRows(s: Schema, d: TableData, row: seq<Value>)
    requires Rectangular(s, d) && |row| == |s.columns|
    ensures Rectangular(s, AppendData(d, row))
    ensures forall i: nat :: i < d.rowCount ==> RowAt(s, AppendData(d, row), i) == RowAt(s, d, i)
    ensures RowAt(s, AppendData(d, row), d.rowCount) == row
  {}

  /** Appending a row with a fresh key keeps the index exact. */
  lemma AppendKeepsTableOk(t: Table, row: seq<Value>)
    requires TableOk(t) && |row| == |t.schema.columns| && KeyOf(t.schema, row) !in t.pkIndex
    ensures TableOk(AppendRow(t, row))
  {
    AppendedRows(t.schema, t.data, row);
    var t' := AppendRow(t, row);
    forall i: nat | i < t'.data.rowCount
      ensures KeyOf(t.schema, RowAt(t.schema, t'.data, i)) in t'.pkIndex
      ensures t'.pkIndex[KeyOf(t.schema, RowAt(t.schema, t'.data, i))] == i
    {
      if i < t.data.rowCount { assert RowAt(t.schema, t'.data, i) == RowAt(t.schema, t.data, i); }
    }
    forall k | k in t'.pkIndex
      ensures t'.pkIndex[k] < t'.data.rowCount && KeyOf(t.schema, RowAt(t.schema, t'.data, t'.pkIndex[k])) == k
    {
      if k in t.pkIndex && k != KeyOf(t.schema, row) {
        assert RowAt(t.schema, t'.data, t.pkIndex[k]) == RowAt(t.schema, t.data, t.pkIndex[k]);
      }
    }
  }

  // ------------------------------------------------------------------ inserting one row

  predicate AllPresent(s: Schema, row: Row) { forall i :: 0 <= i < |s.columns| ==> s.columns[i].name in row }

  predicate AllKnown(s: Schema, row: Row) { forall name :: name in row ==> name in Names(s) }

  predicate Fits(v: Value, dt: DataType) { v == Null || TypeOf(v) == Some(dt) }

  predicate WellTyped(s: Schema, row: Row) {
    forall name :: name in row && name in Names(s) ==>
             Fits(row[name], s.columns[Position(Names(s), name).value].dataType)
  }

  function RowValues(s: Schema, row: Row): (values: seq<Value>)
    requires AllPresent(s, row)
    ensures |values| == |s.columns|
  {
    seq(|s.columns|, i requires 0 <= i < |s.columns| => row[s.columns[i].name])
  }

  predicate Accepts(t: Table, row: Row) {
    && AllPresent(t.schema, row) && AllKnown(t.schema, row) && WellTyped(t.schema, row)
    && KeyOf(t.schema, RowValues(t.schema, row)) !in t.pkIndex
  }

  /** The table after `insert`, which changes nothing when it rejects the row. */
  function Inserted(t: Table, row: Row): Table
    requires |t.data.columns| == |t.schema.columns|
  {
    if Accepts(t, row) then AppendRow(t, RowValues(t.schema, row)) else t
  }

  lemma InsertKeepsTableOk(t: Table, row: Row)
    requires TableOk(t)
    ensures TableOk(Inserted(t, row))
  {
    if Accepts(t, row) { AppendKeepsTableOk(t, RowValues(t.schema, row)); }
  }

  // ------------------------------------------------------------------ saving and loading

  /** The key cells of a saved row; `filter_map` skips cells that the saved columns do not have. */
  function SavedKey(s: Schema, d: TableData, pk: seq<string>, i: nat): seq<Value> {
    if pk == [] then []
    else
      (match Position(Names(s), pk[0])
       case Some(c) => if c < |d.columns| && i < |d.columns[c]| then [d.columns[c][i]] else []
       case None => []) + SavedKey(s, d, pk[1..], i)
  }

  /** The index `from_data` rebuilds from the first `n` rows. */
  function BuildIndex(s: Schema, d: TableData, n: nat): map<seq<Value>, nat> {
    if n == 0 then map[] else BuildIndex(s, d, n - 1)[SavedKey(s, d, s.primaryKey, n - 1) := n - 1]
  }

  function FromData(s: Schema, d: TableData): Table { Table(s, d, BuildIndex(s, d, d.rowCount)) }

  lemma {:induction false} SavedKeyIsKey(s: Schema, d: TableData, pk: seq<string>, i: nat)
    requires Rectangular(s, d) && i < d.rowCount
    ensures SavedKey(s, d, pk, i) == KeyFrom(s, pk, RowAt(s, d, i))
  {
    if pk != [] { SavedKeyIsKey(s, d, pk[1..], i); }
  }

  /** No two saved rows have the same key. */
  ghost predicate KeysDiffer(s: Schema, d: TableData, n: nat)
    requires Rectangular(s, d) && n <= d.rowCount
  {
    forall i: nat, j: nat :: i < j < n ==> KeyOf(s, RowAt(s, d, i)) != KeyOf(s, RowAt(s, d, j))
  }

  lemma {:induction false} BuildIndexIsExact(s: Schema, d: TableData, n: nat)
    requires Rectangular(s, d) && n <= d.rowCount
    ensures forall i: nat :: i < n ==> KeyOf(s, RowAt(s, d, i)) in BuildIndex(s, d, n)
    ensures forall k :: k in BuildIndex(s, d, n) ==>
              BuildIndex(s, d, n)[k] < n && KeyOf(s, RowAt(s, d, BuildIndex(s, d, n)[k])) == k
  {
    if n > 0 {
      BuildIndexIsExact(s, d, n - 1);
      SavedKeyIsKey(s, d, s.primaryKey, n - 1);
    }
  }

  /** Any saved columns can be loaded; the table is sound exactly if they are complete and no key comes twice. */
  lemma FromDataIsOk(s: Schema, d: TableData)
    requires SchemaOk(s)
    ensures TableOk(FromData(s, d)) <==> Rectangular(s, d) && KeysDiffer(s, d, d.rowCount)
  {
    if Rectangular(s, d) { BuildIndexIsExact(s, d, d.rowCount); }
  }

  /** Saving the columns and rebuilding the index gives the same table. */
  lemma FromDataRestores(t: Table)
    requires TableOk(t)
    ensures FromData(t.schema, t.data) == t
  {
    BuildIndexIsExact(t.schema, t.data, t.data.rowCount);
    assert BuildIndex(t.schema, t.data, t.data.rowCount) == t.pkIndex;
  }

  // ------------------------------------------------------------------ batches

  /** A batch names its columns, as many as the schema has and none of them missing. */
  ghost predicate NamesOk(s: Schema, names: seq<string>) {
    |names| == |s.columns| && forall c :: 0 <= c < |s.columns| ==> s.columns[c].name in names
  }

  /** A batch row in schema order. */
  function MapRow(s: Schema, names: seq<string>, row: seq<Value>): (r: seq<Value>)
    requires NamesOk(s, names) && |row| == |names|
    ensures |r| == |s.columns|
  {
    seq(|s.columns|, c requires 0 <= c < |s.columns| => row[Position(names, s.columns[c].name).value])
  }

  ghost predicate LengthsOk(names: seq<string>, rows: seq<seq<Value>>) {
    forall i :: 0 <= i < |rows| ==> |rows[i]| == |names|
  }

  function BatchKey(s: Schema, names: seq<string>, row: seq<Value>): seq<Value>
    requires NamesOk(s, names) && |row| == |names|
  {
    KeyOf(s, MapRow(s, names, row))
  }

  /** No key repeats, in the batch or against the table. */
  ghost predicate FreshKeys(t: Table, names: seq<string>, rows: seq<seq<Value>>)
    requires NamesOk(t.schema, names) && LengthsOk(names, rows)
  {
    && (forall i :: 0 <= i < |rows| ==> BatchKey(t.schema, names, rows[i]) !in t.pkIndex)
    && (forall i, j :: 0 <= i < j < |rows| ==> BatchKey(t.schema, names, rows[i]) != BatchKey(t.schema, names, rows[j]))
  }

  /** What `insert_batch` checks; it never looks at the types of the values. */
  ghost predicate BatchAccepts(t: Table, names: seq<string>, rows: seq<seq<Value>>) {
    rows == [] || (NamesOk(t.schema, names) && LengthsOk(names, rows) && FreshKeys(t, names, rows))
  }

  function AppendAll(t: Table, names: seq<string>, rows: seq<seq<Value>>): (t': Table)
    requires rows != [] ==> NamesOk(t.schema, names) && LengthsOk(names, rows)
    requires |t.data.columns| == |t.schema.columns|
    ensures t'.schema == t.schema && |t'.data.columns| == |t.data.columns|
  {
    if rows == [] then t
    else AppendRow(AppendAll(t, names, rows[..|rows| - 1]), MapRow(t.schema, names, rows[|rows| - 1]))
  }

  /** After a batch the index holds the old keys and the keys of the batch. */
  lemma {:induction false} AppendAllKeys(t: Table, names: seq<string>, rows: seq<seq<Value>>)
    requires TableOk(t) && BatchAccepts(t, names, rows)
    ensures TableOk(AppendAll(t, names, rows))
    ensures forall k :: k in AppendAll(t, names, rows).pkIndex <==>
              k in t.pkIndex || exists i :: 0 <= i < |rows| && k == BatchKey(t.schema, names, rows[i])
  {
    if rows != [] {
      var n := |rows| - 1;
      AppendAllKeys(t, names, rows[..n]);
      var t' := AppendAll(t, names, rows[..n]);
      assert BatchKey(t.schema, names, rows[n]) !in t'.pkIndex;
      AppendKeepsTableOk(t', MapRow(t.schema, names, rows[n]));
      LastKey(t.pkIndex, t'.pkIndex, t.schema, names, rows[..n], rows);
    }
  }

  lemma LastKey(index: map<seq<Value>, nat>, index': map<seq<Value>, nat>, s: Schema, names: seq<string>,
                front: seq<seq<Value>>, rows: seq<seq<Value>>)
    requires NamesOk(s, names) && LengthsOk(names, rows) && rows != [] && front == rows[..|rows| - 1]
    requires forall k ::
               k in index' <==> k in index || exists i :: 0 <= i < |front| && k == BatchKey(s, names, front[i])
    ensures forall k :: k in index' || k == BatchKey(s, names, rows[|rows| - 1]) <==>
              k in index || exists i :: 0 <= i < |rows| && k == BatchKey(s, names, rows[i])
  {
    var n := |rows| - 1;
    forall k | k in index' || k == BatchKey(s, names, rows[n])
      ensures k in index || exists i :: 0 <= i < |rows| && k == BatchKey(s, names, rows[i])
    {
      if k != BatchKey(s, names, rows[n]) && k !in index {
        var i :| 0 <= i < n && k == BatchKey(s, names, front[i]);
        assert k == BatchKey(s, names, rows[i]);
      }
    }
    forall i | 0 <= i < n ensures BatchKey(s, names, rows[i]) in index' {
      assert front[i] == rows[i];
    }
  }

  /** Splitting a batch changes nothing: not whether it is accepted, not the resulting table. */
  lemma BatchSplits(t: Table, names: seq<string>, a: seq<seq<Value>>, b: seq<seq<Value>>)
    requires TableOk(t)
    ensures BatchAccepts(t, names, a + b) <==>
              BatchAccepts(t, names, a) && BatchAccepts(AppendAll(t, names, a), names, b)
    ensures BatchAccepts(t, names, a + b) ==>
              AppendAll(t, names, a + b) == AppendAll(AppendAll(t, names, a), names, b)
  {
    SplitAccepts(t, names, a, b);
    if BatchAccepts(t, names, a + b) {
      SplitLengths(names, a, b);
      SplitAppend(t, names, a, b);
    }
  }

  lemma SplitLengths(names: seq<string>, a: seq<seq<Value>>, b: seq<seq<Value>>)
    ensures LengthsOk(names, a + b) <==> LengthsOk(names, a) && LengthsOk(names, b)
  {
    assert forall i :: 0 <= i < |a| ==> (a + b)[i] == a[i];
    assert forall i :: 0 <= i < |b| ==> (a + b)[|a| + i] == b[i];
  }

  lemma SplitAccepts(t: Table, names: seq<string>, a: seq<seq<Value>>, b: seq<seq<Value>>)
    requires TableOk(t)
    ensures BatchAccepts(t, names, a + b) <==>
              BatchAccepts(t, names, a) && BatchAccepts(AppendAll(t, names, a), names, b)
  {
    SplitLengths(names, a, b);
    if a == [] {
      assert a + b == b;
    } else if b == [] {
      assert a + b == a;
    } else if NamesOk(t.schema, names) && LengthsOk(names, a + b) {
      if FreshKeys(t, names, a) {
        SplitFresh(t, names, a, b);
      } else {
        assert forall i :: 0 <= i < |a| ==> (a + b)[i] == a[i];
      }
    }
  }

  lemma SplitFresh(t: Table, names: seq<string>, a: seq<seq<Value>>, b: seq<seq<Value>>)
    requires TableOk(t) && NamesOk(t.schema, names) && LengthsOk(names, a + b)
    requires LengthsOk(names, a) && LengthsOk(names, b) && FreshKeys(t, names, a)
    ensures FreshKeys(t, names, a + b) <==> FreshKeys(AppendAll(t, names, a), names, b)
  {
    AppendAllKeys(t, names, a);
    var t' := AppendAll(t, names, a);
    if FreshKeys(t', names, b) {
      forall i, j | 0 <= i < j < |a + b|
        ensures BatchKey(t.schema, names, (a + b)[i]) != BatchKey(t.schema, names, (a + b)[j])
      {
        if i < |a| <= j {
          assert BatchKey(t.schema, names, b[j - |a|]) !in t'.pkIndex;
        }
      }
    }
    if FreshKeys(t, names, a + b) {
      forall j | 0 <= j < |b| ensures BatchKey(t.schema, names, b[j]) !in t'.pkIndex {
        assert b[j] == (a + b)[|a| + j];
        forall i | 0 <= i < |a| ensures BatchKey(t.schema, names, a[i]) != BatchKey(t.schema, names, b[j]) {
          assert (a + b)[i] == a[i];
        }
      }
      forall i, j | 0 <= i < j < |b| ensures BatchKey(t.schema, names, b[i]) != BatchKey(t.schema, names, b[j]) {
        assert b[i] == (a + b)[|a| + i] && b[j] == (a + b)[|a| + j];
      }
    }
  }

  lemma {:induction false} SplitAppend(t: Table, names: seq<string>, a: seq<seq<Value>>, b: seq<seq<Value>>)
    requires a + b != [] ==> NamesOk(t.schema, names) && LengthsOk(names, a + b)
    requires LengthsOk(names, a) && LengthsOk(names, b)
    requires |t.data.columns| == |t.schema.columns|
    ensures AppendAll(t, names, a + b) == AppendAll(AppendAll(t, names, a), names, b)
  {
    if b == [] {
      assert a + b == a;
    } else {
      var n := |b| - 1;
      assert (a + b)[..|a + b| - 1] == a + b[..n] && (a + b)[|a + b| - 1] == b[n];
      SplitAppend(t, names, a, b[..n]);
    }
  }

  // ------------------------------------------------------------------ a batch against single inserts

  /** The row of a batch as `insert` takes it. */
  function RowMap(names: seq<string>, row: seq<Value>): Row
    requires |row| == |names|
  {
    map name | name in names :: row[Position(names, name).value]
  }

  /** Inserting one by one, giving up at the first row that is rejected. */
  function InsertEach(t: Table, names: seq<string>, rows: seq<seq<Value>>): Option<Table>
    requires LengthsOk(names, rows) && |t.data.columns| == |t.schema.columns|
  {
    if rows == [] then Some(t)
    else match InsertEach(t, names, rows[..|rows| - 1])
      case None => None
      case Some(t') =>
        var row := RowMap(names, rows[|rows| - 1]);
        if |t'.data.columns| == |t'.schema.columns| && Accepts(t', row)
        then Some(AppendRow(t', RowValues(t'.schema, row)))
        else None
  }

  predicate TypesOk(s: Schema, names: seq<string>, rows: seq<seq<Value>>)
    requires forall i :: 0 <= i < |rows| ==> |rows[i]| == |names|
  {
    forall i :: 0 <= i < |rows| ==> WellTyped(s, RowMap(names, rows[i]))
  }

  /** As many names as columns and none missing leaves no room for an unknown or repeated one. */
  lemma NamesAreExact(s: Schema, names: seq<string>)
    requires SchemaOk(s) && NamesOk(s, names)
    ensures forall name :: name in names ==> name in Names(s)
  {
    var known := set name | name in Names(s);
    CountNames(Names(s));
    var given := set name | name in names;
    SetOfSeqIsSmall(names);
    forall name | name in known ensures name in given {
      var c :| 0 <= c < |s.columns| && Names(s)[c] == name;
      assert s.columns[c].name in names;
    }
    SubsetOfSameSize(known, given);
    forall name | name in names ensures name in Names(s) {
      assert name in given;
    }
  }

  lemma {:induction false} CountNames(names: seq<string>)
    requires forall i, j :: 0 <= i < j < |names| ==> names[i] != names[j]
    ensures |set name | name in names| == |names|
  {
    if names != [] {
      var front, last := names[..|names| - 1], names[|names| - 1];
      CountNames(front);
      assert (set name | name in names) == (set name | name in front) + {last};
    }
  }

  lemma {:induction false} SetOfSeqIsSmall(names: seq<string>)
    ensures |set name | name in names| <= |names|
  {
    if names != [] {
      var front, last := names[..|names| - 1], names[|names| - 1];
      SetOfSeqIsSmall(front);
      assert (set name | name in names) == (set name | name in front) + {last};
    }
  }

  lemma SubsetOfSameSize(a: set<string>, b: set<string>)
    requires a <= b && |b| <= |a|
    ensures a == b
  {
    assert |b| == |a| + |b - a| by { assert b == a + (b - a); }
    assert b - a == {};
  }

  lemma RowMapValues(s: Schema, names: seq<string>, row: seq<Value>)
    requires SchemaOk(s) && NamesOk(s, names) && |row| == |names|
    ensures AllPresent(s, RowMap(names, row)) && AllKnown(s, RowMap(names, row))
    ensures RowValues(s, RowMap(names, row)) == MapRow(s, names, row)
  {
    NamesAreExact(s, names);
  }

  /**
   A batch does what inserting its rows one by one does, exactly when the batch is
   rejected or all its values have the types of their columns: `insert` checks the
   types, `insert_batch` does not.
   */
  lemma {:induction false} BatchIsOneByOne(t: Table, names: seq<string>, rows: seq<seq<Value>>)
    requires TableOk(t) && NamesOk(t.schema, names) && LengthsOk(names, rows)
    ensures InsertEach(t, names, rows) ==
            if BatchAccepts(t, names, rows) && TypesOk(t.schema, names, rows)
            then Some(AppendAll(t, names, rows))
            else None
  {
    if rows != [] {
      var front, last := rows[..|rows| - 1], rows[|rows| - 1];
      assert rows == front + [last];
      BatchIsOneByOne(t, names, front);
      BatchSplits(t, names, front, [last]);
      TypesSplit(t.schema, names, front, last);
      if BatchAccepts(t, names, front) {
        AppendAllKeys(t, names, front);
        LastRow(AppendAll(t, names, front), names, last);
      }
    }
  }

  /** One column, and a value of another type: the batch is appended, the single row is rejected. */
  lemma IllTypedBatch(t: Table, name: string, dt: DataType, v: Value)
    requires TableOk(t) && t.schema.columns == [ColumnDef(name, dt)] && t.schema.primaryKey == [name]
    requires !Fits(v, dt) && [v] !in t.pkIndex
    ensures BatchAccepts(t, [name], [[v]]) && AppendAll(t, [name], [[v]]).data.columns == [t.data.columns[0] + [v]]
    ensures InsertEach(t, [name], [[v]]) == None
  {
    var s, names := t.schema, [name];
    assert s.columns[0].name in names && Names(s) == names;
    assert [[v]][..0] == [] && MapRow(s, names, [v]) == [v] && s.primaryKey[1..] == [];
    assert KeyFrom(s, [], [v]) == [] && KeyOf(s, [v]) == [v];
    assert RowMap(names, [v])[name] == v && !WellTyped(s, RowMap(names, [v]));
  }

  lemma LastRow(t: Table, names: seq<string>, row: seq<Value>)
    requires TableOk(t) && NamesOk(t.schema, names) && |row| == |names|
    ensures Accepts(t, RowMap(names, row)) <==> WellTyped(t.schema, RowMap(names, row)) && BatchAccepts(t, names, [row])
    ensures AllPresent(t.schema, RowMap(names, row))
    ensures AppendRow(t, RowValues(t.schema, RowMap(names, row))) == AppendAll(t, names, [row])
  {
    RowMapValues(t.schema, names, row);
    assert [row][..0] == [] && [row][0] == row;
    assert BatchAccepts(t, names, [row]) <==> BatchKey(t.schema, names, [row][0]) !in t.pkIndex;
  }

  lemma TypesSplit(s: Schema, names: seq<string>, front: seq<seq<Value>>, last: seq<Value>)
    requires LengthsOk(names, front) && |last| == |names|
    ensures LengthsOk(names, front + [last])
    ensures TypesOk(s, names, front + [last]) <==> TypesOk(s, names, front) && WellTyped(s, RowMap(names, last))
  {
    var rows := front + [last];
    assert rows[|front|] == last;
    assert forall i :: 0 <= i < |front| ==> rows[i] == front[i];
  }

  // ------------------------------------------------------------------ finding rows

  /** `find_by_pk`: an index lookup for single-column keys, otherwise the first row with the value. */
  function FindByPk(t: Table, column: string, v: Value): Option<nat> {
    if column !in t.schema.primaryKey then None
    else if |t.schema.primaryKey| == 1 then
      if [v] in t.pkIndex then Some(t.pkIndex[[v]]) else None
    else match Position(Names(t.schema), column)
      case None => None
      case Some(c) => if c < |t.data.columns| then FirstRow(t.data.columns[c], v, t.data.rowCount, 0) else None
  }

  function FirstRow(column: seq<Value>, v: Value, rows: nat, from: nat): (r: Option<nat>)
    ensures r.Some? ==> from <= r.value < rows && r.value < |column| && column[r.value] == v
    ensures r.None? ==> forall i :: from <= i < rows && i < |column| ==> column[i] != v
    decreases rows - from
  {
    if from >= rows then None
    else if from < |column| && column[from] == v then Some(from)
    else FirstRow(column, v, rows, from + 1)
  }

  /** With a one-column key the lookup finds the only row whose key column holds the value, if there is one. */
  lemma FindByPkIsUnique(t: Table, column: string, v: Value, i: nat)
    requires TableOk(t) && t.schema.primaryKey == [column] && i < t.data.rowCount
    ensures column in Names(t.schema)
    ensures FindByPk(t, column, v) == Some(i)
       <==> t.data.columns[Position(Names(t.schema), column).value][i] == v
  {
    assert t.schema.primaryKey[0] in Names(t.schema);
    var c := Position(Names(t.schema), column).value;
    forall j: nat | j < t.data.rowCount ensures KeyOf(t.schema, RowAt(t.schema, t.data, j)) == [t.data.columns[c][j]] {
      assert KeyFrom(t.schema, [column][1..], RowAt(t.schema, t.data, j)) == [];
    }
    if [v] in t.pkIndex {
      var j := t.pkIndex[[v]];
      assert KeyOf(t.schema, RowAt(t.schema, t.data, j)) == [v];
    }
    assert KeyOf(t.schema, RowAt(t.schema, t.data, i)) in t.pkIndex;
  }

  // ------------------------------------------------------------------ the table in memory

  lemma KeyPresent(s: Schema, pk: seq<string>, row: Row)
    requires AllPresent(s, row) && forall k :: 0 <= k < |pk| ==> pk[k] in Names(s)
    ensures forall k :: 0 <= k < |pk| ==> pk[k] in row
  {
    forall k | 0 <= k < |pk| ensures pk[k] in row {
      var c :| 0 <= c < |s.columns| && Names(s)[c] == pk[k];
      assert s.columns[c].name in row;
    }
  }

  /** The key of a row by column name, as `insert` collects it. */
  lemma {:induction false} KeyByName(s: Schema, pk: seq<string>, row: Row)
    requires AllPresent(s, row) && forall k :: 0 <= k < |pk| ==> pk[k] in Names(s) && pk[k] in row
    ensures KeyFrom(s, pk, RowValues(s, row)) == seq(|pk|, k requires 0 <= k < |pk| => row[pk[k]])
  {
    if pk != [] {
      KeyByName(s, pk[1..], row);
      var rest := seq(|pk| - 1, k requires 0 <= k < |pk| - 1 => row[pk[1..][k]]);
      assert seq(|pk|, k requires 0 <= k < |pk| => row[pk[k]]) == [row[pk[0]]] + rest;
      var c := Position(Names(s), pk[0]).value;
      assert s.columns[c].name == pk[0];
    }
  }

  // ------------------------------------------------------------------ the same, cell by cell

  lemma CellAt(t: Table, row: nat, c: nat, v: Value)
    requires TableOk(t) && row < t.data.rowCount && c < |t.schema.columns|
    ensures HasCell(t, row, t.schema.columns[c].name, v) <==> t.data.columns[c][row] == v
  {
    if t.data.columns[c][row] == v {
      forall b | 0 <= b < c ensures t.schema.columns[b].name != t.schema.columns[c].name {}
    }
  }

  lemma NoRowThere(t: Table, row: nat, column: string, v: Value)
    requires TableOk(t) && row >= t.data.rowCount
    ensures !HasCell(t, row, column, v)
  {}

  lemma ColumnOf(s: Schema, column: string)
    requires SchemaOk(s) && column in Names(s)
    ensures var c := Position(Names(s), column).value; c < |s.columns| && s.columns[c].name == column
  {}

  /** The lookup finds the first row whose key column holds the value; a column outside the key finds nothing. */
  lemma FindsFirst(t: Table, column: string, v: Value, i: nat)
    requires TableOk(t)
    ensures FindByPk(t, column, v) == Some(i)
       <==> && column in t.schema.primaryKey && HasCell(t, i, column, v)
            && forall j: nat :: j < i ==> !HasCell(t, j, column, v)
  {
    if column in t.schema.primaryKey {
      ColumnOf(t.schema, column);
      var c := Position(Names(t.schema), column).value;
      forall j: nat
        ensures HasCell(t, j, column, v) <==> j < t.data.rowCount && t.data.columns[c][j] == v
      {
        if j < t.data.rowCount { CellAt(t, j, c, v); } else { NoRowThere(t, j, column, v); }
      }
      if |t.schema.primaryKey| == 1 {
        OnlyKeyColumn(t, column, v, i);
      } else {
        FirstRowIsFirst(t.data.columns[c], v, t.data.rowCount, 0, i);
      }
    }
  }

  lemma OnlyKeyColumn(t: Table, column: string, v: Value, i: nat)
    requires TableOk(t) && column in t.schema.primaryKey && |t.schema.primaryKey| == 1
    ensures column in Names(t.schema)
    ensures var cells := t.data.columns[Position(Names(t.schema), column).value];
            FindByPk(t, column, v) == Some(i) <==>
              i < t.data.rowCount && cells[i] == v && forall j: nat :: j < i ==> cells[j] != v
  {
    assert t.schema.primaryKey == [column];
    assert t.schema.primaryKey[0] in Names(t.schema);
    forall j: nat | j < t.data.rowCount
      ensures FindByPk(t, column, v) == Some(j)
         <==> t.data.columns[Position(Names(t.schema), column).value][j] == v
    {
      FindByPkIsUnique(t, column, v, j);
    }
  }

  lemma {:induction false} FirstRowIsFirst(column: seq<Value>, v: Value, rows: nat, from: nat, i: nat)
    ensures FirstRow(column, v, rows, from) == Some(i)
       <==> from <= i < rows && i < |column| && column[i] == v && forall j: nat :: from <= j < i ==> column[j] != v
    decreases rows - from
  {
    if from < rows && !(from < |column| && column[from] == v) { FirstRowIsFirst(column, v, rows, from + 1, i); }
  }

  /** The values of a key, one by one. */
  lemma {:induction false} KeyCells(s: Schema, pk: seq<string>, row: seq<Value>)
    requires |row| == |s.columns| && forall k :: 0 <= k < |pk| ==> pk[k] in Names(s)
    ensures |KeyFrom(s, pk, row)| == |pk|
    ensures forall k :: 0 <= k < |pk| ==> KeyFrom(s, pk, row)[k] == row[Position(Names(s), pk[k]).value]
  {
    if pk != [] { KeyCells(s, pk[1..], row); }
  }

  /** Row i has the key of the new row. */
  ghost predicate SameKey(t: Table, i: nat, row: Row)
    requires forall k :: 0 <= k < |t.schema.primaryKey| ==> t.schema.primaryKey[k] in row
  {
    forall k :: 0 <= k < |t.schema.primaryKey| ==>
      HasCell(t, i, t.schema.primaryKey[k], row[t.schema.primaryKey[k]])
  }

  lemma SameKeyMeans(t: Table, i: nat, row: Row)
    requires TableOk(t) && AllPresent(t.schema, row) && i < t.data.rowCount
    requires forall k :: 0 <= k < |t.schema.primaryKey| ==> t.schema.primaryKey[k] in row
    ensures SameKey(t, i, row)
       <==> KeyOf(t.schema, RowAt(t.schema, t.data, i)) == KeyOf(t.schema, RowValues(t.schema, row))
  {
    var s, pk := t.schema, t.schema.primaryKey;
    var a, b := RowAt(s, t.data, i), RowValues(s, row);
    KeyCells(s, pk, a);
    KeyCells(s, pk, b);
    forall k | 0 <= k < |pk|
      ensures HasCell(t, i, pk[k], row[pk[k]]) <==> KeyFrom(s, pk, a)[k] == KeyFrom(s, pk, b)[k]
    {
      ColumnOf(s, pk[k]);
      CellAt(t, i, Position(Names(s), pk[k]).value, row[pk[k]]);
    }
  }

  /** Some row has the key already. */
  ghost predicate KeyTaken(t: Table, row: Row)
    requires forall k :: 0 <= k < |t.schema.primaryKey| ==> t.schema.primaryKey[k] in row
  {
    exists i: nat :: i < t.data.rowCount && SameKey(t, i, row)
  }

  lemma KeyTakenMeans(t: Table, row: Row)
    requires TableOk(t) && AllPresent(t.schema, row)
    requires forall k :: 0 <= k < |t.schema.primaryKey| ==> t.schema.primaryKey[k] in row
    ensures KeyTaken(t, row) <==> KeyOf(t.schema, RowValues(t.schema, row)) in t.pkIndex
  {
    forall i: nat | i < t.data.rowCount
      ensures SameKey(t, i, row)
         <==> KeyOf(t.schema, RowAt(t.schema, t.data, i)) == KeyOf(t.schema, RowValues(t.schema, row))
    {
      SameKeyMeans(t, i, row);
    }
    var key := KeyOf(t.schema, RowValues(t.schema, row));
    if key in t.pkIndex { assert SameKey(t, t.pkIndex[key], row); }
  }

  /** Null, or a value of the column's type. */
  ghost predicate Suits(s: Schema, column: string, v: Value) {
    exists c ::
      0 <= c < |s.columns| && s.columns[c].name == column && (v == Null || TypeOf(v) == Some(s.columns[c].dataType))
  }

  /** Every column is given, everything given suits its column, and no row has the key. */
  ghost predicate Insertable(t: Table, row: Row) {
    && (forall c :: 0 <= c < |t.schema.columns| ==> t.schema.columns[c].name in row)
    && (forall column :: column in row ==> Suits(t.schema, column, row[column]))
    && (forall k :: 0 <= k < |t.schema.primaryKey| ==> t.schema.primaryKey[k] in row)
    && !KeyTaken(t, row)
  }

  /** Each column has one cell more, the row's value under the column's name; nothing else changes but the index. */
  ghost predicate HasNewRow(t: Table, t': Table, row: Row) {
    && t'.schema == t.schema && t'.data.rowCount == t.data.rowCount + 1
    && |t'.data.columns| == |t.data.columns| == |t.schema.columns|
    && forall c :: 0 <= c < |t.schema.columns| ==>
         t.schema.columns[c].name in row && t'.data.columns[c] == t.data.columns[c] + [row[t.schema.columns[c].name]]
  }

  /** What an insertion does, by cells: it is accepted exactly then, and adds exactly this row. */
  lemma InsertionMeans(t: Table, row: Row)
    requires TableOk(t)
    ensures Accepts(t, row) <==> Insertable(t, row)
    ensures Accepts(t, row) ==> HasNewRow(t, Inserted(t, row), row)
    ensures !Accepts(t, row) ==> Inserted(t, row) == t
  {
    SuitedMeans(t.schema, row);
    if AllPresent(t.schema, row) {
      KeyPresent(t.schema, t.schema.primaryKey, row);
      KeyTakenMeans(t, row);
    }
  }

  lemma SuitedMeans(s: Schema, row: Row)
    requires SchemaOk(s)
    ensures (forall column :: column in row ==> Suits(s, column, row[column]))
       <==> AllKnown(s, row) && WellTyped(s, row)
  {
    forall column | column in row
      ensures Suits(s, column, row[column])
         <==> column in Names(s) && Fits(row[column], s.columns[Position(Names(s), column).value].dataType)
    {
      SuitsMeans(s, column, row[column]);
    }
  }

  lemma SuitsMeans(s: Schema, column: string, v: Value)
    requires SchemaOk(s)
    ensures Suits(s, column, v)
       <==> column in Names(s) && Fits(v, s.columns[Position(Names(s), column).value].dataType)
  {
    assert forall c :: 0 <= c < |s.columns| ==> Names(s)[c] == s.columns[c].name;
    if column in Names(s) { ColumnOf(s, column); }
  }

  /** The column has as many cells more as there are rows, each the row's value under the column's name. */
  ghost predicate HasBatch(column: seq<Value>, column': seq<Value>, name: string, names: seq<string>,
                           rows: seq<seq<Value>>)
    requires LengthsOk(names, rows)
  {
    && |column'| == |column| + |rows| && column <= column'
    && forall i, j :: 0 <= i < |rows| && 0 <= j < |names| && names[j] == name ==> column'[|column| + i] == rows[i][j]
  }

  ghost predicate HasNewRows(t: Table, t': Table, names: seq<string>, rows: seq<seq<Value>>)
    requires LengthsOk(names, rows)
  {
    && t'.schema == t.schema && t'.data.rowCount == t.data.rowCount + |rows|
    && |t'.data.columns| == |t.data.columns| == |t.schema.columns|
    && forall c :: 0 <= c < |t.schema.columns| ==>
         HasBatch(t.data.columns[c], t'.data.columns[c], t.schema.columns[c].name, names, rows)
  }

  lemma BatchSnoc(column: seq<Value>, column': seq<Value>, name: string, names: seq<string>, rows: seq<seq<Value>>,
                  row: seq<Value>, v: Value)
    requires LengthsOk(names, rows) && |row| == |names| && HasBatch(column, column', name, names, rows)
    requires forall j :: 0 <= j < |names| && names[j] == name ==> v == row[j]
    ensures LengthsOk(names, rows + [row]) && HasBatch(column, column' + [v], name, names, rows + [row])
  {}

  /** A batch that is accepted adds its rows in order, each value under the name it was given. */
  lemma {:induction false} BatchMeans(t: Table, names: seq<string>, rows: seq<seq<Value>>)
    requires TableOk(t) && BatchAccepts(t, names, rows)
    ensures LengthsOk(names, rows) && HasNewRows(t, AppendAll(t, names, rows), names, rows)
  {
    if rows != [] {
      var front, row := rows[..|rows| - 1], rows[|rows| - 1];
      BatchMeans(t, names, front);
      assert front + [row] == rows;
      NamesDiffer(t.schema, names);
      var t1 := AppendAll(t, names, front);
      forall c | 0 <= c < |t.schema.columns|
        ensures HasBatch(t.data.columns[c], AppendAll(t, names, rows).data.columns[c], t.schema.columns[c].name, names,
                         rows)
      {
        BatchSnoc(t.data.columns[c], t1.data.columns[c], t.schema.columns[c].name, names, front, row,
                  MapRow(t.schema, names, row)[c]);
      }
    }
  }

  /** As many names as columns and none missing: no name twice. */
  lemma NamesDiffer(s: Schema, names: seq<string>)
    requires SchemaOk(s) && NamesOk(s, names)
    ensures NoDup(names)
  {
    var known := set name | name in Names(s);
    CountNames(Names(s));
    if i, j :| 0 <= i < j < |names| && names[i] == names[j] {
      var fewer := names[..j] + names[j + 1..];
      SetOfSeqIsSmall(fewer);
      forall name | name in known ensures name in (set n | n in fewer) {
        var c :| 0 <= c < |s.columns| && Names(s)[c] == name;
        var k :| 0 <= k < |names| && names[k] == s.columns[c].name;
        assert name == if k < j then fewer[k] else if k > j then fewer[k - 1] else fewer[i];
      }
      SmallerSet(known, set n | n in fewer);
      assert false;
    }
  }

  lemma SmallerSet(a: set<string>, b: set<string>)
    requires a <= b
    ensures |a| <= |b|
  {
    assert b == a + (b - a);
  }

  class NodeTable {
    const schema: Schema
    var columns: seq<seq<Value>>
    var rowCount: nat
    var pkIndex: map<seq<Value>, nat>

    function Contents(): Table
      reads this
    {
      Table(schema, TableData(columns, rowCount), pkIndex)
    }

    ghost predicate Valid()
      reads this
    {
      TableOk(Contents())
    }

    constructor (schema: Schema)
      requires SchemaOk(schema)
      ensures Valid() && Contents() == EmptyTable(schema)
    {
      this.schema := schema;
      columns := seq(|schema.columns|, i => []);
      rowCount := 0;
      pkIndex := map[];
    }

    /** The table a hash map owns, taken out to be updated in place. */
    constructor Of(t: Table)
      requires TableOk(t)
      ensures Valid() && Contents() == t
    {
      schema := t.schema;
      columns := t.data.columns;
      rowCount := t.data.rowCount;
      pkIndex := t.pkIndex;
    }

    /** Rebuilds the index row by row. */
    constructor FromSaved(schema: Schema, d: TableData)
      ensures Contents() == FromData(schema, d)
    {
      var index := map[];
      for i := 0 to d.rowCount
        invariant index == BuildIndex(schema, d, i)
      {
        index := index[SavedKey(schema, d, schema.primaryKey, i) := i];
      }
      this.schema := schema;
      columns := d.columns;
      rowCount := d.rowCount;
      pkIndex := index;
    }

    /** Whether `insert` finds every column, and every name and type in order. */
    method Validate(row: Row) returns (r: Result<()>)
      ensures r.Ok? <==> AllPresent(schema, row) && AllKnown(schema, row) && WellTyped(schema, row)
      ensures !AllPresent(schema, row) ==> r == Err(SchemaError)
      ensures r.Err? ==> r.error == SchemaError || r.error == TypeError
      ensures r == Err(TypeError) ==> !WellTyped(schema, row)
    {
      for i := 0 to |schema.columns|
        invariant forall k :: 0 <= k < i ==> schema.columns[k].name in row
      {
        if schema.columns[i].name !in row {
          return Err(SchemaError);
        }
      }
      var pending := row.Keys;
      while pending != {}
        invariant pending <= row.Keys
        invariant forall name :: name in row && name !in pending ==>
                    name in Names(schema)
                      && Fits(row[name], schema.columns[Position(Names(schema), name).value].dataType)
        decreases |pending|
      {
        var name :| name in pending;
        var position := Position(Names(schema), name);
        if position.None? {
          return Err(SchemaError);
        }
        if row[name] != Null && TypeOf(row[name]) != Some(schema.columns[position.value].dataType) {
          return Err(TypeError);
        }
        pending := pending - {name};
      }
      r := Ok(());
    }

    method Insert(row: Row) returns (r: Result<()>)
      requires Valid()
      modifies this
      ensures Valid() && Contents() == Inserted(old(Contents()), row)
      ensures r.Ok? <==> Accepts(old(Contents()), row)
      ensures r.Ok? <==> Insertable(old(Contents()), row)
      ensures if r.Ok? then HasNewRow(old(Contents()), Contents(), row) else Contents() == old(Contents())
      ensures r.Err? && AllPresent(schema, row) && AllKnown(schema, row) && WellTyped(schema, row)
          ==> r == Err(ConstraintViolation)
    {
      InsertionMeans(Contents(), row);
      InsertKeepsTableOk(Contents(), row);
      r := CheckAndPush(row);
    }

    method CheckAndPush(row: Row) returns (r: Result<()>)
      requires Valid()
      modifies this
      ensures Contents() == Inserted(old(Contents()), row)
      ensures r.Ok? <==> Accepts(old(Contents()), row)
      ensures r.Err? && AllPresent(schema, row) && AllKnown(schema, row) && WellTyped(schema, row)
          ==> r == Err(ConstraintViolation)
    {
      r := Validate(row);
      if r.Err? {
        return;
      }
      KeyPresent(schema, schema.primaryKey, row);
      KeyByName(schema, schema.primaryKey, row);
      var key := seq(|schema.primaryKey|, k requires 0 <= k < |schema.primaryKey| => row[schema.primaryKey[k]]);
      assert key == KeyOf(schema, RowValues(schema, row));
      if key in pkIndex {
        return Err(ConstraintViolation);
      }
      PushRow(RowValues(schema, row), key);
    }

    /** Pushes one value onto every column and indexes the new row. */
    method PushRow(row: seq<Value>, key: seq<Value>)
      requires Valid() && |row| == |schema.columns| && key == KeyOf(schema, row)
      modifies this
      ensures Contents() == AppendRow(old(Contents()), row)
    {
      for i := 0 to |columns|
        invariant rowCount == old(rowCount) && pkIndex == old(pkIndex) && |columns| == |old(columns)|
        invariant forall c :: 0 <= c < i ==> columns[c] == old(columns)[c] + [row[c]]
        invariant forall c :: i <= c < |columns| ==> columns[c] == old(columns)[c]
      {
        columns := columns[i := columns[i] + [row[i]]];
      }
      pkIndex := pkIndex[key := rowCount];
      rowCount := rowCount + 1;
      assert columns == AppendData(old(Contents()).data, row).columns;
    }

    /** All rows or none: everything is checked before the first row goes in. */
    method InsertBatch(rows: seq<seq<Value>>, names: seq<string>) returns (r: Result<nat>)
      requires Valid()
      modifies this
      ensures Valid()
      ensures r.Ok? <==> BatchAccepts(old(Contents()), names, rows)
      ensures r.Ok? ==> r.value == |rows| && Contents() == AppendAll(old(Contents()), names, rows)
      ensures r.Ok? ==> LengthsOk(names, rows) && HasNewRows(old(Contents()), Contents(), names, rows)
      ensures r.Err? ==> unchanged(this)
    {
      if BatchAccepts(Contents(), names, rows) { BatchMeans(Contents(), names, rows); }
      if rows == [] {
        return Ok(0);
      }
      if |names| != |schema.columns| {
        return Err(SchemaError);
      }
      for c := 0 to |schema.columns|
        invariant forall k :: 0 <= k < c ==> schema.columns[k].name in names
      {
        if schema.columns[c].name !in names {
          return Err(SchemaError);
        }
      }
      var checked := CheckBatch(rows, names);
      if checked.Err? {
        return Err(checked.error);
      }
      PushAll(rows, names);
      r := Ok(|rows|);
    }

    method PushAll(rows: seq<seq<Value>>, names: seq<string>)
      requires Valid() && NamesOk(schema, names) && LengthsOk(names, rows) && FreshKeys(Contents(), names, rows)
      modifies this
      ensures Valid() && Contents() == AppendAll(old(Contents()), names, rows)
    {
      for i := 0 to |rows|
        invariant Valid() && Contents() == AppendAll(old(Contents()), names, rows[..i])
      {
        var row := MapRow(schema, names, rows[i]);
        assert rows[..i + 1][..i] == rows[..i];
        PrefixAccepted(old(Contents()), names, rows, i + 1);
        AppendAllKeys(old(Contents()), names, rows[..i + 1]);
        PushRow(row, KeyOf(schema, row));
      }
      assert rows[..|rows|] == rows;
    }

    method CheckBatch(rows: seq<seq<Value>>, names: seq<string>) returns (r: Result<()>)
      requires NamesOk(schema, names)
      ensures r.Ok? <==> LengthsOk(names, rows) && FreshKeys(Contents(), names, rows)
    {
      var batchKeys := {};
      for i := 0 to |rows|
        invariant LengthsOk(names, rows[..i]) && FreshKeys(Contents(), names, rows[..i])
        invariant batchKeys == set k | 0 <= k < i :: BatchKey(schema, names, rows[..i][k])
      {
        if |rows[i]| != |names| {
          return Err(SchemaError);
        }
        var key := BatchKey(schema, names, rows[i]);
        if key in batchKeys {
          ghost var k :| 0 <= k < i && BatchKey(schema, names, rows[..i][k]) == key;
          assert rows[..i][k] == rows[k];
          return Err(ConstraintViolation);
        }
        if key in pkIndex {
          return Err(ConstraintViolation);
        }
        NextKeyFresh(Contents(), names, rows, i);
        assert forall k :: 0 <= k < i ==> rows[..i + 1][k] == rows[..i][k];
        assert rows[..i + 1][i] == rows[i];
        batchKeys := batchKeys + {key};
      }
      assert rows[..|rows|] == rows;
      r := Ok(());
    }
  }

  lemma NextKeyFresh(t: Table, names: seq<string>, rows: seq<seq<Value>>, i: nat)
    requires NamesOk(t.schema, names) && i < |rows| && LengthsOk(names, rows[..i]) && |rows[i]| == |names|
    requires FreshKeys(t, names, rows[..i]) && BatchKey(t.schema, names, rows[i]) !in t.pkIndex
    requires forall k :: 0 <= k < i ==> BatchKey(t.schema, names, rows[..i][k]) != BatchKey(t.schema, names, rows[i])
    ensures LengthsOk(names, rows[..i + 1]) && FreshKeys(t, names, rows[..i + 1])
  {
    assert forall k :: 0 <= k < i ==> rows[..i + 1][k] == rows[..i][k];
    assert rows[..i + 1][i] == rows[i];
  }

  lemma PrefixAccepted(t: Table, names: seq<string>, rows: seq<seq<Value>>, n: nat)
    requires BatchAccepts(t, names, rows) && n <= |rows|
    ensures BatchAccepts(t, names, rows[..n])
  {
    assert forall i :: 0 <= i < n ==> rows[..n][i] == rows[i];
  }
}
