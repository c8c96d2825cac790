/**
 Transaction ids start again after every restart, so a commit can bring back what an
 earlier transaction of the same id left in the log without a commit. This module says
 exactly when that, or a row logged under other names than the schema's, spoils recovery.
 */
module LostTransactions {
  import opened Wrappers
  import opened Values
  import opened NodeTable
  import opened CsrGroups
  import opened Wal
  import opened Recovery

  // ------------------------------------------------------------------ rows into one table

  function InsertedAll(t: Table, rows: seq<Row>): (t': Table)
    requires |t.data.columns| == |t.schema.columns|
    ensures t'.schema == t.schema && |t'.data.columns| == |t.data.columns|
    decreases |rows|
  {
    if rows == [] then t else InsertedAll(Inserted(t, rows[0]), rows[1..])
  }

  lemma {:induction false} InsertedAllConcat(t: Table, a: seq<Row>, b: seq<Row>)
    requires |t.data.columns| == |t.schema.columns|
    ensures InsertedAll(t, a + b) == InsertedAll(InsertedAll(t, a), b)
    decreases |a|
  {
    if a == [] {
      assert a + b == b;
    } else {
      assert (a + b)[1..] == a[1..] + b;
      InsertedAllConcat(Inserted(t, a[0]), a[1..], b);
    }
  }

  /** The table `t'` holds the rows of `t` first, and all its keys. */
  ghost predicate Extends(t: Table, t': Table) {
    && t'.schema == t.schema && |t'.data.columns| == |t.data.columns|
    && (forall c :: 0 <= c < |t.data.columns| ==> t.data.columns[c] <= t'.data.columns[c])
    && t.pkIndex.Keys <= t'.pkIndex.Keys
  }

  lemma {:induction false} InsertedAllExtends(t: Table, rows: seq<Row>)
    requires TableOk(t)
    ensures TableOk(InsertedAll(t, rows)) && Extends(t, InsertedAll(t, rows))
    decreases |rows|
  {
    if rows != [] {
      InsertKeepsTableOk(t, rows[0]);
      assert Extends(t, Inserted(t, rows[0]));
      InsertedAllExtends(Inserted(t, rows[0]), rows[1..]);
    }
  }

  lemma RejectedEverAfter(t: Table, t': Table, row: Row)
    requires Extends(t, t') && Accepts(t', row)
    ensures Accepts(t, row)
  {}

  /** Each row is accepted after those before it. */
  predicate AllAccepted(t: Table, rows: seq<Row>)
    requires |t.data.columns| == |t.schema.columns|
    decreases |rows|
  {
    rows == [] || (Accepts(t, rows[0]) && AllAccepted(Inserted(t, rows[0]), rows[1..]))
  }

  lemma {:induction false} AcceptedOneMore(t: Table, rows: seq<Row>, row: Row)
    requires |t.data.columns| == |t.schema.columns| && AllAccepted(t, rows) && Accepts(InsertedAll(t, rows), row)
    ensures AllAccepted(t, rows + [row]) && InsertedAll(t, rows + [row]) == Inserted(InsertedAll(t, rows), row)
    decreases |rows|
  {
    if rows == [] {
      assert rows + [row] == [row] && [row][1..] == [];
    } else {
      assert (rows + [row])[1..] == rows[1..] + [row] && (rows + [row])[0] == rows[0];
      AcceptedOneMore(Inserted(t, rows[0]), rows[1..], row);
      assert AllAccepted(Inserted(t, rows[0]), (rows + [row])[1..]);
    }
  }

  lemma {:induction false} AcceptedCount(t: Table, rows: seq<Row>)
    requires |t.data.columns| == |t.schema.columns| && AllAccepted(t, rows)
    ensures InsertedAll(t, rows).data.rowCount == t.data.rowCount + |rows|
    decreases |rows|
  {
    if rows != [] { AcceptedCount(Inserted(t, rows[0]), rows[1..]); }
  }

  lemma SameRow(s: Schema, a: Row, b: Row)
    requires AllPresent(s, a) && AllKnown(s, a) && AllPresent(s, b) && AllKnown(s, b)
    requires forall i :: 0 <= i < |s.columns| ==> a[s.columns[i].name] == b[s.columns[i].name]
    ensures a == b
  {
    forall name | name in a || name in b ensures name in a && name in b && a[name] == b[name] {
      var i :| 0 <= i < |s.columns| && Names(s)[i] == name;
      assert s.columns[i].name == name;
    }
  }

  lemma DifferentValues(s: Schema, a: Row, b: Row) returns (c: nat)
    requires AllPresent(s, a) && AllKnown(s, a) && AllPresent(s, b) && AllKnown(s, b) && a != b
    ensures c < |s.columns| && RowValues(s, a)[c] != RowValues(s, b)[c]
  {
    if forall i :: 0 <= i < |s.columns| ==> a[s.columns[i].name] == b[s.columns[i].name] {
      SameRow(s, a, b);
    }
    c :| 0 <= c < |s.columns| && a[s.columns[c].name] != b[s.columns[c].name];
  }

  /** Two different rows at the same place keep two tables apart for good. */
  lemma ApartForGood(t: Table, a: Row, b: Row, u: Table, v: Table)
    requires TableOk(t) && Accepts(t, a) && Accepts(t, b) && a != b
    requires Extends(Inserted(t, a), u) && Extends(Inserted(t, b), v)
    ensures u != v
  {
    var c := DifferentValues(t.schema, a, b);
    assert Inserted(t, a).data.columns[c][t.data.rowCount] == RowValues(t.schema, a)[c];
    assert Inserted(t, b).data.columns[c][t.data.rowCount] == RowValues(t.schema, b)[c];
  }

  // ------------------------------------------------------------------ two tables side by side

  /** A logged row of a table; a lost one belongs to no committed transaction. */
  datatype Item = Item(row: Row, lost: bool)

  function RowsOf(items: seq<Item>, withLost: bool): seq<Row>
    decreases |items|
  {
    if items == [] then []
    else (if withLost || !items[0].lost then [items[0].row] else []) + RowsOf(items[1..], withLost)
  }

  lemma {:induction false} RowsOfConcat(a: seq<Item>, b: seq<Item>, withLost: bool)
    ensures RowsOf(a + b, withLost) == RowsOf(a, withLost) + RowsOf(b, withLost)
    decreases |a|
  {
    if a == [] {
      assert a + b == b;
    } else {
      assert (a + b)[1..] == a[1..] + b && (a + b)[0] == a[0];
      RowsOfConcat(a[1..], b, withLost);
      var first := if withLost || !a[0].lost then [a[0].row] else [];
      Assoc(first, RowsOf(a[1..], withLost), RowsOf(b, withLost));
    }
  }

  /**
   Reads the items in order next to a table `t` without the lost rows. `pending` are the
   lost rows that a table with them accepted and that `t` has not received since: the next
   row that `t` accepts must be the oldest of them. The rows left over at the end, or None
   at the first mismatch.
   */
  function Unmatched(t: Table, pending: seq<Row>, items: seq<Item>): Option<seq<Row>>
    requires |t.data.columns| == |t.schema.columns|
    decreases |items|
  {
    if items == [] then Some(pending)
    else
      var row, rest := items[0].row, items[1..];
      if items[0].lost then
        Unmatched(t, if Accepts(InsertedAll(t, pending), row) then pending + [row] else pending, rest)
      else if !Accepts(t, row) then Unmatched(t, pending, rest)
      else if pending == [] then Unmatched(Inserted(t, row), [], rest)
      else if pending[0] == row then Unmatched(Inserted(t, row), pending[1..], rest)
      else None
  }

  /** The lost rows change nothing exactly if each is rejected, or inserted again as the very next row. */
  lemma {:induction false} LostRowsMatch(t: Table, pending: seq<Row>, items: seq<Item>)
    requires TableOk(t) && AllAccepted(t, pending)
    ensures InsertedAll(t, RowsOf(items, false)) == InsertedAll(InsertedAll(t, pending), RowsOf(items, true))
       <==> Unmatched(t, pending, items) == Some([])
    decreases |items|
  {
    var u := InsertedAll(t, pending);
    InsertedAllExtends(t, pending);
    if items == [] {
      AcceptedCount(t, pending);
    } else {
      var row, rest := items[0].row, items[1..];
      InsertKeepsTableOk(t, row);
      FirstRow(t, items, false);
      FirstRow(u, items, true);
      if items[0].lost {
        if Accepts(u, row) {
          AcceptedOneMore(t, pending, row);
          LostRowsMatch(t, pending + [row], rest);
        } else {
          LostRowsMatch(t, pending, rest);
        }
      } else if !Accepts(t, row) {
        if Accepts(u, row) { RejectedEverAfter(t, u, row); }
        LostRowsMatch(t, pending, rest);
      } else if pending == [] {
        LostRowsMatch(Inserted(t, row), [], rest);
      } else if pending[0] == row {
        SecondCopy(t, pending);
        LostRowsMatch(Inserted(t, row), pending[1..], rest);
      } else {
        Mismatch(t, pending, row, RowsOf(rest, false), RowsOf(items, true));
      }
    }
  }

  lemma FirstRow(t: Table, items: seq<Item>, withLost: bool)
    requires |t.data.columns| == |t.schema.columns| && items != []
    ensures InsertedAll(t, RowsOf(items, withLost))
         == InsertedAll(if withLost || !items[0].lost then Inserted(t, items[0].row) else t,
                        RowsOf(items[1..], withLost))
  {
    var rest := RowsOf(items[1..], withLost);
    if withLost || !items[0].lost {
      assert ([items[0].row] + rest)[1..] == rest;
    } else {
      assert [] + rest == rest;
    }
  }

  lemma SecondCopy(t: Table, pending: seq<Row>)
    requires TableOk(t) && pending != [] && AllAccepted(t, pending)
    ensures Inserted(InsertedAll(t, pending), pending[0]) == InsertedAll(Inserted(t, pending[0]), pending[1..])
  {
    var t' := Inserted(t, pending[0]);
    InsertKeepsTableOk(t, pending[0]);
    InsertedAllExtends(t', pending[1..]);
    assert !Accepts(t', pending[0]);
    if Accepts(InsertedAll(t, pending), pending[0]) { RejectedEverAfter(t', InsertedAll(t, pending), pending[0]); }
  }

  lemma Mismatch(t: Table, pending: seq<Row>, row: Row, plain: seq<Row>, all: seq<Row>)
    requires TableOk(t) && pending != [] && AllAccepted(t, pending) && Accepts(t, row) && pending[0] != row
    ensures InsertedAll(Inserted(t, row), plain) != InsertedAll(InsertedAll(t, pending), all)
  {
    InsertKeepsTableOk(t, row);
    InsertedAllExtends(Inserted(t, row), plain);
    InsertKeepsTableOk(t, pending[0]);
    InsertedAllExtends(Inserted(t, pending[0]), pending[1..] + all);
    InsertedAllConcat(Inserted(t, pending[0]), pending[1..], all);
    ApartForGood(t, row, pending[0], InsertedAll(Inserted(t, row), plain), InsertedAll(InsertedAll(t, pending), all));
  }

  // ------------------------------------------------------------------ what a log says of one node table

  /** The rows that a record brings to a table. */
  ghost function RowsIn(cat: Catalog, name: string, r: Record): seq<Row>
    requires name in cat.tables
  {
    if r.payload.TableRows? && NameById(cat, r.payload.tableId) == Some(name) then
      seq(|r.payload.rows|, i requires 0 <= i < |r.payload.rows| => RowFromValues(cat.tables[name], r.payload.rows[i]))
    else []
  }

  function AsItems(rows: seq<Row>, lost: bool): (items: seq<Item>)
    ensures |items| == |rows|
  {
    seq(|rows|, i requires 0 <= i < |rows| => Item(rows[i], lost))
  }

  lemma {:induction false} RowsOfAsItems(rows: seq<Row>, lost: bool, withLost: bool)
    ensures RowsOf(AsItems(rows, lost), withLost) == if withLost || !lost then rows else []
    decreases |rows|
  {
    if rows != [] {
      assert AsItems(rows, lost)[1..] == AsItems(rows[1..], lost);
      RowsOfAsItems(rows[1..], lost, withLost);
    }
  }

  /** A record's rows if its transaction is committed, and as lost ones those of transaction `tx` if it is not. */
  ghost function ItemsIn(cat: Catalog, name: string, r: Record, committed: set<nat>, tx: nat): seq<Item>
    requires name in cat.tables
  {
    if r.txId in committed then AsItems(RowsIn(cat, name, r), false)
    else if r.txId == tx then AsItems(RowsIn(cat, name, r), true)
    else []
  }

  ghost function Items(cat: Catalog, name: string, log: seq<Record>, committed: set<nat>, tx: nat): seq<Item>
    requires name in cat.tables
  {
    if log == [] then []
    else Items(cat, name, log[..|log| - 1], committed, tx) + ItemsIn(cat, name, log[|log| - 1], committed, tx)
  }

  lemma RowsOfRecord(cat: Catalog, name: string, r: Record, committed: set<nat>, tx: nat)
    requires name in cat.tables
    ensures RowsOf(ItemsIn(cat, name, r, committed, tx), false)
         == if r.txId in committed then RowsIn(cat, name, r) else []
    ensures RowsOf(ItemsIn(cat, name, r, committed, tx), true)
         == if r.txId in committed + {tx} then RowsIn(cat, name, r) else []
  {
    var rows := RowsIn(cat, name, r);
    RowsOfAsItems(rows, false, false);
    RowsOfAsItems(rows, true, false);
    RowsOfAsItems(rows, false, true);
    RowsOfAsItems(rows, true, true);
  }

  lemma {:induction false} InsertRowsIsInsertedAll(t: Table, values: seq<seq<Value>>, rows: seq<Row>)
    requires |t.data.columns| == |t.schema.columns| && |rows| == |values|
    requires forall i :: 0 <= i < |rows| ==> rows[i] == RowFromValues(t.schema, values[i])
    ensures InsertRows(t, values) == InsertedAll(t, rows)
  {
    if rows != [] {
      var n := |rows| - 1;
      InsertRowsIsInsertedAll(t, values[..n], rows[..n]);
      InsertedAllConcat(t, rows[..n], [rows[n]]);
      assert rows[..n] + [rows[n]] == rows && [rows[n]][1..] == [];
    }
  }

  /** The node table that a record is meant for. */
  ghost predicate FillsTable(cat: Catalog, r: Record, name: string) {
    name in cat.tables && r.payload.TableRows? && NameById(cat, r.payload.tableId) == Some(name)
  }

  lemma ApplyElsewhere(cat: Catalog, ts: Tables, name: string, r: Record)
    requires TablesOk(cat, ts) && name in cat.tables && !FillsTable(cat, r, name)
    ensures Apply(cat, ts, r).nodes[name] == ts.nodes[name]
  {
    if n :| FillsTable(cat, r, n) {
      ApplyRows(cat, ts, r, n);
    } else {
      ApplyToNone(cat, ts, r);
    }
  }

  lemma ApplyToNone(cat: Catalog, ts: Tables, r: Record)
    requires TablesOk(cat, ts) && forall n :: !FillsTable(cat, r, n)
    ensures Apply(cat, ts, r).nodes == ts.nodes
  {
    if r.payload.TableRows? {
      match NameById(cat, r.payload.tableId)
      case None =>
      case Some(n) => assert !FillsTable(cat, r, n) && n !in ts.nodes;
    }
  }

  lemma ApplyInserts(cat: Catalog, ts: Tables, name: string, r: Record)
    requires TablesOk(cat, ts) && name in cat.tables
    ensures Apply(cat, ts, r).nodes[name] == InsertedAll(ts.nodes[name], RowsIn(cat, name, r))
  {
    if FillsTable(cat, r, name) {
      ApplyRows(cat, ts, r, name);
      InsertRowsIsInsertedAll(ts.nodes[name], r.payload.rows, RowsIn(cat, name, r));
    } else {
      ApplyElsewhere(cat, ts, name, r);
    }
  }

  /** The tables after the records of these transactions. */
  ghost function Selected(cat: Catalog, saved: Tables, log: seq<Record>, committed: set<nat>): (ts: Tables)
    requires TablesOk(cat, saved)
    ensures TablesOk(cat, ts)
  {
    FoldOk(cat, saved, Select(log, committed));
    Fold(ApplyFn(cat), saved, Select(log, committed))
  }

  lemma SelectedLast(cat: Catalog, saved: Tables, log: seq<Record>, committed: set<nat>)
    requires TablesOk(cat, saved) && log != []
    ensures var before := Selected(cat, saved, log[..|log| - 1], committed);
            Selected(cat, saved, log, committed)
              == if log[|log| - 1].txId in committed then Apply(cat, before, log[|log| - 1]) else before
  {
    assert log == log[..|log| - 1] + [log[|log| - 1]];
    SelectSnoc(ApplyFn(cat), saved, log[..|log| - 1], log[|log| - 1], committed);
  }

  lemma {:induction false} ItemsReplay(cat: Catalog, saved: Tables, name: string, log: seq<Record>,
                                       committed: set<nat>, tx: nat)
    requires TablesOk(cat, saved) && name in cat.tables
    ensures Selected(cat, saved, log, committed).nodes[name]
         == InsertedAll(saved.nodes[name], RowsOf(Items(cat, name, log, committed, tx), false))
    ensures Selected(cat, saved, log, committed + {tx}).nodes[name]
         == InsertedAll(saved.nodes[name], RowsOf(Items(cat, name, log, committed, tx), true))
  {
    if log != [] {
      var front, last := log[..|log| - 1], log[|log| - 1];
      var items, more := Items(cat, name, front, committed, tx), ItemsIn(cat, name, last, committed, tx);
      ItemsReplay(cat, saved, name, front, committed, tx);
      RowsOfRecord(cat, name, last, committed, tx);
      SelectedInserts(cat, saved, name, log, committed, items, more, false);
      SelectedInserts(cat, saved, name, log, committed + {tx}, items, more, true);
    }
  }

  lemma SelectedInserts(cat: Catalog, saved: Tables, name: string, log: seq<Record>, chosen: set<nat>,
                        items: seq<Item>, more: seq<Item>, withLost: bool)
    requires TablesOk(cat, saved) && name in cat.tables && log != []
    requires Selected(cat, saved, log[..|log| - 1], chosen).nodes[name]
          == InsertedAll(saved.nodes[name], RowsOf(items, withLost))
    requires RowsOf(more, withLost) == if log[|log| - 1].txId in chosen then RowsIn(cat, name, log[|log| - 1]) else []
    ensures Selected(cat, saved, log, chosen).nodes[name]
         == InsertedAll(saved.nodes[name], RowsOf(items + more, withLost))
  {
    SelectedLast(cat, saved, log, chosen);
    ApplyInserts(cat, Selected(cat, saved, log[..|log| - 1], chosen), name, log[|log| - 1]);
    RowsOfConcat(items, more, withLost);
    InsertedAllConcat(saved.nodes[name], RowsOf(items, withLost), RowsOf(more, withLost));
  }

  // ------------------------------------------------------------------ lost edges

  /** Transaction `tx` is committed, or left no edge in the log that its table accepts. */
  ghost predicate NoLostEdge(cat: Catalog, log: seq<Record>, committed: set<nat>, tx: nat) {
    tx in committed || forall r :: r in log && r.txId == tx ==> !AddsEdge(cat, r)
  }

  /** The relationship table that a record is meant for. */
  ghost predicate GoesTo(cat: Catalog, r: Record, n: string) {
    n in cat.relTables && r.payload.RelEdge? && NameById(cat, r.payload.relTableId) == Some(n)
  }

  lemma ApplyEdge(cat: Catalog, ts: Tables, r: Record, n: string)
    requires TablesOk(cat, ts) && GoesTo(cat, r, n)
    ensures Refined(ts.rels[n]) && Apply(cat, ts, r) == WithEdgeIn(ts, n, r.payload.src, r.payload.dst, r.payload.props)
  {}

  lemma ApplyNoEdge(cat: Catalog, ts: Tables, r: Record)
    requires TablesOk(cat, ts) && forall n :: !GoesTo(cat, r, n)
    ensures Apply(cat, ts, r).rels == ts.rels
  {
    if r.payload.RelEdge? {
      match NameById(cat, r.payload.relTableId)
      case None =>
      case Some(n) => assert !GoesTo(cat, r, n) && n !in ts.rels;
    } else if r.payload.TableRows? {
      match NameById(cat, r.payload.tableId)
      case None =>
      case Some(n) => if n in ts.nodes { ApplyRows(cat, ts, r, n); }
    }
  }

  lemma SameRels(cat: Catalog, ts: Tables, ts': Tables, r: Record)
    requires TablesOk(cat, ts) && TablesOk(cat, ts') && ts.rels == ts'.rels
    ensures Apply(cat, ts, r).rels == Apply(cat, ts', r).rels
  {
    if n :| GoesTo(cat, r, n) {
      ApplyEdge(cat, ts, r, n);
      ApplyEdge(cat, ts', r, n);
    } else {
      ApplyNoEdge(cat, ts, r);
      ApplyNoEdge(cat, ts', r);
    }
  }

  lemma NoEdgeSameRels(cat: Catalog, ts: Tables, r: Record)
    requires TablesOk(cat, ts) && !AddsEdge(cat, r)
    ensures Apply(cat, ts, r).rels == ts.rels
  {
    if r.payload.RelEdge? { RejectedEdge(cat, ts, r); }
  }

  lemma {:induction false} NoLostEdgeSameRels(cat: Catalog, saved: Tables, log: seq<Record>, committed: set<nat>,
                                              tx: nat)
    requires TablesOk(cat, saved) && NoLostEdge(cat, log, committed, tx)
    ensures Selected(cat, saved, log, committed).rels == Selected(cat, saved, log, committed + {tx}).rels
  {
    if log != [] {
      var front, last := log[..|log| - 1], log[|log| - 1];
      assert log == front + [last];
      NoLostEdgeSameRels(cat, saved, front, committed, tx);
      SelectedLast(cat, saved, log, committed);
      SelectedLast(cat, saved, log, committed + {tx});
      RelsStep(cat, Selected(cat, saved, front, committed), Selected(cat, saved, front, committed + {tx}), last,
               committed, tx);
    }
  }

  lemma RelsStep(cat: Catalog, ts: Tables, ts': Tables, r: Record, committed: set<nat>, tx: nat)
    requires TablesOk(cat, ts) && TablesOk(cat, ts') && ts.rels == ts'.rels
    requires r.txId == tx && tx !in committed ==> !AddsEdge(cat, r)
    ensures (if r.txId in committed then Apply(cat, ts, r) else ts).rels
         == (if r.txId in committed + {tx} then Apply(cat, ts', r) else ts').rels
  {
    if r.txId in committed {
      SameRels(cat, ts, ts', r);
    } else if r.txId == tx {
      NoEdgeSameRels(cat, ts', r);
    }
  }

  lemma LostSnoc(cat: Catalog, front: seq<Record>, last: Record, tx: nat, name: string)
    ensures (exists r :: r in front + [last] && r.txId == tx && AddsTo(cat, r, name))
       <==> (exists r :: r in front && r.txId == tx && AddsTo(cat, r, name))
            || (last.txId == tx && AddsTo(cat, last, name))
  {
    if last.txId == tx && AddsTo(cat, last, name) { assert last in front + [last]; }
    if r :| r in front && r.txId == tx && AddsTo(cat, r, name) { assert r in front + [last]; }
  }

  lemma {:induction false} LostEdgeCounts(cat: Catalog, saved: Tables, log: seq<Record>, committed: set<nat>, tx: nat,
                                          name: string)
    requires TablesOk(cat, saved) && name in cat.relTables
    ensures EdgeCount(cat, Selected(cat, saved, log, committed + {tx}), name)
         >= EdgeCount(cat, Selected(cat, saved, log, committed), name)
          + if tx !in committed && exists r :: r in log && r.txId == tx && AddsTo(cat, r, name) then 1 else 0
  {
    if log != [] {
      var front, last := log[..|log| - 1], log[|log| - 1];
      assert log == front + [last];
      LostEdgeCounts(cat, saved, front, committed, tx, name);
      LostSnoc(cat, front, last, tx, name);
      SelectedLast(cat, saved, log, committed);
      SelectedLast(cat, saved, log, committed + {tx});
      ApplyCounts(cat, Selected(cat, saved, front, committed), last, name);
      ApplyCounts(cat, Selected(cat, saved, front, committed + {tx}), last, name);
    }
  }

  // ------------------------------------------------------------------ when a creation recovers

  /** The row that a statement inserts into a table of that name, as the statement gives it. */
  ghost function NewRows(cat: Catalog, op: Op, name: string): seq<Row>
    requires name in cat.tables
  {
    if op.CreateNode? && op.name == name then [PropertyRow(cat.tables[name], op.properties)] else []
  }

  /** A row as it is logged; if it does not name the schema's columns, memory rejects it. */
  function Logs(s: Schema, rows: seq<Row>): (items: seq<Item>)
    ensures |items| == |rows|
  {
    seq(|rows|, i requires 0 <= i < |rows| => Item(PaddedRow(s, rows[i]), !NamesExactly(s, rows[i])))
  }

  /** The log's rows of a table, then the one that the statement logs. */
  ghost function ItemsWith(cat: Catalog, log: seq<Record>, tx: nat, name: string, op: Op): seq<Item>
    requires name in cat.tables
  {
    Items(cat, name, log, CommittedOf(log), tx) + Logs(cat.tables[name], NewRows(cat, op, name))
  }

  /** A node table for every schema, with a column for each of its columns. */
  ghost predicate NodesOk(cat: Catalog, nodes: map<string, Table>) {
    nodes.Keys == cat.tables.Keys && forall n :: n in nodes ==> |nodes[n].data.columns| == |nodes[n].schema.columns|
  }

  /** In no table a lost row is left over. */
  ghost predicate AllMatched(cat: Catalog, saved: map<string, Table>, log: seq<Record>, tx: nat, op: Op)
    requires NodesOk(cat, saved)
  {
    forall name :: name in cat.tables ==> Unmatched(saved[name], [], ItemsWith(cat, log, tx, name, op)) == Some([])
  }

  /**
   What the commit brings back changes nothing: no edge, and in every table only rows that are
   rejected or inserted next anyway.
   */
  ghost predicate Harmless(cat: Catalog, st: State, op: Op)
    requires TablesOk(cat, st.saved)
  {
    NoLostEdge(cat, st.log, CommittedOf(st.log), st.nextTx) && AllMatched(cat, st.saved.nodes, st.log, st.nextTx, op)
  }

  /** The tables that replay has before it comes to the next transaction, which commits what was lost under its id. */
  ghost function Returned(cat: Catalog, st: State): (ts: Tables)
    requires TablesOk(cat, st.saved)
    ensures TablesOk(cat, ts)
  {
    Selected(cat, st.saved, st.log, CommittedOf(st.log) + {st.nextTx})
  }

  /**
   Replaying a whole transaction at the end applies every record of its id, those without a commit
   before included.
   */
  lemma TransactionReplay(cat: Catalog, st: State, kind: Kind, payload: Payload, live: Tables)
    requires TablesOk(cat, st.saved) && kind != Commit
    ensures Replay(cat, st.saved, Logged(st, kind, payload, live).log)
         == Apply(cat, Returned(cat, st), Record(kind, st.nextTx, st.nextLsn + 1, payload))
  {
    TransactionReplayFn(cat, st, kind, payload, live);
    ApplyFnApplies(cat, Returned(cat, st), Record(kind, st.nextTx, st.nextLsn + 1, payload));
  }

  lemma TransactionReplayFn(cat: Catalog, st: State, kind: Kind, payload: Payload, live: Tables)
    requires kind != Commit
    ensures Replay(cat, st.saved, Logged(st, kind, payload, live).log)
         == ApplyFn(cat)(Fold(ApplyFn(cat), st.saved, Select(st.log, CommittedOf(st.log) + {st.nextTx})),
                         Record(kind, st.nextTx, st.nextLsn + 1, payload))
  {
    OnlyDataApplies(cat);
    var t := Transaction(st.nextTx, st.nextLsn, kind, payload);
    TransactionShape(st.nextTx, st.nextLsn, kind, payload, t);
    TransactionFold(ApplyFn(cat), st.saved, st.log, t, st.nextTx);
  }

  lemma TransactionFold(apply: (Tables, Record) -> Tables, saved: Tables, log: seq<Record>, t: seq<Record>, tx: nat)
    requires Inert(apply) && IsTransaction(t, tx)
    ensures Fold(apply, saved, ToApply(log + t))
         == apply(Fold(apply, saved, Select(log, CommittedOf(log) + {tx})), t[1])
  {
    assert t == [t[0], t[1], t[2]];
    TransactionCommits(apply, saved, log, t[0], t[1], t[2]);
  }

  /**
   One table and at most one new row: replay inserts every padded row, memory only the exactly named
   ones of committed transactions.
   */
  lemma OneTable(t: Table, items: seq<Item>, rows: seq<Row>)
    requires TableOk(t) && |rows| <= 1
    ensures InsertedAll(InsertedAll(t, RowsOf(items, false)), rows)
         == InsertedAll(InsertedAll(t, RowsOf(items, true)), RowsOf(Logs(t.schema, rows), true))
       <==> Unmatched(t, [], items + Logs(t.schema, rows)) == Some([])
  {
    var last := Logs(t.schema, rows);
    LostRowsMatch(t, [], items + last);
    RowsOfConcat(items, last, false);
    RowsOfConcat(items, last, true);
    InsertedAllConcat(t, RowsOf(items, false), RowsOf(last, false));
    InsertedAllConcat(t, RowsOf(items, true), RowsOf(last, true));
    OnlyNamedRows(InsertedAll(t, RowsOf(items, false)), rows);
  }

  lemma OnlyNamedRows(t: Table, rows: seq<Row>)
    requires |t.data.columns| == |t.schema.columns| && SchemaOk(t.schema) && |rows| <= 1
    ensures InsertedAll(t, RowsOf(Logs(t.schema, rows), false)) == InsertedAll(t, rows)
  {
    if rows != [] {
      var last := Logs(t.schema, rows);
      PaddedRowKeeps(t.schema, rows[0]);
      assert last[1..] == [] && rows[1..] == [];
      assert RowsOf(last, false) == if NamesExactly(t.schema, rows[0]) then rows else [];
    }
  }

  lemma TableRecovers(cat: Catalog, st: State, name: string, op: Op)
    requires Recoverable(cat, st) && name in cat.tables
    ensures InsertedAll(st.live.nodes[name], NewRows(cat, op, name))
         == InsertedAll(Returned(cat, st).nodes[name], RowsOf(Logs(cat.tables[name], NewRows(cat, op, name)), true))
       <==> Unmatched(st.saved.nodes[name], [], ItemsWith(cat, st.log, st.nextTx, name, op)) == Some([])
  {
    ItemsReplay(cat, st.saved, name, st.log, CommittedOf(st.log), st.nextTx);
    OneTable(st.saved.nodes[name], Items(cat, name, st.log, CommittedOf(st.log), st.nextTx), NewRows(cat, op, name));
  }

  /** The relationship tables agree after the next record exactly if no lost edge comes back. */
  lemma RelsRecover(cat: Catalog, st: State, d: Record)
    requires Recoverable(cat, st)
    ensures Apply(cat, st.live, d).rels == Apply(cat, Returned(cat, st), d).rels
       <==> NoLostEdge(cat, st.log, CommittedOf(st.log), st.nextTx)
  {
    var committed, before := CommittedOf(st.log), Returned(cat, st);
    assert Selected(cat, st.saved, st.log, committed) == st.live;
    if NoLostEdge(cat, st.log, committed, st.nextTx) {
      NoLostEdgeSameRels(cat, st.saved, st.log, committed, st.nextTx);
      SameRels(cat, st.live, before, d);
    } else {
      var r :| r in st.log && r.txId == st.nextTx && AddsEdge(cat, r);
      var name := NameById(cat, r.payload.relTableId).value;
      assert AddsTo(cat, r, name);
      LostEdgeCounts(cat, st.saved, st.log, committed, st.nextTx, name);
      ApplyCounts(cat, st.live, d, name);
      ApplyCounts(cat, before, d, name);
    }
  }

  /** What a creation leaves in memory and what replay makes of its record. */
  ghost predicate InsertsNew(cat: Catalog, st: State, op: Op, live: map<string, Table>, replayed: map<string, Table>,
                             name: string)
    requires TablesOk(cat, st.saved) && TablesOk(cat, st.live) && name in cat.tables && name in live && name in replayed
  {
    && live[name] == InsertedAll(st.live.nodes[name], NewRows(cat, op, name))
    && replayed[name]
         == InsertedAll(Returned(cat, st).nodes[name], RowsOf(Logs(cat.tables[name], NewRows(cat, op, name)), true))
  }

  /** This table comes out the same exactly if no lost row of it is left over. */
  ghost predicate Agrees(cat: Catalog, saved: map<string, Table>, log: seq<Record>, tx: nat, op: Op,
                         live: map<string, Table>, replayed: map<string, Table>, name: string)
    requires NodesOk(cat, saved) && name in cat.tables && name in live && name in replayed
  {
    live[name] == replayed[name] <==> Unmatched(saved[name], [], ItemsWith(cat, log, tx, name, op)) == Some([])
  }

  lemma AllAgree(cat: Catalog, saved: map<string, Table>, log: seq<Record>, tx: nat, op: Op,
                 live: map<string, Table>, replayed: map<string, Table>)
    requires NodesOk(cat, saved) && live.Keys == replayed.Keys == cat.tables.Keys
    requires forall name :: name in cat.tables ==> Agrees(cat, saved, log, tx, op, live, replayed, name)
    ensures live == replayed <==> AllMatched(cat, saved, log, tx, op)
  {
    SameMap(live, replayed);
    if live != replayed {
      var name :| name in cat.tables && live[name] != replayed[name];
      assert Agrees(cat, saved, log, tx, op, live, replayed, name);
    }
  }

  lemma NodesRecover(cat: Catalog, st: State, op: Op, live: map<string, Table>, replayed: map<string, Table>)
    requires Recoverable(cat, st) && live.Keys == replayed.Keys == cat.tables.Keys
    requires forall name :: name in cat.tables ==> InsertsNew(cat, st, op, live, replayed, name)
    ensures live == replayed <==> AllMatched(cat, st.saved.nodes, st.log, st.nextTx, op)
  {
    forall name | name in cat.tables ensures Agrees(cat, st.saved.nodes, st.log, st.nextTx, op, live, replayed, name) {
      assert InsertsNew(cat, st, op, live, replayed, name);
      TableRecovers(cat, st, name, op);
    }
    AllAgree(cat, st.saved.nodes, st.log, st.nextTx, op, live, replayed);
  }

  /** Live tables and replayed tables agree exactly if the creation is harmless. */
  lemma TablesRecover(cat: Catalog, st: State, op: Op, d: Record, live: Tables)
    requires Recoverable(cat, st) && TablesOk(cat, live)
    requires live.rels == Apply(cat, st.live, d).rels
    requires forall name ::
               name in cat.tables ==> InsertsNew(cat, st, op, live.nodes, Apply(cat, Returned(cat, st), d).nodes, name)
    ensures live == Apply(cat, Returned(cat, st), d) <==> Harmless(cat, st, op)
  {
    RelsRecover(cat, st, d);
    NodesRecover(cat, st, op, live.nodes, Apply(cat, Returned(cat, st), d).nodes);
  }

  /** What a statement leaves in memory and logs agrees with replay exactly if the statement is harmless. */
  lemma LoggedRecovers(cat: Catalog, st: State, op: Op, kind: Kind, payload: Payload, live: Tables)
    requires Recoverable(cat, st) && TablesOk(cat, live) && kind != Commit
    requires var d := Record(kind, st.nextTx, st.nextLsn + 1, payload);
             && live.rels == Apply(cat, st.live, d).rels
             && forall name :: name in cat.tables ==>
                  InsertsNew(cat, st, op, live.nodes, Apply(cat, Returned(cat, st), d).nodes, name)
    ensures Replay(cat, st.saved, Logged(st, kind, payload, live).log) == live <==> Harmless(cat, st, op)
  {
    TransactionReplay(cat, st, kind, payload, live);
    TablesRecover(cat, st, op, Record(kind, st.nextTx, st.nextLsn + 1, payload), live);
  }

  lemma WithRowNodes(ts: Tables, m: string, row: Row, name: string)
    requires m in ts.nodes && name in ts.nodes
          && forall n :: n in ts.nodes ==> |ts.nodes[n].data.columns| == |ts.nodes[n].schema.columns|
    ensures WithRow(ts, m, row).nodes[name] == InsertedAll(ts.nodes[name], if m == name then [row] else [])
  {
    assert [row][1..] == [];
  }

  /**
   A node creation recovers exactly if it is harmless, whatever transactions of its id
   were lost before and whatever columns it names.
   */
  lemma NodeCreationRecovers(cat: Catalog, st: State, op: Op)
    requires Recoverable(cat, st) && op.CreateNode? && op.name in cat.tables
    ensures Recoverable(cat, Step(cat, st, op)) <==> Harmless(cat, st, op)
  {
    StepWellFormed(cat, st, op);
    RowRecovers(cat, st, op, Step(cat, st, op));
  }

  lemma RowRecovers(cat: Catalog, st: State, op: Op, st': State)
    requires Recoverable(cat, st) && op.CreateNode? && op.name in cat.tables
    requires st' == NodeStep(cat, st, op.name, op.properties)
    ensures Replay(cat, st'.saved, st'.log) == st'.live <==> Harmless(cat, st, op)
  {
    var s, row := cat.tables[op.name], PropertyRow(cat.tables[op.name], op.properties);
    var payload, live := TableRows(s.tableId, [PaddedValues(s, row)]), WithRow(st.live, op.name, row);
    WithRowOk(cat, st.live, op.name, row);
    NewRow(cat, st, op, row, Record(TableInsertion, st.nextTx, st.nextLsn + 1, payload));
    LoggedRecovers(cat, st, op, TableInsertion, payload, live);
  }

  lemma NewRow(cat: Catalog, st: State, op: Op, row: Row, d: Record)
    requires Recoverable(cat, st) && op.CreateNode? && op.name in cat.tables
    requires row == PropertyRow(cat.tables[op.name], op.properties)
    requires d.payload == TableRows(cat.tables[op.name].tableId, [PaddedValues(cat.tables[op.name], row)])
    ensures WithRow(st.live, op.name, row).rels == Apply(cat, st.live, d).rels
    ensures forall name :: name in cat.tables ==>
              InsertsNew(cat, st, op, WithRow(st.live, op.name, row).nodes, Apply(cat, Returned(cat, st), d).nodes,
                         name)
  {
    var values := PaddedValues(cat.tables[op.name], row);
    ApplyNode(cat, Returned(cat, st), op.name, values, d);
    ApplyNode(cat, st.live, op.name, values, d);
    forall name | name in cat.tables
      ensures InsertsNew(cat, st, op, WithRow(st.live, op.name, row).nodes, Apply(cat, Returned(cat, st), d).nodes,
                         name)
    {
      NodeTables(cat, st.live, Returned(cat, st), op, name);
    }
  }

  lemma NodeTables(cat: Catalog, ts: Tables, ts': Tables, op: Op, name: string)
    requires TablesOk(cat, ts) && TablesOk(cat, ts') && op.CreateNode? && op.name in cat.tables && name in cat.tables
    ensures var s, rows := cat.tables[op.name], NewRows(cat, op, name);
            var row := PropertyRow(s, op.properties);
            && WithRow(ts, op.name, row).nodes[name] == InsertedAll(ts.nodes[name], rows)
            && WithRow(ts', op.name, PaddedRow(s, row)).nodes[name]
                 == InsertedAll(ts'.nodes[name], RowsOf(Logs(cat.tables[name], rows), true))
  {
    var s := cat.tables[op.name];
    var row := PropertyRow(s, op.properties);
    WithRowNodes(ts, op.name, row, name);
    WithRowNodes(ts', op.name, PaddedRow(s, row), name);
    assert Logs(s, [row])[1..] == [] && RowsOf(Logs(s, [row]), true) == [PaddedRow(s, row)];
  }

  lemma NoRowsInEdge(cat: Catalog, ts: Tables, name: string, d: Record)
    requires TablesOk(cat, ts) && name in cat.tables && d.payload.RelEdge?
    ensures Apply(cat, ts, d).nodes[name] == ts.nodes[name]
  {
    ApplyInserts(cat, ts, name, d);
  }

  lemma NoNewRows(cat: Catalog, st: State, op: Op, d: Record)
    requires Recoverable(cat, st) && op.CreateRel? && d.payload.RelEdge?
    ensures forall name ::
              name in cat.tables ==>
                InsertsNew(cat, st, op, st.live.nodes, Apply(cat, Returned(cat, st), d).nodes, name)
  {
    forall name | name in cat.tables
      ensures InsertsNew(cat, st, op, st.live.nodes, Apply(cat, Returned(cat, st), d).nodes, name)
    {
      NoRowsInEdge(cat, Returned(cat, st), name, d);
      NoNewRow(cat, st, op, Apply(cat, Returned(cat, st), d).nodes, name);
    }
  }

  lemma NoNewRow(cat: Catalog, st: State, op: Op, replayed: map<string, Table>, name: string)
    requires TablesOk(cat, st.saved) && TablesOk(cat, st.live) && op.CreateRel? && name in cat.tables
    requires name in replayed && replayed[name] == Returned(cat, st).nodes[name]
    ensures InsertsNew(cat, st, op, st.live.nodes, replayed, name)
  {
    assert NewRows(cat, op, name) == [] && RowsOf(Logs(cat.tables[name], []), true) == [];
    NothingInserted(st.live.nodes[name]);
    NothingInserted(Returned(cat, st).nodes[name]);
  }

  lemma NothingInserted(t: Table)
    requires |t.data.columns| == |t.schema.columns|
    ensures InsertedAll(t, []) == t
  {}

  /** A relationship creation recovers exactly if it logs nothing or is harmless. */
  lemma RelCreationRecovers(cat: Catalog, st: State, op: Op)
    requires Recoverable(cat, st) && op.CreateRel? && Step(cat, st, op) != st
    ensures Recoverable(cat, Step(cat, st, op)) <==> Harmless(cat, st, op)
  {
    StepWellFormed(cat, st, op);
    EdgeRecovers(cat, st, op, FindNode(st.live, op.src).value, FindNode(st.live, op.dst).value,
                 PropValues(op.relProps));
  }

  lemma EdgeRecovers(cat: Catalog, st: State, op: Op, src: nat, dst: nat, props: seq<Value>)
    requires Recoverable(cat, st) && op.CreateRel? && op.relType in cat.relTables
    ensures var payload, live := RelEdge(cat.relTables[op.relType].tableId, src, dst, props),
                                 WithEdgeIn(st.live, op.relType, src, dst, props);
            Replay(cat, st.saved, Logged(st, RelInsertion, payload, live).log) == live <==> Harmless(cat, st, op)
  {
    var payload, live := RelEdge(cat.relTables[op.relType].tableId, src, dst, props),
                         WithEdgeIn(st.live, op.relType, src, dst, props);
    var d := Record(RelInsertion, st.nextTx, st.nextLsn + 1, payload);
    WithEdgeInOk(cat, st.live, op.relType, src, dst, props);
    ApplyRel(cat, st.live, op.relType, src, dst, props, d);
    NoNewRows(cat, st, op, d);
    LoggedRecovers(cat, st, op, RelInsertion, payload, live);
  }

  lemma CreationRecovers(cat: Catalog, st: State, op: Op)
    requires Recoverable(cat, st) && IsCreation(op) && Step(cat, st, op) != st
    ensures Recoverable(cat, Step(cat, st, op)) <==> Harmless(cat, st, op)
  {
    if op.CreateNode? {
      NodeCreationRecovers(cat, st, op);
    } else {
      RelCreationRecovers(cat, st, op);
    }
  }

  // ------------------------------------------------------------------ runs

  /** Checkpoints, crashes and restarts always recover; a creation does if it logs nothing or is harmless. */
  ghost predicate Sound(cat: Catalog, st: State, op: Op)
    requires WellFormed(cat, st)
  {
    IsCreation(op) ==> Step(cat, st, op) == st || Harmless(cat, st, op)
  }

  lemma StepRecoversExactly(cat: Catalog, st: State, op: Op)
    requires Recoverable(cat, st)
    ensures Recoverable(cat, Step(cat, st, op)) <==> Sound(cat, st, op)
  {
    if IsCreation(op) {
      if Step(cat, st, op) != st { CreationRecovers(cat, st, op); }
    } else {
      StepRecovers(cat, st, op);
    }
  }

  ghost predicate SoundRun(cat: Catalog, st: State, ops: seq<Op>)
    requires WellFormed(cat, st)
  {
    ops == [] || (SoundRun(cat, st, ops[..|ops| - 1]) && Sound(cat, Run(cat, st, ops[..|ops| - 1]), ops[|ops| - 1]))
  }

  /** Every state of a run is recoverable. */
  ghost predicate AlwaysRecoverable(cat: Catalog, st: State, ops: seq<Op>)
    requires WellFormed(cat, st)
  {
    Recoverable(cat, Run(cat, st, ops)) && (ops == [] || AlwaysRecoverable(cat, st, ops[..|ops| - 1]))
  }

  /** A run of creations, checkpoints, crashes and restarts stays recoverable exactly if each of its steps is sound. */
  lemma {:induction false} RunRecoversExactly(cat: Catalog, st: State, ops: seq<Op>)
    requires Recoverable(cat, st)
    ensures AlwaysRecoverable(cat, st, ops) <==> SoundRun(cat, st, ops)
  {
    if ops != [] {
      var front, last := ops[..|ops| - 1], ops[|ops| - 1];
      RunRecoversExactly(cat, st, front);
      if AlwaysRecoverable(cat, st, front) { StepRecoversExactly(cat, Run(cat, st, front), last); }
    }
  }

  // ------------------------------------------------------------------ a transaction lost at the end of the log

  /** The log ends with a transaction of the next id that lacks its commit, and has no other data of that id. */
  ghost predicate LostLast(log': seq<Record>, tx: nat, log: seq<Record>, b: Record, d: Record) {
    && log' == log + [b, d] && b.kind == BeginTransaction && !IsData(b) && d.kind != Commit
    && b.txId == d.txId == tx && tx !in CommittedOf(log) && !Torn(log, tx)
  }

  /** Without lost rows nothing is left unmatched. */
  lemma {:induction false} UnmatchedSkips(t: Table, a: seq<Item>, b: seq<Item>)
    requires |t.data.columns| == |t.schema.columns| && forall i :: i in a ==> !i.lost
    ensures Unmatched(t, [], a + b) == Unmatched(InsertedAll(t, RowsOf(a, false)), [], b)
    decreases |a|
  {
    if a == [] {
      assert a + b == b;
    } else {
      assert (a + b)[1..] == a[1..] + b;
      UnmatchedSkips(Inserted(t, a[0].row), a[1..], b);
      FirstRow(t, a, false);
    }
  }

  lemma {:induction false} NothingLost(cat: Catalog, name: string, log: seq<Record>, committed: set<nat>, tx: nat)
    requires name in cat.tables && forall r :: r in log && r.txId == tx ==> !IsData(r)
    ensures forall i :: i in Items(cat, name, log, committed, tx) ==> !i.lost
  {
    if log != [] {
      assert log[|log| - 1] in log;
      NothingLost(cat, name, log[..|log| - 1], committed, tx);
    }
  }

  lemma ItemsSnoc(cat: Catalog, name: string, log: seq<Record>, r: Record, committed: set<nat>, tx: nat)
    requires name in cat.tables
    ensures Items(cat, name, log + [r], committed, tx)
         == Items(cat, name, log, committed, tx) + ItemsIn(cat, name, r, committed, tx)
  {
    assert (log + [r])[..|log|] == log;
  }

  lemma LostLastCommits(log': seq<Record>, tx: nat, log: seq<Record>, b: Record, d: Record)
    requires LostLast(log', tx, log, b, d)
    ensures log' == log + [b] + [d] && CommittedOf(log') == CommittedOf(log)
  {
    assert log + [b] + [d] == log + [b, d];
    CommittedSnoc(log, b);
    CommittedSnoc(log + [b], d);
  }

  lemma LostLastItems(cat: Catalog, log': seq<Record>, tx: nat, log: seq<Record>, b: Record, d: Record, name: string)
    requires LostLast(log', tx, log, b, d) && name in cat.tables
    ensures forall i :: i in Items(cat, name, log, CommittedOf(log), tx) ==> !i.lost
    ensures Items(cat, name, log', CommittedOf(log'), tx)
         == Items(cat, name, log, CommittedOf(log), tx) + AsItems(RowsIn(cat, name, d), true)
  {
    var committed, items := CommittedOf(log), Items(cat, name, log, CommittedOf(log), tx);
    LostLastCommits(log', tx, log, b, d);
    ItemsSnoc(cat, name, log, b, committed, tx);
    ItemsSnoc(cat, name, log + [b], d, committed, tx);
    assert ItemsIn(cat, name, b, committed, tx) == [] && items + [] == items;
    NothingLost(cat, name, log, committed, tx);
  }

  lemma LostLastLive(cat: Catalog, st: State, log: seq<Record>, b: Record, d: Record, name: string)
    requires Recoverable(cat, st) && LostLast(st.log, st.nextTx, log, b, d) && name in cat.tables
    ensures InsertedAll(st.saved.nodes[name], RowsOf(Items(cat, name, log, CommittedOf(log), st.nextTx), false))
         == st.live.nodes[name]
  {
    var items, lost := Items(cat, name, log, CommittedOf(log), st.nextTx), AsItems(RowsIn(cat, name, d), true);
    LostLastItems(cat, st.log, st.nextTx, log, b, d, name);
    ItemsReplay(cat, st.saved, name, st.log, CommittedOf(st.log), st.nextTx);
    RowsOfConcat(items, lost, false);
    RowsOfAsItems(RowsIn(cat, name, d), true, false);
    assert RowsOf(items, false) + [] == RowsOf(items, false);
  }

  /** One lost row at most, then one inserted row at most. */
  lemma OneLostRow(t: Table, lost: seq<Row>, next: seq<Row>)
    requires |t.data.columns| == |t.schema.columns| && |lost| <= 1 && |next| <= 1
    ensures Unmatched(t, [], AsItems(lost, true) + AsItems(next, false)) == Some([])
       <==> lost == [] || !Accepts(t, lost[0]) || next == lost
  {
    var last := AsItems(next, false);
    var items := AsItems(lost, true) + last;
    if next != [] { assert last[1..] == []; }
    if lost == [] {
      assert items == last;
    } else {
      assert items[1..] == last && [] + [lost[0]] == lost && lost[1..] == [];
      assert next == lost <==> next != [] && next[0] == lost[0];
      if Accepts(t, lost[0]) {
        assert Unmatched(t, [], items) == Unmatched(t, lost, last);
        OneMore(t, lost, next);
      } else {
        assert Unmatched(t, [], items) == Unmatched(t, [], last);
        OneMore(t, [], next);
      }
    }
  }

  lemma OneMore(t: Table, pending: seq<Row>, next: seq<Row>)
    requires |t.data.columns| == |t.schema.columns| && |pending| <= 1 && |next| <= 1
    requires forall row :: row in pending ==> Accepts(t, row)
    ensures Unmatched(t, pending, AsItems(next, false)) == Some([]) <==> pending == [] || next == pending
  {
    var last := AsItems(next, false);
    if next != [] {
      assert last[1..] == [];
      if pending != [] {
        assert pending[1..] == [] && (next == pending <==> next[0] == pending[0]);
        assert pending[0] in pending;
      }
    }
  }

  /** The statement names exactly the columns of its table. */
  ghost predicate WellNamed(cat: Catalog, op: Op) {
    op.CreateNode? ==>
      op.name in cat.tables && NamesExactly(cat.tables[op.name], PropertyRow(cat.tables[op.name], op.properties))
  }

  /** Without the transaction lost last the log gives these tables. */
  ghost predicate GivesLive(cat: Catalog, saved: map<string, Table>, live: map<string, Table>, log: seq<Record>,
                            tx: nat)
  {
    && NodesOk(cat, saved) && NodesOk(cat, live)
    && forall n ::
         n in cat.tables ==>
           SchemaOk(cat.tables[n])
             && InsertedAll(saved[n], RowsOf(Items(cat, n, log, CommittedOf(log), tx), false)) == live[n]
  }

  /** The lost data can be one row of this table, accepted by the live one and not inserted next. */
  ghost predicate Spoils(cat: Catalog, live: map<string, Table>, d: Record, op: Op, n: string)
    requires n in cat.tables && n in live
  {
    RowsIn(cat, n, d) != [] && Accepts(live[n], RowsIn(cat, n, d)[0]) && NewRows(cat, op, n) != RowsIn(cat, n, d)
  }

  lemma LostLastTable(cat: Catalog, saved: map<string, Table>, live: map<string, Table>, log': seq<Record>, tx: nat,
                      log: seq<Record>, b: Record, d: Record, n: string, op: Op)
    requires GivesLive(cat, saved, live, log, tx) && LostLast(log', tx, log, b, d)
    requires n in cat.tables && |RowsIn(cat, n, d)| <= 1 && WellNamed(cat, op)
    ensures Unmatched(saved[n], [], ItemsWith(cat, log', tx, n, op)) == Some([]) <==> !Spoils(cat, live, d, op, n)
  {
    var items, lost, next := Items(cat, n, log, CommittedOf(log), tx), RowsIn(cat, n, d), NewRows(cat, op, n);
    LostLastItems(cat, log', tx, log, b, d, n);
    if next != [] { PaddedRowKeeps(cat.tables[n], next[0]); }
    assert Logs(cat.tables[n], next) == AsItems(next, false);
    Assoc(items, AsItems(lost, true), AsItems(next, false));
    UnmatchedSkips(saved[n], items, AsItems(lost, true) + AsItems(next, false));
    OneLostRow(live[n], lost, next);
  }

  /** Lost data in one table, or in none. */
  lemma LostLastMatched(cat: Catalog, saved: map<string, Table>, live: map<string, Table>, log': seq<Record>, tx: nat,
                        log: seq<Record>, b: Record, d: Record, op: Op)
    requires GivesLive(cat, saved, live, log, tx) && LostLast(log', tx, log, b, d) && WellNamed(cat, op)
    requires forall n :: n in cat.tables ==> |RowsIn(cat, n, d)| <= 1
    ensures AllMatched(cat, saved, log', tx, op) <==> forall n :: n in cat.tables ==> !Spoils(cat, live, d, op, n)
  {
    forall n | n in cat.tables
      ensures Unmatched(saved[n], [], ItemsWith(cat, log', tx, n, op)) == Some([]) <==> !Spoils(cat, live, d, op, n)
    {
      LostLastTable(cat, saved, live, log', tx, log, b, d, n, op);
    }
  }

  lemma LostLastEdges(cat: Catalog, log': seq<Record>, tx: nat, log: seq<Record>, b: Record, d: Record)
    requires LostLast(log', tx, log, b, d)
    ensures NoLostEdge(cat, log', CommittedOf(log'), tx) <==> !AddsEdge(cat, d)
  {
    LostLastCommits(log', tx, log, b, d);
    assert d in log';
  }

  lemma RecoverableGivesLive(cat: Catalog, st: State, log: seq<Record>, b: Record, d: Record)
    requires Recoverable(cat, st) && LostLast(st.log, st.nextTx, log, b, d)
    ensures GivesLive(cat, st.saved.nodes, st.live.nodes, log, st.nextTx)
  {
    forall n | n in cat.tables
      ensures InsertedAll(st.saved.nodes[n], RowsOf(Items(cat, n, log, CommittedOf(log), st.nextTx), false))
           == st.live.nodes[n]
    {
      LostLastLive(cat, st, log, b, d, n);
    }
  }

  lemma LostLastHarmless(cat: Catalog, st: State, log: seq<Record>, b: Record, d: Record, op: Op)
    requires Recoverable(cat, st) && LostLast(st.log, st.nextTx, log, b, d) && WellNamed(cat, op)
    requires forall n :: n in cat.tables ==> |RowsIn(cat, n, d)| <= 1
    ensures Harmless(cat, st, op)
       <==> !AddsEdge(cat, d) && forall n :: n in cat.tables ==> !Spoils(cat, st.live.nodes, d, op, n)
  {
    LostLastEdges(cat, st.log, st.nextTx, log, b, d);
    RecoverableGivesLive(cat, st, log, b, d);
    LostLastMatched(cat, st.saved.nodes, st.live.nodes, st.log, st.nextTx, log, b, d, op);
  }

  /** A record with one row concerns one table. */
  lemma OneRowOnly(cat: Catalog, live: map<string, Table>, d: Record, name: string, row: Row, op: Op)
    requires live.Keys == cat.tables.Keys && name in cat.tables && RowsIn(cat, name, d) == [row]
    ensures !AddsEdge(cat, d) && forall n :: n in cat.tables ==> |RowsIn(cat, n, d)| <= 1
    ensures (forall n :: n in cat.tables ==> !Spoils(cat, live, d, op, n))
       <==> !Accepts(live[name], row) || NewRows(cat, op, name) == [row]
  {
    forall n | n in cat.tables && n != name ensures RowsIn(cat, n, d) == [] {}
    assert Spoils(cat, live, d, op, name) <==> Accepts(live[name], row) && NewRows(cat, op, name) != [row];
  }

  lemma NoRows(cat: Catalog, live: map<string, Table>, d: Record, op: Op)
    requires live.Keys == cat.tables.Keys && d.payload.RelEdge?
    ensures forall n :: n in cat.tables ==> |RowsIn(cat, n, d)| <= 1 && !Spoils(cat, live, d, op, n)
  {}

  /**
   A lost row at the end of the log spoils the next creation of the same id exactly if the
   live table would accept it, unless that creation inserts the very same row.
   */
  lemma LostRowRecovers(cat: Catalog, st: State, log: seq<Record>, b: Record, d: Record, name: string, row: Row, op: Op)
    requires Recoverable(cat, st) && LostLast(st.log, st.nextTx, log, b, d)
    requires name in cat.tables && RowsIn(cat, name, d) == [row]
    requires IsCreation(op) && WellNamed(cat, op) && Step(cat, st, op) != st
    ensures Recoverable(cat, Step(cat, st, op))
       <==> !Accepts(st.live.nodes[name], row) || NewRows(cat, op, name) == [row]
  {
    OneRowOnly(cat, st.live.nodes, d, name, row, op);
    CreationRecovers(cat, st, op);
    LostLastHarmless(cat, st, log, b, d, op);
  }

  /** A lost edge at the end of the log spoils the next creation of the same id exactly if its table accepts it. */
  lemma LostEdgeRecovers(cat: Catalog, st: State, log: seq<Record>, b: Record, d: Record, op: Op)
    requires Recoverable(cat, st) && LostLast(st.log, st.nextTx, log, b, d) && d.payload.RelEdge?
    requires IsCreation(op) && WellNamed(cat, op) && Step(cat, st, op) != st
    ensures Recoverable(cat, Step(cat, st, op)) <==> !AddsEdge(cat, d)
  {
    NoRows(cat, st.live.nodes, d, op);
    CreationRecovers(cat, st, op);
    LostLastHarmless(cat, st, log, b, d, op);
  }
}
