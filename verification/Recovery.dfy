/**
 Recovery: the tables in memory, the tables of the last checkpoint and the log
 between them. The schema is fixed between checkpoints.
 */
module Recovery {
  import opened Wrappers
  import opened Values
  import opened NodeTable
  import opened CsrGroups
  import opened Wal

  // ------------------------------------------------------------------ catalog and tables

  datatype RelSchema = RelSchema(tableId: nat, srcTable: string, dstTable: string, columns: seq<ColumnDef>)

  datatype Catalog = Catalog(tables: map<string, Schema>, relTables: map<string, RelSchema>)

  /** Valid schemas, and one table id per table. */
  ghost predicate CatalogOk(cat: Catalog) {
    && (forall n :: n in cat.tables ==> SchemaOk(cat.tables[n]))
    && (forall m, n :: m in cat.tables && n in cat.tables && cat.tables[m].tableId == cat.tables[n].tableId ==> m == n)
    && (forall m, n ::
        m in cat.relTables && n in cat.relTables && cat.relTables[m].tableId == cat.relTables[n].tableId ==> m == n)
    && (forall m, n :: m in cat.tables && n in cat.relTables ==> cat.tables[m].tableId != cat.relTables[n].tableId)
  }

  /** `table_name_by_id`: node tables first, then relationship tables. */
  ghost function NameById(cat: Catalog, id: nat): Option<string> {
    if exists n :: n in cat.tables && cat.tables[n].tableId == id then
      var n :| n in cat.tables && cat.tables[n].tableId == id;
      Some(n)
    else if exists n :: n in cat.relTables && cat.relTables[n].tableId == id then
      var n :| n in cat.relTables && cat.relTables[n].tableId == id;
      Some(n)
    else None
  }

  lemma NodeTableById(cat: Catalog, name: string)
    requires CatalogOk(cat) && name in cat.tables
    ensures NameById(cat, cat.tables[name].tableId) == Some(name)
  {}

  lemma RelTableById(cat: Catalog, name: string)
    requires CatalogOk(cat) && name in cat.relTables
    ensures NameById(cat, cat.relTables[name].tableId) == Some(name)
  {}

  datatype Tables = Tables(nodes: map<string, Table>, rels: map<string, Rel>)

  /** One good table for every schema and no other. */
  ghost predicate TablesOk(cat: Catalog, ts: Tables) {
    && ts.nodes.Keys == cat.tables.Keys && ts.rels.Keys == cat.relTables.Keys
    && (forall n :: n in ts.nodes ==> TableOk(ts.nodes[n]) && ts.nodes[n].schema == cat.tables[n])
    && (forall n :: n in ts.rels ==> Refined(ts.rels[n]) && ts.rels[n].numProps == |cat.relTables[n].columns|)
  }

  /** What is there, and something empty for every other schema. */
  function WithEmpty<S, T>(schemas: map<string, S>, empty: S -> T, tables: map<string, T>): map<string, T> {
    map n | n in schemas.Keys + tables.Keys :: if n in tables then tables[n] else empty(schemas[n])
  }

  lemma NothingMissing<S, T>(schemas: map<string, S>, empty: S -> T, tables: map<string, T>)
    requires schemas.Keys <= tables.Keys
    ensures WithEmpty(schemas, empty, tables) == tables
  {}

  function EmptyRelFor(s: RelSchema): Rel { EmptyRel(|s.columns|) }

  // ------------------------------------------------------------------ replay

  /** A logged row as a map by column name; values and columns beyond the shorter list are dropped. */
  function RowFromValues(s: Schema, values: seq<Value>): Row {
    var n := if |values| < |s.columns| then |values| else |s.columns|;
    RowMap(Names(s)[..n], values[..n])
  }

  function InsertRows(t: Table, rows: seq<seq<Value>>): (t': Table)
    requires |t.data.columns| == |t.schema.columns|
    ensures t'.schema == t.schema && |t'.data.columns| == |t.data.columns|
  {
    if rows == [] then t
    else Inserted(InsertRows(t, rows[..|rows| - 1]), RowFromValues(t.schema, rows[|rows| - 1]))
  }

  lemma {:induction false} InsertRowsKeepsTableOk(t: Table, rows: seq<seq<Value>>)
    requires TableOk(t)
    ensures TableOk(InsertRows(t, rows))
  {
    if rows != [] {
      InsertRowsKeepsTableOk(t, rows[..|rows| - 1]);
      InsertKeepsTableOk(InsertRows(t, rows[..|rows| - 1]), RowFromValues(t.schema, rows[|rows| - 1]));
    }
  }

  /** `apply_wal_record`: what goes wrong with a single row or edge is ignored. */
  ghost function Apply(cat: Catalog, ts: Tables, r: Record): (ts': Tables)
    requires TablesOk(cat, ts)
    ensures TablesOk(cat, ts')
  {
    match r.payload
    case TableRows(id, rows) => (
      match NameById(cat, id)
      case None => ts
      case Some(name) =>
        if name !in ts.nodes then ts
        else
          InsertRowsKeepsTableOk(ts.nodes[name], rows);
          ts.(nodes := ts.nodes[name := InsertRows(ts.nodes[name], rows)]))
    case RelEdge(id, src, dst, props) => (
      match NameById(cat, id)
      case None => ts
      case Some(name) =>
        if name !in ts.rels then ts
        else
          InsertedIsRefined(ts.rels[name], src, dst, props);
          ts.(rels := ts.rels[name := InsertedRel(ts.rels[name], src, dst, props)]))
    case _ => ts
  }

  /** Applying records one after the other. */
  ghost function ApplyFn(cat: Catalog): (Tables, Record) -> Tables {
    (ts: Tables, r: Record) => if TablesOk(cat, ts) then Apply(cat, ts, r) else ts
  }

  /** The tables that opening the database rebuilds. */
  ghost function Replay(cat: Catalog, saved: Tables, log: seq<Record>): Tables {
    Fold(ApplyFn(cat), saved, ToApply(log))
  }

  lemma OnlyDataApplies(cat: Catalog)
    ensures Inert(ApplyFn(cat))
  {}

  // ------------------------------------------------------------------ statements

  /** The pages on disk hold `saved`, the log file holds `log`, memory holds `live`. */
  datatype State = State(saved: Tables, log: seq<Record>, live: Tables, nextTx: nat, nextLsn: nat)

  datatype NodeFilter = NodeFilter(nodeLabel: string, filter: Option<(string, Literal)>)

  datatype Op =
    | CreateNode(name: string, properties: seq<(string, Literal)>)
    | CreateRel(src: NodeFilter, dst: NodeFilter, relType: string, relProps: seq<(string, Literal)>)
    | Checkpoint
    | CrashReopen(keep: nat)

  /** A literal as a value; whole numbers become floats where the column wants them. */
  function Promote(s: Schema, name: string, l: Literal): Value {
    var v := LiteralToValue(l);
    match (v, Position(Names(s), name))
    case (Int64(n), Some(i)) => if s.columns[i].dataType == TFloat64 then IntToFloat(n) else v
    case _ => v
  }

  /** A property given twice keeps its last value. */
  function PropertyRow(s: Schema, properties: seq<(string, Literal)>): Row {
    if properties == [] then map[]
    else
      var last := properties[|properties| - 1];
      PropertyRow(s, properties[..|properties| - 1])[last.0 := Promote(s, last.0, last.1)]
  }

  /** The row in schema order as it is logged: missing columns become null, unknown ones are dropped. */
  function PaddedValues(s: Schema, row: Row): (values: seq<Value>)
    ensures |values| == |s.columns|
  {
    seq(|s.columns|, i requires 0 <= i < |s.columns| =>
          if s.columns[i].name in row then row[s.columns[i].name] else Null)
  }

  /** The row that replay inserts. */
  function PaddedRow(s: Schema, row: Row): Row { RowFromValues(s, PaddedValues(s, row)) }

  predicate NamesExactly(s: Schema, row: Row) { AllPresent(s, row) && AllKnown(s, row) }

  lemma PaddedColumns(s: Schema, row: Row)
    requires SchemaOk(s)
    ensures var values, padded := PaddedValues(s, row), PaddedRow(s, row);
            && (forall i ::
                0 <= i < |s.columns| ==> s.columns[i].name in padded && padded[s.columns[i].name] == values[i])
            && forall name :: name in padded ==> name in Names(s)
  {
    var values, padded := PaddedValues(s, row), PaddedRow(s, row);
    assert values[..|s.columns|] == values && Names(s)[..|s.columns|] == Names(s);
    forall i | 0 <= i < |s.columns| ensures s.columns[i].name in padded && padded[s.columns[i].name] == values[i] {
      assert Names(s)[i] == s.columns[i].name;
      assert Position(Names(s), s.columns[i].name).value == i;
    }
  }

  lemma PaddedRowKeeps(s: Schema, row: Row)
    requires SchemaOk(s)
    ensures PaddedRow(s, row) == row <==> NamesExactly(s, row)
  {
    var values, padded := PaddedValues(s, row), PaddedRow(s, row);
    PaddedColumns(s, row);
    if NamesExactly(s, row) {
      forall name | name in row ensures name in padded && padded[name] == row[name] {
        assert name in Names(s);
        var i :| 0 <= i < |s.columns| && Names(s)[i] == name;
      }
      forall name | name in padded ensures name in row {
        var i :| 0 <= i < |s.columns| && Names(s)[i] == name;
        assert s.columns[i].name in row;
      }
      assert padded == row;
    }
  }

  function Transaction(tx: nat, lsn: nat, kind: Kind, payload: Payload): seq<Record> {
    [BeginRecord(tx, lsn), Record(kind, tx, lsn + 1, payload), CommitRecord(tx, lsn + 2)]
  }

  function Logged(st: State, kind: Kind, payload: Payload, live: Tables): State {
    State(st.saved, st.log + Transaction(st.nextTx, st.nextLsn, kind, payload), live, st.nextTx + 1, st.nextLsn + 3)
  }

  function WithRow(ts: Tables, name: string, row: Row): Tables
    requires name in ts.nodes && |ts.nodes[name].data.columns| == |ts.nodes[name].schema.columns|
  {
    ts.(nodes := ts.nodes[name := Inserted(ts.nodes[name], row)])
  }

  function WithEdgeIn(ts: Tables, relType: string, src: nat, dst: nat, props: seq<Value>): Tables
    requires relType in ts.rels && Refined(ts.rels[relType])
  {
    ts.(rels := ts.rels[relType := InsertedRel(ts.rels[relType], src, dst, props)])
  }

  /** `execute_create_node` logs the padded row before it inserts the row, and also when the row is rejected. */
  ghost function NodeStep(cat: Catalog, st: State, name: string, properties: seq<(string, Literal)>): State
    requires TablesOk(cat, st.live)
  {
    if name !in cat.tables then st
    else
      var s := cat.tables[name];
      var row := PropertyRow(s, properties);
      Logged(st, TableInsertion, TableRows(s.tableId, [PaddedValues(s, row)]), WithRow(st.live, name, row))
  }

  function FindNode(ts: Tables, f: NodeFilter): Option<nat>
    requires f.nodeLabel in ts.nodes
  {
    match f.filter
    case None => None
    case Some((key, l)) => FindByPk(ts.nodes[f.nodeLabel], key, LiteralToValue(l))
  }

  function PropValues(props: seq<(string, Literal)>): seq<Value> {
    seq(|props|, i requires 0 <= i < |props| => LiteralToValue(props[i].1))
  }

  /** `execute_match_create` inserts first and logs only what was inserted. */
  ghost function RelStep(cat: Catalog, st: State, src: NodeFilter, dst: NodeFilter, relType: string,
                         relProps: seq<(string, Literal)>): State
    requires TablesOk(cat, st.live)
  {
    if relType !in cat.relTables || src.nodeLabel !in st.live.nodes || dst.nodeLabel !in st.live.nodes then st
    else
      match (FindNode(st.live, src), FindNode(st.live, dst))
      case (Some(s), Some(d)) =>
        var t, props := st.live.rels[relType], PropValues(relProps);
        if |props| != t.numProps then st
        else Logged(st, RelInsertion, RelEdge(cat.relTables[relType].tableId, s, d, props),
                    WithEdgeIn(st.live, relType, s, d, props))
      case _ => st
  }

  /**
   A completed checkpoint is one step. A crash keeps the first records of the log, and
   reopening replays them, leaves them in the log and starts again with transaction 1.
   */
  ghost function Step(cat: Catalog, st: State, op: Op): State
    requires TablesOk(cat, st.live)
  {
    match op
    case CreateNode(name, properties) => NodeStep(cat, st, name, properties)
    case CreateRel(src, dst, relType, relProps) => RelStep(cat, st, src, dst, relType, relProps)
    case Checkpoint => State(st.live, [], st.live, st.nextTx, 1)
    case CrashReopen(keep) =>
      var log := st.log[..if keep <= |st.log| then keep else |st.log|];
      State(st.saved, log, Replay(cat, st.saved, log), 1, 1)
  }

  // ------------------------------------------------------------------ every step is recoverable

  /** Replaying the log over the last checkpoint gives exactly the live tables. */
  ghost predicate Recoverable(cat: Catalog, st: State) {
    && CatalogOk(cat) && TablesOk(cat, st.saved) && TablesOk(cat, st.live)
    && Replay(cat, st.saved, st.log) == st.live
  }

  lemma LoggedReplayFn(cat: Catalog, st: State, kind: Kind, payload: Payload, live: Tables)
    requires Replay(cat, st.saved, st.log) == st.live && !Torn(st.log, st.nextTx) && kind != Commit
    ensures Replay(cat, st.saved, Logged(st, kind, payload, live).log)
         == ApplyFn(cat)(st.live, Transaction(st.nextTx, st.nextLsn, kind, payload)[1])
  {
    var t := Transaction(st.nextTx, st.nextLsn, kind, payload);
    OnlyDataApplies(cat);
    ApplyTransaction(ApplyFn(cat), st.saved, st.log, t[0], t[1], t[2]);
  }

  lemma LoggedReplay(cat: Catalog, st: State, kind: Kind, payload: Payload, live: Tables)
    requires Recoverable(cat, st) && !Torn(st.log, st.nextTx) && kind != Commit
    ensures Replay(cat, st.saved, Logged(st, kind, payload, live).log)
         == Apply(cat, st.live, Record(kind, st.nextTx, st.nextLsn + 1, payload))
  {
    LoggedReplayFn(cat, st, kind, payload, live);
    ApplyFnApplies(cat, st.live, Record(kind, st.nextTx, st.nextLsn + 1, payload));
  }

  lemma WithRowOk(cat: Catalog, ts: Tables, name: string, row: Row)
    requires TablesOk(cat, ts) && name in cat.tables
    ensures TablesOk(cat, WithRow(ts, name, row))
  {
    InsertKeepsTableOk(ts.nodes[name], row);
  }

  lemma ApplyNode(cat: Catalog, ts: Tables, name: string, values: seq<Value>, r: Record)
    requires CatalogOk(cat) && TablesOk(cat, ts) && name in cat.tables
    requires r.payload == TableRows(cat.tables[name].tableId, [values])
    ensures Apply(cat, ts, r) == WithRow(ts, name, RowFromValues(cat.tables[name], values))
  {
    NodeTableById(cat, name);
    var t := ts.nodes[name];
    OneRow(t, values);
    assert Apply(cat, ts, r) == ts.(nodes := ts.nodes[name := InsertRows(t, [values])]);
  }

  lemma OneRow(t: Table, values: seq<Value>)
    requires |t.data.columns| == |t.schema.columns|
    ensures InsertRows(t, [values]) == Inserted(t, RowFromValues(t.schema, values))
  {
    assert [values][..0] == [];
  }

  lemma WithEdgeInOk(cat: Catalog, ts: Tables, relType: string, src: nat, dst: nat, props: seq<Value>)
    requires TablesOk(cat, ts) && relType in cat.relTables
    ensures TablesOk(cat, WithEdgeIn(ts, relType, src, dst, props))
  {
    InsertedIsRefined(ts.rels[relType], src, dst, props);
  }

  lemma ApplyRel(cat: Catalog, ts: Tables, relType: string, src: nat, dst: nat, props: seq<Value>, r: Record)
    requires CatalogOk(cat) && TablesOk(cat, ts) && relType in cat.relTables
    requires r.payload == RelEdge(cat.relTables[relType].tableId, src, dst, props)
    ensures Apply(cat, ts, r) == WithEdgeIn(ts, relType, src, dst, props)
  {
    RelTableById(cat, relType);
  }

  lemma SameTable(ts: Tables, name: string, row: Row, row': Row)
    requires name in ts.nodes && |ts.nodes[name].data.columns| == |ts.nodes[name].schema.columns|
    ensures WithRow(ts, name, row) == WithRow(ts, name, row')
       <==> Inserted(ts.nodes[name], row) == Inserted(ts.nodes[name], row')
  {
    assert WithRow(ts, name, row).nodes[name] == Inserted(ts.nodes[name], row);
    assert WithRow(ts, name, row').nodes[name] == Inserted(ts.nodes[name], row');
  }

  /** A row that is not named exactly is rejected, so the padded row must be rejected too. */
  lemma SameInsertion(t: Table, row: Row)
    requires TableOk(t)
    ensures Inserted(t, row) == Inserted(t, PaddedRow(t.schema, row))
       <==> NamesExactly(t.schema, row) || !Accepts(t, PaddedRow(t.schema, row))
  {
    PaddedRowKeeps(t.schema, row);
    var padded := PaddedRow(t.schema, row);
    if Accepts(t, padded) {
      assert Inserted(t, padded).data.rowCount == t.data.rowCount + 1;
    }
  }

  /**
   A node creation stays recoverable exactly if the statement names the columns of
   the schema, neither more nor fewer, or the padded row is rejected as well.
   */
  lemma NodeStepRecovers(cat: Catalog, st: State, name: string, properties: seq<(string, Literal)>)
    requires Recoverable(cat, st) && name in cat.tables && !Torn(st.log, st.nextTx)
    ensures TablesOk(cat, NodeStep(cat, st, name, properties).live)
    ensures var row := PropertyRow(cat.tables[name], properties);
            Recoverable(cat, NodeStep(cat, st, name, properties))
            <==> NamesExactly(cat.tables[name], row) || !Accepts(st.live.nodes[name], PaddedRow(cat.tables[name], row))
  {
    var s := cat.tables[name];
    var row := PropertyRow(s, properties);
    var payload := TableRows(s.tableId, [PaddedValues(s, row)]);
    var live' := WithRow(st.live, name, row);
    var st' := Logged(st, TableInsertion, payload, live');
    assert NodeStep(cat, st, name, properties) == st';
    WithRowOk(cat, st.live, name, row);
    LoggedReplay(cat, st, TableInsertion, payload, live');
    ApplyNode(cat, st.live, name, PaddedValues(s, row), Record(TableInsertion, st.nextTx, st.nextLsn + 1, payload));
    assert Replay(cat, st'.saved, st'.log) == WithRow(st.live, name, PaddedRow(s, row));
    SameTable(st.live, name, row, PaddedRow(s, row));
    SameInsertion(st.live.nodes[name], row);
  }

  /** A relationship creation stays recoverable. */
  lemma RelStepRecovers(cat: Catalog, st: State, src: NodeFilter, dst: NodeFilter, relType: string,
                        relProps: seq<(string, Literal)>)
    requires Recoverable(cat, st) && !Torn(st.log, st.nextTx)
    ensures Recoverable(cat, RelStep(cat, st, src, dst, relType, relProps))
  {
    var st' := RelStep(cat, st, src, dst, relType, relProps);
    if st' != st {
      var s, d, props := FindNode(st.live, src).value, FindNode(st.live, dst).value, PropValues(relProps);
      EdgeStepRecovers(cat, st, relType, s, d, props);
    }
  }

  lemma EdgeStepRecovers(cat: Catalog, st: State, relType: string, s: nat, d: nat, props: seq<Value>)
    requires Recoverable(cat, st) && !Torn(st.log, st.nextTx) && relType in cat.relTables
    ensures Recoverable(cat,
                        Logged(st, RelInsertion, RelEdge(cat.relTables[relType].tableId, s, d, props),
                               WithEdgeIn(st.live, relType, s, d, props)))
  {
    var payload := RelEdge(cat.relTables[relType].tableId, s, d, props);
    WithEdgeInOk(cat, st.live, relType, s, d, props);
    LoggedReplay(cat, st, RelInsertion, payload, WithEdgeIn(st.live, relType, s, d, props));
    ApplyRel(cat, st.live, relType, s, d, props, Record(RelInsertion, st.nextTx, st.nextLsn + 1, payload));
  }

  // ------------------------------------------------------------------ runs

  ghost predicate WellFormed(cat: Catalog, st: State) {
    CatalogOk(cat) && TablesOk(cat, st.saved) && TablesOk(cat, st.live)
  }

  lemma {:induction false} FoldOk(cat: Catalog, ts: Tables, records: seq<Record>)
    requires TablesOk(cat, ts)
    ensures TablesOk(cat, Fold(ApplyFn(cat), ts, records))
  {
    if records != [] { FoldOk(cat, ts, records[..|records| - 1]); }
  }

  lemma StepWellFormed(cat: Catalog, st: State, op: Op)
    requires WellFormed(cat, st)
    ensures WellFormed(cat, Step(cat, st, op))
  {
    match op
    case CreateNode(name, properties) =>
      if name in cat.tables { WithRowOk(cat, st.live, name, PropertyRow(cat.tables[name], properties)); }
    case CreateRel(src, dst, relType, relProps) =>
      if RelStep(cat, st, src, dst, relType, relProps) != st {
        WithEdgeInOk(cat, st.live, relType, FindNode(st.live, src).value, FindNode(st.live, dst).value,
                     PropValues(relProps));
      }
    case Checkpoint =>
    case CrashReopen(keep) =>
      FoldOk(cat, st.saved, ToApply(st.log[..if keep <= |st.log| then keep else |st.log|]));
  }

  ghost function Run(cat: Catalog, st: State, ops: seq<Op>): (st': State)
    requires WellFormed(cat, st)
    ensures WellFormed(cat, st')
  {
    if ops == [] then st
    else
      var before := Run(cat, st, ops[..|ops| - 1]);
      StepWellFormed(cat, before, ops[|ops| - 1]);
      Step(cat, before, ops[|ops| - 1])
  }

  /**
   The new transaction id belongs to no torn transaction, and a node is created with exactly the
   schema's columns or also rejected when padded.
   */
  ghost predicate Safe(cat: Catalog, st: State, op: Op)
    requires WellFormed(cat, st)
  {
    match op
    case CreateNode(name, properties) =>
      name in cat.tables ==>
        && !Torn(st.log, st.nextTx)
        && var row := PropertyRow(cat.tables[name], properties);
           NamesExactly(cat.tables[name], row) || !Accepts(st.live.nodes[name], PaddedRow(cat.tables[name], row))
    case CreateRel(_, _, _, _) => !Torn(st.log, st.nextTx)
    case _ => true
  }

  ghost predicate SafeRun(cat: Catalog, st: State, ops: seq<Op>)
    requires WellFormed(cat, st)
  {
    ops == [] || (SafeRun(cat, st, ops[..|ops| - 1]) && Safe(cat, Run(cat, st, ops[..|ops| - 1]), ops[|ops| - 1]))
  }

  lemma StepRecovers(cat: Catalog, st: State, op: Op)
    requires Recoverable(cat, st) && Safe(cat, st, op)
    ensures Recoverable(cat, Step(cat, st, op))
  {
    StepWellFormed(cat, st, op);
    match op
    case CreateNode(name, properties) =>
      if name in cat.tables { NodeStepRecovers(cat, st, name, properties); }
    case CreateRel(src, dst, relType, relProps) => RelStepRecovers(cat, st, src, dst, relType, relProps);
    case Checkpoint =>
    case CrashReopen(keep) =>
  }

  /** In every run of creations, checkpoints, crashes and restarts the log rebuilds the live tables. */
  lemma {:induction false} RunRecovers(cat: Catalog, st: State, ops: seq<Op>)
    requires Recoverable(cat, st) && SafeRun(cat, st, ops)
    ensures Recoverable(cat, Run(cat, st, ops))
  {
    if ops != [] {
      RunRecovers(cat, st, ops[..|ops| - 1]);
      StepRecovers(cat, Run(cat, st, ops[..|ops| - 1]), ops[|ops| - 1]);
    }
  }

  // ------------------------------------------------------------------ crashes that tear no transaction

  /** Every transaction with data in the log is committed there. */
  ghost predicate Settled(log: seq<Record>) { forall tx: nat :: !Torn(log, tx) }

  lemma TransactionSettles(log: seq<Record>, tx: nat, lsn: nat, kind: Kind, payload: Payload)
    requires Settled(log) && kind != Commit
    ensures Settled(log + Transaction(tx, lsn, kind, payload))
  {
    var t := Transaction(tx, lsn, kind, payload);
    CommittedSnoc(log, t[0]);
    CommittedSnoc(log + [t[0]], t[1]);
    CommittedSnoc(log + [t[0]] + [t[1]], t[2]);
    assert log + [t[0]] + [t[1]] + [t[2]] == log + t;
    forall other: nat ensures !Torn(log + t, other) {
      assert !Torn(log, other);
    }
  }

  /** Nodes are created with exactly the schema's columns, and crashes cut the log between transactions. */
  ghost predicate Plain(cat: Catalog, st: State, op: Op) {
    match op
    case CreateNode(name, properties) =>
      name in cat.tables ==> NamesExactly(cat.tables[name], PropertyRow(cat.tables[name], properties))
    case CrashReopen(keep) => Settled(st.log[..if keep <= |st.log| then keep else |st.log|])
    case _ => true
  }

  ghost predicate PlainRun(cat: Catalog, st: State, ops: seq<Op>)
    requires WellFormed(cat, st)
  {
    ops == [] || (PlainRun(cat, st, ops[..|ops| - 1]) && Plain(cat, Run(cat, st, ops[..|ops| - 1]), ops[|ops| - 1]))
  }

  lemma StepSettles(cat: Catalog, st: State, op: Op)
    requires WellFormed(cat, st) && Settled(st.log) && Plain(cat, st, op)
    ensures Settled(Step(cat, st, op).log) && Safe(cat, st, op)
  {
    assert !Torn(st.log, st.nextTx);
    match op
    case CreateNode(name, properties) =>
      if name in cat.tables {
        var s := cat.tables[name];
        TransactionSettles(st.log, st.nextTx, st.nextLsn, TableInsertion,
                           TableRows(s.tableId, [PaddedValues(s, PropertyRow(s, properties))]));
      }
    case CreateRel(src, dst, relType, relProps) =>
      if RelStep(cat, st, src, dst, relType, relProps) != st {
        var s, d, props := FindNode(st.live, src).value, FindNode(st.live, dst).value, PropValues(relProps);
        TransactionSettles(st.log, st.nextTx, st.nextLsn, RelInsertion,
                           RelEdge(cat.relTables[relType].tableId, s, d, props));
      }
    case Checkpoint =>
    case CrashReopen(keep) =>
  }

  /**
   Without torn transactions nothing about transaction ids needs to be assumed: they
   start again at 1 after every restart, and still every run recovers.
   */
  lemma {:induction false} PlainRunRecovers(cat: Catalog, st: State, ops: seq<Op>)
    requires Recoverable(cat, st) && Settled(st.log) && PlainRun(cat, st, ops)
    ensures SafeRun(cat, st, ops) && Recoverable(cat, Run(cat, st, ops)) && Settled(Run(cat, st, ops).log)
  {
    if ops != [] {
      var before, last := Run(cat, st, ops[..|ops| - 1]), ops[|ops| - 1];
      PlainRunRecovers(cat, st, ops[..|ops| - 1]);
      StepSettles(cat, before, last);
      StepRecovers(cat, before, last);
    }
  }

  // ------------------------------------------------------------------ a crash keeps a prefix of the operations

  predicate IsCreation(op: Op) { op.CreateNode? || op.CreateRel? }

  /** What a creation does to the log: nothing, or one transaction. */
  ghost predicate LogsOne(st: State, st': State, kind: Kind, payload: Payload) {
    kind != Commit && st' == Logged(st, kind, payload, st'.live)
  }

  lemma CreationLogs(cat: Catalog, st: State, op: Op)
    requires WellFormed(cat, st) && IsCreation(op)
    ensures Step(cat, st, op) == st || exists kind, payload :: LogsOne(st, Step(cat, st, op), kind, payload)
  {
    if op.CreateNode? {
      NodeLogs(cat, st, op.name, op.properties);
    } else {
      RelLogs(cat, st, op.src, op.dst, op.relType, op.relProps);
    }
  }

  lemma NodeLogs(cat: Catalog, st: State, name: string, properties: seq<(string, Literal)>)
    requires WellFormed(cat, st)
    ensures NodeStep(cat, st, name, properties) == st
         || exists kind, payload :: LogsOne(st, NodeStep(cat, st, name, properties), kind, payload)
  {
    if name in cat.tables {
      var s := cat.tables[name];
      assert LogsOne(st, NodeStep(cat, st, name, properties), TableInsertion,
                     TableRows(s.tableId, [PaddedValues(s, PropertyRow(s, properties))]));
    }
  }

  lemma RelLogs(cat: Catalog, st: State, src: NodeFilter, dst: NodeFilter, relType: string,
                relProps: seq<(string, Literal)>)
    requires WellFormed(cat, st)
    ensures var st' := RelStep(cat, st, src, dst, relType, relProps);
            st' == st || exists kind, payload :: LogsOne(st, st', kind, payload)
  {
    var st' := RelStep(cat, st, src, dst, relType, relProps);
    if st' != st {
      var s, d, props := FindNode(st.live, src).value, FindNode(st.live, dst).value, PropValues(relProps);
      assert LogsOne(st, st', RelInsertion, RelEdge(cat.relTables[relType].tableId, s, d, props));
    }
  }

  /**
   One operation: it logs nothing, or a transaction that counts when complete, and perhaps when only
   its commit is missing.
   */
  ghost predicate Links(replay: seq<Record> -> Tables, st: State, st': State) {
    st' == st || (
      && |st'.log| == |st.log| + 3 && st'.log[..|st.log|] == st.log
      && replay(st'.log[..|st.log| + 1]) == st.live
      && (replay(st'.log[..|st.log| + 2]) == st.live || replay(st'.log[..|st.log| + 2]) == st'.live)
      && replay(st'.log) == st'.live)
  }

  /** The states j to n of a run. */
  ghost predicate Trace(replay: seq<Record> -> Tables, states: nat -> State, j: nat, n: nat)
    requires j <= n
  {
    if n == j then replay(states(j).log) == states(j).live
    else Trace(replay, states, j, n - 1) && Links(replay, states(n - 1), states(n))
  }

  /**
   What a crash that keeps k records of the log leaves is the state after m operations:
   all those whose records are complete, and possibly one whose commit alone is missing.
   */
  ghost predicate Survives(replay: seq<Record> -> Tables, states: nat -> State, n: nat, k: nat, m: nat)
    requires k <= |states(n).log| && m <= n
  {
    && replay(states(n).log[..k]) == states(m).live
    && |states(m).log| <= k + 1
    && (m < n ==> k < |states(m + 1).log|)
  }

  lemma {:induction false} TraceSurvives(replay: seq<Record> -> Tables, states: nat -> State, j: nat, n: nat, k: nat)
    returns (m: nat)
    requires j <= n && Trace(replay, states, j, n) && |states(j).log| <= k <= |states(n).log|
    ensures j <= m <= n && Survives(replay, states, n, k, m)
  {
    if n == j {
      m := j;
      assert states(j).log[..k] == states(j).log;
    } else if states(n) == states(n - 1) || k <= |states(n - 1).log| {
      m := TraceSurvives(replay, states, j, n - 1, k);
      m := SurvivesLonger(replay, states, n, k, m);
    } else {
      m := LastSurvives(replay, states, n, k);
    }
  }

  lemma SurvivesLonger(replay: seq<Record> -> Tables, states: nat -> State, n: nat, k: nat, before: nat)
    returns (m: nat)
    requires n > 0 && Links(replay, states(n - 1), states(n)) && k <= |states(n - 1).log| && before < n
    requires Survives(replay, states, n - 1, k, before)
    ensures before <= m <= n && k <= |states(n).log| && Survives(replay, states, n, k, m)
  {
    if states(n) == states(n - 1) {
      m := if before == n - 1 then n else before;
    } else {
      m := before;
      assert states(n).log[..k] == states(n - 1).log[..k];
    }
  }

  lemma LastSurvives(replay: seq<Record> -> Tables, states: nat -> State, n: nat, k: nat) returns (m: nat)
    requires n > 0 && Links(replay, states(n - 1), states(n)) && states(n) != states(n - 1)
    requires |states(n - 1).log| < k <= |states(n).log|
    ensures n - 1 <= m <= n && Survives(replay, states, n, k, m)
  {
    assert states(n).log[..|states(n).log|] == states(n).log;
    m := if replay(states(n).log[..k]) == states(n).live && k + 1 >= |states(n).log| then n else n - 1;
  }

  ghost function RunAt(cat: Catalog, st: State, ops: seq<Op>): nat -> State
    requires WellFormed(cat, st)
  {
    (i: nat) => Run(cat, st, if i <= |ops| then ops[..i] else ops)
  }

  /** From operation j on, the run has no checkpoint, crash or restart. */
  predicate OnlyCreations(ops: seq<Op>, j: nat) { j <= |ops| && forall i :: j <= i < |ops| ==> IsCreation(ops[i]) }

  lemma {:induction false} SavedStays(cat: Catalog, st: State, ops: seq<Op>, j: nat)
    requires WellFormed(cat, st) && OnlyCreations(ops, j)
    ensures Run(cat, st, ops).saved == Run(cat, st, ops[..j]).saved
    decreases |ops|
  {
    if j < |ops| {
      var front := ops[..|ops| - 1];
      assert front[..j] == ops[..j];
      SavedStays(cat, st, front, j);
      CreationLogs(cat, Run(cat, st, front), ops[|ops| - 1]);
    } else {
      assert ops[..j] == ops;
    }
  }

  ghost function ReplayFn(cat: Catalog, saved: Tables): seq<Record> -> Tables {
    (log: seq<Record>) => Replay(cat, saved, log)
  }

  /** States 1 to n are the steps of their operations, and safe ones. */
  ghost predicate SafeSteps(cat: Catalog, states: nat -> State, ops: seq<Op>, n: nat)
    requires n <= |ops|
  {
    n == 0 || (SafeSteps(cat, states, ops, n - 1) && SafeStep(cat, states(n - 1), ops[n - 1], states(n)))
  }

  ghost predicate SafeStep(cat: Catalog, st: State, op: Op, st': State) {
    WellFormed(cat, st) && Safe(cat, st, op) && st' == Step(cat, st, op)
  }

  lemma {:induction false} StepsAreTrace(cat: Catalog, saved: Tables, states: nat -> State, ops: seq<Op>, j: nat,
                                         n: nat)
    requires OnlyCreations(ops, j) && j <= n <= |ops| && SafeSteps(cat, states, ops, n)
          && RecoversOver(cat, saved, states(j))
    ensures Trace(ReplayFn(cat, saved), states, j, n) && RecoversOver(cat, saved, states(n))
  {
    if n > j {
      StepsAreTrace(cat, saved, states, ops, j, n - 1);
      StepLinks(cat, saved, states(n - 1), ops[n - 1], states(n));
      TraceOneMore(ReplayFn(cat, saved), states, j, n);
    } else {
      TraceStarts(cat, saved, states, j);
    }
  }

  ghost predicate RecoversOver(cat: Catalog, saved: Tables, st: State) { Recoverable(cat, st) && st.saved == saved }

  lemma TraceStarts(cat: Catalog, saved: Tables, states: nat -> State, j: nat)
    requires RecoversOver(cat, saved, states(j))
    ensures Trace(ReplayFn(cat, saved), states, j, j)
  {}

  lemma TraceOneMore(replay: seq<Record> -> Tables, states: nat -> State, j: nat, n: nat)
    requires j < n && Trace(replay, states, j, n - 1) && Links(replay, states(n - 1), states(n))
    ensures Trace(replay, states, j, n)
  {}

  lemma {:induction false} RunIsSteps(cat: Catalog, st: State, ops: seq<Op>, n: nat)
    requires WellFormed(cat, st) && n <= |ops| && SafeRun(cat, st, ops[..n])
    ensures SafeSteps(cat, RunAt(cat, st, ops), ops, n)
  {
    if n > 0 {
      SafeAt(cat, st, ops, n);
      RunIsSteps(cat, st, ops, n - 1);
    }
  }

  lemma SafeAt(cat: Catalog, st: State, ops: seq<Op>, n: nat)
    requires WellFormed(cat, st) && 0 < n <= |ops| && SafeRun(cat, st, ops[..n])
    ensures SafeRun(cat, st, ops[..n - 1])
    ensures SafeStep(cat, RunAt(cat, st, ops)(n - 1), ops[n - 1], RunAt(cat, st, ops)(n))
  {
    RunAtIs(cat, st, ops, n - 1);
    RunAtIs(cat, st, ops, n);
    TakeSnoc(ops, n);
    SafeLast(cat, st, ops[..n], ops[..n - 1], ops[n - 1]);
  }

  lemma TakeSnoc<T>(s: seq<T>, n: nat)
    requires 0 < n <= |s|
    ensures s[..n] == s[..n - 1] + [s[n - 1]]
  {}

  lemma SafeLast(cat: Catalog, st: State, ops: seq<Op>, front: seq<Op>, last: Op)
    requires WellFormed(cat, st) && ops == front + [last] && SafeRun(cat, st, ops)
    ensures SafeRun(cat, st, front) && SafeStep(cat, Run(cat, st, front), last, Run(cat, st, ops))
  {
    assert ops[..|ops| - 1] == front;
  }

  lemma StepLinks(cat: Catalog, saved: Tables, st: State, op: Op, st': State)
    requires RecoversOver(cat, saved, st) && IsCreation(op) && SafeStep(cat, st, op, st')
    ensures Links(ReplayFn(cat, saved), st, st') && RecoversOver(cat, saved, st')
  {
    StepRecovers(cat, st, op);
    CreationLogs(cat, st, op);
    if st != st' {
      var kind, payload :| LogsOne(st, st', kind, payload);
      TransactionLinks(cat, st, st', kind, payload);
    }
  }

  lemma TransactionLinks(cat: Catalog, st: State, st': State, kind: Kind, payload: Payload)
    requires Recoverable(cat, st) && Recoverable(cat, st') && !Torn(st.log, st.nextTx)
          && LogsOne(st, st', kind, payload)
    ensures Links(ReplayFn(cat, st.saved), st, st')
  {
    ReplayParts(cat, st.saved, st.log, st.live, Transaction(st.nextTx, st.nextLsn, kind, payload));
    DataReplayed(cat, st, st', kind, payload);
    PartsLink(cat, st.saved, st, st', Transaction(st.nextTx, st.nextLsn, kind, payload));
  }

  lemma DataReplayed(cat: Catalog, st: State, st': State, kind: Kind, payload: Payload)
    requires Recoverable(cat, st) && Recoverable(cat, st') && !Torn(st.log, st.nextTx)
          && LogsOne(st, st', kind, payload)
    ensures Replay(cat, st.saved, st'.log) == st'.live
         == ApplyFn(cat)(st.live, Transaction(st.nextTx, st.nextLsn, kind, payload)[1])
  {
    LoggedReplayFn(cat, st, kind, payload, st'.live);
  }

  lemma ReplayParts(cat: Catalog, saved: Tables, log: seq<Record>, live: Tables, t: seq<Record>)
    requires |t| == 3 && t[0].kind != Commit && !IsData(t[0]) && t[1].kind != Commit && Replay(cat, saved, log) == live
    ensures Replay(cat, saved, log + [t[0]]) == live
    ensures Replay(cat, saved, log + [t[0]] + [t[1]]) == live
         || Replay(cat, saved, log + [t[0]] + [t[1]]) == ApplyFn(cat)(live, t[1])
  {
    OnlyDataApplies(cat);
    PartsReplay(ApplyFn(cat), saved, log, t);
  }

  lemma PartsLink(cat: Catalog, saved: Tables, st: State, st': State, t: seq<Record>)
    requires |t| == 3 && st'.log == st.log + t && Replay(cat, saved, st'.log) == st'.live
    requires Replay(cat, saved, st.log + [t[0]]) == st.live
    requires Replay(cat, saved, st.log + [t[0]] + [t[1]]) == st.live
          || Replay(cat, saved, st.log + [t[0]] + [t[1]]) == st'.live
    ensures Links(ReplayFn(cat, saved), st, st')
  {
    PartsOfLog(st.log, st'.log, t);
  }

  lemma PartsOfLog(log: seq<Record>, log': seq<Record>, t: seq<Record>)
    requires log' == log + t && |t| == 3
    ensures log'[..|log|] == log && log'[..|log| + 1] == log + [t[0]] && log'[..|log| + 2] == log + [t[0]] + [t[1]]
  {}

  lemma PartsReplay(apply: (Tables, Record) -> Tables, saved: Tables, log: seq<Record>, t: seq<Record>)
    requires Inert(apply) && |t| == 3 && t[0].kind != Commit && !IsData(t[0]) && t[1].kind != Commit
    ensures var live := Fold(apply, saved, ToApply(log));
            && Fold(apply, saved, ToApply(log + [t[0]])) == live
            && (Fold(apply, saved, ToApply(log + [t[0]] + [t[1]])) == live
                || Fold(apply, saved, ToApply(log + [t[0]] + [t[1]])) == apply(live, t[1]))
  {
    OneRecord(apply, saved, log, t[0]);
    TwoRecords(apply, saved, log, t[0], t[1]);
  }

  /**
   After any safe run, a crash that drops records of the creations since operation j, where
   the last checkpoint or restart may be, leaves the state after a prefix of the run.
   */
  lemma CrashKeepsPrefix(cat: Catalog, st: State, ops: seq<Op>, j: nat, k: nat) returns (m: nat)
    requires Recoverable(cat, st) && SafeRun(cat, st, ops) && OnlyCreations(ops, j)
    requires |Run(cat, st, ops[..j]).log| <= k <= |Run(cat, st, ops).log|
    ensures j <= m <= |ops| && Step(cat, Run(cat, st, ops), CrashReopen(k)).live == Run(cat, st, ops[..m]).live
    ensures |Run(cat, st, ops[..m]).log| <= k + 1 && (m < |ops| ==> k < |Run(cat, st, ops[..m + 1]).log|)
  {
    m := PrefixSurvives(cat, st, ops, j, k);
    SavedStays(cat, st, ops, j);
    CrashReplays(cat, Run(cat, st, ops), k);
  }

  lemma PrefixSurvives(cat: Catalog, st: State, ops: seq<Op>, j: nat, k: nat) returns (m: nat)
    requires Recoverable(cat, st) && SafeRun(cat, st, ops) && OnlyCreations(ops, j)
    requires |Run(cat, st, ops[..j]).log| <= k <= |Run(cat, st, ops).log|
    ensures j <= m <= |ops|
    ensures ReplayFn(cat, Run(cat, st, ops[..j]).saved)(Run(cat, st, ops).log[..k]) == Run(cat, st, ops[..m]).live
    ensures |Run(cat, st, ops[..m]).log| <= k + 1 && (m < |ops| ==> k < |Run(cat, st, ops[..m + 1]).log|)
  {
    m := StatesSurvive(cat, st, ops, j, k);
    TakeAll(ops);
    RunAtIs(cat, st, ops, j);
    RunAtIs(cat, st, ops, |ops|);
    RunAtIs(cat, st, ops, m);
    var next := if m < |ops| then m + 1 else m;
    RunAtIs(cat, st, ops, next);
    SurvivesMeans(ReplayFn(cat, Run(cat, st, ops[..j]).saved), RunAt(cat, st, ops), |ops|, k, m,
                  Run(cat, st, ops), Run(cat, st, ops[..m]), Run(cat, st, ops[..next]));
  }

  lemma SurvivesMeans(replay: seq<Record> -> Tables, states: nat -> State, n: nat, k: nat, m: nat, end: State,
                      at: State, next: State)
    requires k <= |states(n).log| && m <= n && Survives(replay, states, n, k, m)
    requires states(n) == end && states(m) == at && (m < n ==> states(m + 1) == next)
    ensures k <= |end.log| && replay(end.log[..k]) == at.live && |at.log| <= k + 1 && (m < n ==> k < |next.log|)
  {}

  lemma TakeAll<T>(s: seq<T>)
    ensures s[..|s|] == s
  {}

  lemma StatesSurvive(cat: Catalog, st: State, ops: seq<Op>, j: nat, k: nat) returns (m: nat)
    requires Recoverable(cat, st) && SafeRun(cat, st, ops) && OnlyCreations(ops, j)
    requires |Run(cat, st, ops[..j]).log| <= k <= |Run(cat, st, ops).log|
    ensures j <= m <= |ops| && k <= |RunAt(cat, st, ops)(|ops|).log|
    ensures Survives(ReplayFn(cat, RunAt(cat, st, ops)(j).saved), RunAt(cat, st, ops), |ops|, k, m)
  {
    assert ops[..|ops|] == ops;
    RunAtIs(cat, st, ops, j);
    RunAtIs(cat, st, ops, |ops|);
    RecoversAt(cat, st, ops, j);
    RunIsSteps(cat, st, ops, |ops|);
    StepsAreTrace(cat, RunAt(cat, st, ops)(j).saved, RunAt(cat, st, ops), ops, j, |ops|);
    m := TraceSurvives(ReplayFn(cat, RunAt(cat, st, ops)(j).saved), RunAt(cat, st, ops), j, |ops|, k);
  }

  lemma {:induction false} RecoversAt(cat: Catalog, st: State, ops: seq<Op>, j: nat)
    requires Recoverable(cat, st) && SafeRun(cat, st, ops) && j <= |ops|
    ensures Recoverable(cat, Run(cat, st, ops[..j]))
    decreases |ops|
  {
    if j < |ops| {
      assert ops[..|ops| - 1][..j] == ops[..j];
      RecoversAt(cat, st, ops[..|ops| - 1], j);
    } else {
      assert ops[..j] == ops;
      RunRecovers(cat, st, ops);
    }
  }

  lemma LastGrows(cat: Catalog, st: State, ops: seq<Op>)
    requires WellFormed(cat, st) && ops != [] && IsCreation(ops[|ops| - 1])
    ensures Run(cat, st, ops[..|ops| - 1]).log <= Run(cat, st, ops).log
  {
    CreationLogs(cat, Run(cat, st, ops[..|ops| - 1]), ops[|ops| - 1]);
  }

  lemma {:induction false} LogGrows(cat: Catalog, st: State, ops: seq<Op>, j: nat)
    requires WellFormed(cat, st) && OnlyCreations(ops, j)
    ensures Run(cat, st, ops[..j]).log <= Run(cat, st, ops).log
    decreases |ops|
  {
    if j < |ops| {
      var front := ops[..|ops| - 1];
      assert front[..j] == ops[..j];
      LogGrows(cat, st, front, j);
      LastGrows(cat, st, ops);
    } else {
      assert ops[..j] == ops;
    }
  }

  /** The same for the records that a log file still holds; a whole log gives the whole run. */
  lemma PrefixReplays(cat: Catalog, st: State, ops: seq<Op>, j: nat, k: nat) returns (m: nat)
    requires Recoverable(cat, st) && SafeRun(cat, st, ops) && OnlyCreations(ops, j)
    requires |Run(cat, st, ops[..j]).log| <= k <= |Run(cat, st, ops).log|
    ensures j <= m <= |ops|
         && Replay(cat, Run(cat, st, ops).saved, Run(cat, st, ops).log[..k]) == Run(cat, st, ops[..m]).live
    ensures m < |ops| ==> k < |Run(cat, st, ops[..m + 1]).log|
    ensures k == |Run(cat, st, ops).log| ==> Run(cat, st, ops[..m]).live == Run(cat, st, ops).live
  {
    m := CrashKeepsPrefix(cat, st, ops, j, k);
    CrashReplays(cat, Run(cat, st, ops), k);
    if k == |Run(cat, st, ops).log| {
      assert Run(cat, st, ops).log[..k] == Run(cat, st, ops).log;
      RunRecovers(cat, st, ops);
    }
  }

  lemma RunAtIs(cat: Catalog, st: State, ops: seq<Op>, i: nat)
    requires WellFormed(cat, st) && i <= |ops|
    ensures RunAt(cat, st, ops)(i) == Run(cat, st, ops[..i])
  {}

  lemma CrashReplays(cat: Catalog, st: State, k: nat)
    requires WellFormed(cat, st) && k <= |st.log|
    ensures Step(cat, st, CrashReopen(k)).live == ReplayFn(cat, st.saved)(st.log[..k])
  {}

  // ------------------------------------------------------------------ a torn transaction whose id is used again

  /** The next transaction with the id of a torn one commits the torn one as well. */
  lemma TornTransactionReturns(cat: Catalog, st: State, log: seq<Record>, b: Record, d: Record, kind: Kind,
                               payload: Payload, live: Tables)
    requires st.log == log + [b, d] && b.kind == BeginTransaction && !IsData(b) && d.kind != Commit
    requires b.txId == d.txId == st.nextTx && kind != Commit
    requires st.nextTx !in CommittedOf(log) && !Torn(log, st.nextTx)
    ensures Replay(cat, st.saved, st.log) == Replay(cat, st.saved, log)
    ensures Replay(cat, st.saved, Logged(st, kind, payload, live).log)
         == ApplyFn(cat)(ApplyFn(cat)(Replay(cat, st.saved, log), d), Record(kind, st.nextTx, st.nextLsn + 1, payload))
  {
    var t := Transaction(st.nextTx, st.nextLsn, kind, payload);
    TransactionShape(st.nextTx, st.nextLsn, kind, payload, t);
    TornReplays(cat, st.saved, st.log, log, b, d, t);
  }

  /** Begin, some record, commit, all of the same transaction. */
  ghost predicate IsTransaction(t: seq<Record>, tx: nat) {
    && |t| == 3 && t[0].kind == BeginTransaction && t[1].kind != Commit && t[2].kind == Commit
    && !IsData(t[0]) && !IsData(t[2]) && t[0].txId == t[1].txId == t[2].txId == tx
  }

  lemma TransactionShape(tx: nat, lsn: nat, kind: Kind, payload: Payload, t: seq<Record>)
    requires t == Transaction(tx, lsn, kind, payload) && kind != Commit
    ensures IsTransaction(t, tx) && t[1] == Record(kind, tx, lsn + 1, payload)
  {}

  lemma TornReplays(cat: Catalog, saved: Tables, log': seq<Record>, log: seq<Record>, b: Record, d: Record,
                    t: seq<Record>)
    requires log' == log + [b, d] && b.kind == BeginTransaction && !IsData(b) && d.kind != Commit
    requires IsTransaction(t, d.txId) && b.txId == d.txId && d.txId !in CommittedOf(log) && !Torn(log, d.txId)
    ensures Replay(cat, saved, log') == Replay(cat, saved, log)
    ensures Replay(cat, saved, log' + t) == ApplyFn(cat)(ApplyFn(cat)(Replay(cat, saved, log), d), t[1])
  {
    OnlyDataApplies(cat);
    OneByOne(log, b, d, t);
    TwoRecords(ApplyFn(cat), saved, log, b, d);
    TornFold(ApplyFn(cat), saved, log, b, d, t);
  }

  lemma OneByOne<T>(s: seq<T>, a: T, b: T, t: seq<T>)
    requires |t| == 3
    ensures s + [a, b] == s + [a] + [b] && (s + [a, b]) + t == s + [a] + [b] + [t[0]] + [t[1]] + [t[2]]
  {}

  lemma TornFold(apply: (Tables, Record) -> Tables, saved: Tables, log: seq<Record>, b: Record, d: Record,
                 t: seq<Record>)
    requires Inert(apply) && b.kind == BeginTransaction && !IsData(b) && d.kind != Commit
    requires IsTransaction(t, d.txId) && b.txId == d.txId && d.txId !in CommittedOf(log) && !Torn(log, d.txId)
    ensures Fold(apply, saved, ToApply(log + [b] + [d] + [t[0]] + [t[1]] + [t[2]]))
         == apply(apply(Fold(apply, saved, ToApply(log)), d), t[1])
  {
    TornCommits(apply, saved, log, b, d, t[0], t[1], t[2]);
  }

  // ------------------------------------------------------------------ a log replayed over tables that already hold it

  /** Every node table keeps its schema and its keys. */
  ghost predicate KeysGrow(ts: Tables, ts': Tables) {
    forall n :: n in ts.nodes ==>
             n in ts'.nodes && ts'.nodes[n].schema == ts.nodes[n].schema
               && ts.nodes[n].pkIndex.Keys <= ts'.nodes[n].pkIndex.Keys
  }

  /** What was inserted or rejected once is rejected ever after. */
  lemma RowStays(t: Table, t': Table, row: Row)
    requires |t.data.columns| == |t.schema.columns| && t'.schema == t.schema && |t'.data.columns| == |t'.schema.columns|
    requires Inserted(t, row).pkIndex.Keys <= t'.pkIndex.Keys
    ensures Inserted(t', row) == t'
  {
    if Accepts(t, row) {
      assert KeyOf(t.schema, RowValues(t.schema, row)) in Inserted(t, row).pkIndex.Keys;
    }
  }

  lemma {:induction false} RowsStay(t: Table, t': Table, rows: seq<seq<Value>>)
    requires |t.data.columns| == |t.schema.columns| && t'.schema == t.schema && |t'.data.columns| == |t'.schema.columns|
    requires InsertRows(t, rows).pkIndex.Keys <= t'.pkIndex.Keys
    ensures InsertRows(t', rows) == t'
  {
    if rows != [] {
      var front, row := rows[..|rows| - 1], RowFromValues(t.schema, rows[|rows| - 1]);
      assert InsertRows(t, front).pkIndex.Keys <= InsertRows(t, rows).pkIndex.Keys;
      RowsStay(t, t', front);
      RowStays(InsertRows(t, front), t', row);
    }
  }

  lemma {:induction false} RowsGrow(t: Table, rows: seq<seq<Value>>)
    requires |t.data.columns| == |t.schema.columns|
    ensures t.pkIndex.Keys <= InsertRows(t, rows).pkIndex.Keys
  {
    if rows != [] { RowsGrow(t, rows[..|rows| - 1]); }
  }

  /** An edge that its table accepts. */
  ghost predicate AddsEdge(cat: Catalog, r: Record) {
    r.payload.RelEdge? && match NameById(cat, r.payload.relTableId)
      case Some(n) => n in cat.relTables && |r.payload.props| == |cat.relTables[n].columns|
      case None => false
  }

  lemma RejectedEdge(cat: Catalog, ts: Tables, r: Record)
    requires TablesOk(cat, ts) && r.payload.RelEdge? && !AddsEdge(cat, r)
    ensures Apply(cat, ts, r) == ts
  {
    match NameById(cat, r.payload.relTableId)
    case None =>
    case Some(n) =>
      if n in ts.rels { assert ts.rels[n := ts.rels[n]] == ts.rels; }
  }

  lemma ApplyGrows(cat: Catalog, ts: Tables, r: Record)
    requires TablesOk(cat, ts)
    ensures KeysGrow(ts, Apply(cat, ts, r))
  {
    if r.payload.TableRows? {
      match NameById(cat, r.payload.tableId)
      case None =>
      case Some(n) =>
        if n in ts.nodes {
          ApplyRows(cat, ts, r, n);
          RowsGrow(ts.nodes[n], r.payload.rows);
        }
    }
  }

  lemma ApplyStays(cat: Catalog, ts: Tables, ts': Tables, r: Record)
    requires TablesOk(cat, ts) && TablesOk(cat, ts') && !AddsEdge(cat, r) && KeysGrow(Apply(cat, ts, r), ts')
    ensures Apply(cat, ts', r) == ts'
  {
    if r.payload.TableRows? {
      match NameById(cat, r.payload.tableId)
      case None =>
      case Some(n) =>
        if n in ts.nodes {
          ApplyRows(cat, ts, r, n);
          ApplyRows(cat, ts', r, n);
          WithRowsStays(ts, ts', n, r.payload.rows);
        }
    } else if r.payload.RelEdge? {
      RejectedEdge(cat, ts', r);
    }
  }

  function WithRows(ts: Tables, n: string, rows: seq<seq<Value>>): Tables
    requires n in ts.nodes && |ts.nodes[n].data.columns| == |ts.nodes[n].schema.columns|
  {
    ts.(nodes := ts.nodes[n := InsertRows(ts.nodes[n], rows)])
  }

  lemma WithRowsStays(ts: Tables, ts': Tables, n: string, rows: seq<seq<Value>>)
    requires n in ts.nodes && |ts.nodes[n].data.columns| == |ts.nodes[n].schema.columns|
    requires n in ts'.nodes && |ts'.nodes[n].data.columns| == |ts'.nodes[n].schema.columns|
    requires KeysGrow(WithRows(ts, n, rows), ts')
    ensures WithRows(ts', n, rows) == ts'
  {
    assert WithRows(ts, n, rows).nodes[n] == InsertRows(ts.nodes[n], rows);
    RowsStay(ts.nodes[n], ts'.nodes[n], rows);
    assert ts'.nodes[n := ts'.nodes[n]] == ts'.nodes;
  }

  lemma ApplyRows(cat: Catalog, ts: Tables, r: Record, n: string)
    requires TablesOk(cat, ts) && r.payload.TableRows? && NameById(cat, r.payload.tableId) == Some(n) && n in ts.nodes
    ensures |ts.nodes[n].data.columns| == |ts.nodes[n].schema.columns|
    ensures Apply(cat, ts, r) == WithRows(ts, n, r.payload.rows)
  {}

  ghost function Applied(cat: Catalog, ts: Tables, records: seq<Record>): (ts': Tables)
    requires TablesOk(cat, ts)
    ensures TablesOk(cat, ts')
  {
    FoldOk(cat, ts, records);
    Fold(ApplyFn(cat), ts, records)
  }

  lemma AppliedLast(cat: Catalog, ts: Tables, records: seq<Record>)
    requires TablesOk(cat, ts) && records != []
    ensures Applied(cat, ts, records) == Apply(cat, Applied(cat, ts, records[..|records| - 1]), records[|records| - 1])
  {}

  lemma {:induction false} AppliedStays(cat: Catalog, ts: Tables, records: seq<Record>, ts': Tables, r: Record)
    requires TablesOk(cat, ts) && TablesOk(cat, ts') && r in records && !AddsEdge(cat, r)
    requires KeysGrow(Applied(cat, ts, records), ts')
    ensures Apply(cat, ts', r) == ts'
  {
    var front, last := records[..|records| - 1], records[|records| - 1];
    AppliedLast(cat, ts, records);
    if r == last {
      ApplyStays(cat, Applied(cat, ts, front), ts', r);
    } else {
      ApplyGrows(cat, Applied(cat, ts, front), last);
      KeysGrowTrans(Applied(cat, ts, front), Applied(cat, ts, records), ts');
      AppliedStays(cat, ts, front, ts', r);
    }
  }

  lemma KeysGrowTrans(a: Tables, b: Tables, c: Tables)
    requires KeysGrow(a, b) && KeysGrow(b, c)
    ensures KeysGrow(a, c)
  {}

  lemma {:induction false} NothingNew(cat: Catalog, ts: Tables, records: seq<Record>)
    requires TablesOk(cat, ts) && forall r :: r in records ==> Apply(cat, ts, r) == ts
    ensures Applied(cat, ts, records) == ts
  {
    if records != [] {
      NothingNew(cat, ts, records[..|records| - 1]);
      AppliedLast(cat, ts, records);
    }
  }

  ghost function EdgeCount(cat: Catalog, ts: Tables, name: string): nat
    requires TablesOk(cat, ts) && name in cat.relTables
  {
    ts.rels[name].nextRelId
  }

  ghost predicate AddsTo(cat: Catalog, r: Record, name: string) {
    AddsEdge(cat, r) && NameById(cat, r.payload.relTableId) == Some(name)
  }

  lemma ApplyCounts(cat: Catalog, ts: Tables, r: Record, name: string)
    requires TablesOk(cat, ts) && name in cat.relTables
    ensures EdgeCount(cat, Apply(cat, ts, r), name) == EdgeCount(cat, ts, name) + if AddsTo(cat, r, name) then 1 else 0
  {
    if r.payload.RelEdge? && !AddsEdge(cat, r) { RejectedEdge(cat, ts, r); }
  }

  lemma LastCounts(cat: Catalog, ts: Tables, records: seq<Record>, name: string)
    requires TablesOk(cat, ts) && name in cat.relTables && records != []
    ensures EdgeCount(cat, Applied(cat, ts, records), name)
         == EdgeCount(cat, Applied(cat, ts, records[..|records| - 1]), name)
              + if AddsTo(cat, records[|records| - 1], name) then 1 else 0
  {
    AppliedLast(cat, ts, records);
    ApplyCounts(cat, Applied(cat, ts, records[..|records| - 1]), records[|records| - 1], name);
  }

  lemma {:induction false} EdgesGrow(cat: Catalog, ts: Tables, records: seq<Record>, name: string)
    requires TablesOk(cat, ts) && name in cat.relTables
    ensures EdgeCount(cat, Applied(cat, ts, records), name) >= EdgeCount(cat, ts, name)
  {
    if records != [] {
      EdgesGrow(cat, ts, records[..|records| - 1], name);
      LastCounts(cat, ts, records, name);
    }
  }

  lemma {:induction false} EdgesAddUp(cat: Catalog, ts: Tables, records: seq<Record>, r: Record, name: string)
    requires TablesOk(cat, ts) && name in cat.relTables && r in records && AddsTo(cat, r, name)
    ensures EdgeCount(cat, Applied(cat, ts, records), name) > EdgeCount(cat, ts, name)
  {
    var front, last := records[..|records| - 1], records[|records| - 1];
    LastCounts(cat, ts, records, name);
    if r == last {
      EdgesGrow(cat, ts, front, name);
    } else {
      assert r in front;
      EdgesAddUp(cat, ts, front, r, name);
    }
  }

  /**
   A crash after the pages are flushed and before the log is truncated replays the log
   over tables that already hold it. That changes nothing exactly if the log adds no edge.
   */
  lemma SecondReplay(cat: Catalog, saved: Tables, log: seq<Record>)
    requires TablesOk(cat, saved)
    ensures Replay(cat, Replay(cat, saved, log), log) == Replay(cat, saved, log)
       <==> forall r :: r in ToApply(log) ==> !AddsEdge(cat, r)
  {
    var records := ToApply(log);
    var once := Applied(cat, saved, records);
    if r :| r in records && AddsEdge(cat, r) {
      var name := NameById(cat, r.payload.relTableId).value;
      assert AddsTo(cat, r, name);
      EdgesAddUp(cat, once, records, r, name);
    } else {
      forall r | r in records ensures Apply(cat, once, r) == once {
        AppliedStays(cat, saved, records, once, r);
      }
      NothingNew(cat, once, records);
    }
  }

  /** A log that creates one edge, replayed over tables that hold it, creates it twice. */
  lemma EdgeIsDoubled(cat: Catalog, saved: Tables, name: string, src: nat, dst: nat, props: seq<Value>, tx: nat,
                      lsn: nat)
    requires CatalogOk(cat) && TablesOk(cat, saved) && name in cat.relTables && |props| == |cat.relTables[name].columns|
    ensures var log := Transaction(tx, lsn, RelInsertion, RelEdge(cat.relTables[name].tableId, src, dst, props));
            Replay(cat, Replay(cat, saved, log), log) != Replay(cat, saved, log)
  {
    var log := Transaction(tx, lsn, RelInsertion, RelEdge(cat.relTables[name].tableId, src, dst, props));
    RelTableById(cat, name);
    CommittedLast(log[..2], log[2], log);
    SelectsOwn(log, CommittedOf(log), 1);
    assert AddsEdge(cat, log[1]);
    SecondReplay(cat, saved, log);
  }

  lemma CommittedLast(front: seq<Record>, last: Record, log: seq<Record>)
    requires log == front + [last] && last.kind == Commit
    ensures last.txId in CommittedOf(log)
  {
    CommittedSnoc(front, last);
  }

  lemma {:induction false} SelectsOwn(log: seq<Record>, committed: set<nat>, i: nat)
    requires i < |log| && log[i].txId in committed
    ensures log[i] in Select(log, committed)
  {
    if i < |log| - 1 { SelectsOwn(log[..|log| - 1], committed, i); }
  }

  // ------------------------------------------------------------------ where recovery fails

  const PERSON: Schema := Schema(0, [ColumnDef("id", TInt64), ColumnDef("age", TInt64)], ["id"])

  function OnePersonTable(): Catalog { Catalog(map["Person" := PERSON], map[]) }

  function NoPersons(): Tables { Tables(map["Person" := EmptyTable(PERSON)], map[]) }

  function FreshState(): State { State(NoPersons(), [], NoPersons(), 1, 1) }

  function PersonRow(id: Value, age: Value): Row { map["id" := id, "age" := age] }

  lemma PersonColumns(row: Row)
    ensures Names(PERSON) == ["id", "age"] && SchemaOk(PERSON)
    ensures AllPresent(PERSON, row) <==> "id" in row && "age" in row
    ensures Position(Names(PERSON), "id") == Some(0) && Position(Names(PERSON), "age") == Some(1)
  {
    assert PERSON.columns[0].name == "id" && PERSON.columns[1].name == "age";
    assert Names(PERSON) == ["id", "age"];
    assert Names(PERSON)[0] == "id" && Names(PERSON)[1] == "age";
    assert Position(["id", "age"][1..], "age") == Some(0) by { assert ["id", "age"][1..] == ["age"]; }
    assert "id" != "age" by { assert |"id"| == 2 && |"age"| == 3; }
  }

  /** Any number and any age or none make an acceptable person, unless the number is taken. */
  lemma PersonAccepted(t: Table, id: int, age: Value)
    requires t.schema == PERSON && (age == Null || age.Int64?)
    ensures Accepts(t, PersonRow(Int64(id), age)) <==> [Int64(id)] !in t.pkIndex
  {
    var row := PersonRow(Int64(id), age);
    PersonColumns(row);
    PersonKey(row);
  }

  lemma PersonKey(row: Row)
    requires "id" in row && "age" in row
    ensures AllPresent(PERSON, row) && KeyOf(PERSON, RowValues(PERSON, row)) == [row["id"]]
  {
    PersonColumns(row);
    var values := RowValues(PERSON, row);
    assert values[0] == row["id"];
    assert PERSON.primaryKey[0] == "id" && PERSON.primaryKey[1..] == [];
    assert KeyFrom(PERSON, PERSON.primaryKey[1..], values) == [];
  }

  /** A database with a table of persons that can be recovered; the fresh one is one. */
  ghost predicate HasPersons(cat: Catalog, st: State) {
    Recoverable(cat, st) && "Person" in cat.tables && cat.tables["Person"] == PERSON && !Torn(st.log, st.nextTx)
  }

  lemma FreshHasPersons()
    ensures HasPersons(OnePersonTable(), FreshState()) && Settled(FreshState().log)
  {
    PersonColumns(map[]);
    assert PERSON.primaryKey[0] in Names(PERSON);
    assert TableOk(EmptyTable(PERSON));
  }

  /** Leaving a column out: the statement is rejected, but its padded row is in the log and replay inserts it. */
  lemma MissingColumnComesBack(cat: Catalog, st: State, id: int)
    requires HasPersons(cat, st) && [Int64(id)] !in st.live.nodes["Person"].pkIndex
    ensures var st' := NodeStep(cat, st, "Person", [("id", LInt64(id))]);
            st'.live == st.live && !Recoverable(cat, st')
  {
    var properties, row := [("id", LInt64(id))], map["id" := Int64(id)];
    PersonColumns(row);
    OneProperty("id", LInt64(id));
    PaddedPerson(row);
    PersonAccepted(st.live.nodes["Person"], id, Null);
    NodeStepRecovers(cat, st, "Person", properties);
    assert Inserted(st.live.nodes["Person"], row) == st.live.nodes["Person"];
    SameLive(st.live, "Person", row);
  }

  /** Naming a column that does not exist has the same effect: the log forgets the name that got the row rejected. */
  lemma UnknownColumnComesBack(cat: Catalog, st: State, id: int)
    requires HasPersons(cat, st) && [Int64(id)] !in st.live.nodes["Person"].pkIndex
    ensures var st' := NodeStep(cat, st, "Person", [("id", LInt64(id)), ("name", LString("Ann"))]);
            st'.live == st.live && !Recoverable(cat, st')
  {
    var properties := [("id", LInt64(id)), ("name", LString("Ann"))];
    var row := map["id" := Int64(id), "name" := String("Ann")];
    PersonColumns(row);
    assert |"name"| == 4 && |"id"| == 2 && |"age"| == 3;
    IdAndName(id);
    PaddedPerson(row);
    PersonAccepted(st.live.nodes["Person"], id, Null);
    NodeStepRecovers(cat, st, "Person", properties);
    SameLive(st.live, "Person", row);
  }

  lemma IdAndName(id: int)
    ensures PropertyRow(PERSON, [("id", LInt64(id)), ("name", LString("Ann"))])
         == map["id" := Int64(id), "name" := String("Ann")]
  {
    var properties := [("id", LInt64(id)), ("name", LString("Ann"))];
    OneProperty("id", LInt64(id));
    assert properties[..1] == [("id", LInt64(id))];
    assert Promote(PERSON, "name", LString("Ann")) == String("Ann");
  }

  lemma OneProperty(name: string, l: Literal)
    ensures PropertyRow(PERSON, [(name, l)]) == map[name := Promote(PERSON, name, l)]
    ensures name == "id" ==> Promote(PERSON, name, l) == LiteralToValue(l)
  {
    PersonColumns(map[]);
    assert [(name, l)][..0] == [];
  }

  lemma SameLive(ts: Tables, name: string, row: Row)
    requires name in ts.nodes && |ts.nodes[name].data.columns| == |ts.nodes[name].schema.columns|
    requires !Accepts(ts.nodes[name], row)
    ensures WithRow(ts, name, row) == ts
  {
    assert ts.nodes[name := ts.nodes[name]] == ts.nodes;
  }

  lemma PaddedPerson(row: Row)
    requires "id" in row
    ensures PaddedRow(PERSON, row) == PersonRow(row["id"], if "age" in row then row["age"] else Null)
  {
    PersonColumns(row);
    var values := PaddedValues(PERSON, row);
    assert Names(PERSON)[..2] == ["id", "age"] && values[..2] == values;
  }

  /** The transaction that creates one person. */
  lemma PersonStep(cat: Catalog, st: State, id: int, age: int)
    requires WellFormed(cat, st) && "Person" in cat.tables && cat.tables["Person"] == PERSON
    ensures NodeStep(cat, st, "Person", [("id", LInt64(id)), ("age", LInt64(age))])
         == Logged(st, TableInsertion, TableRows(0, [[Int64(id), Int64(age)]]),
                   WithRow(st.live, "Person", PersonRow(Int64(id), Int64(age))))
  {
    IdAndAge(id, age);
  }

  lemma IdAndAge(id: int, age: int)
    ensures PropertyRow(PERSON, [("id", LInt64(id)), ("age", LInt64(age))]) == PersonRow(Int64(id), Int64(age))
    ensures PaddedValues(PERSON, PersonRow(Int64(id), Int64(age))) == [Int64(id), Int64(age)]
  {
    var properties := [("id", LInt64(id)), ("age", LInt64(age))];
    PersonColumns(map[]);
    OneProperty("id", LInt64(id));
    assert properties[..1] == [("id", LInt64(id))];
    assert Promote(PERSON, "age", LInt64(age)) == Int64(age);
  }

  lemma ApplyPerson(cat: Catalog, ts: Tables, id: int, age: int, r: Record)
    requires CatalogOk(cat) && TablesOk(cat, ts) && "Person" in cat.tables && cat.tables["Person"] == PERSON
    requires r.payload == TableRows(0, [[Int64(id), Int64(age)]])
    ensures TablesOk(cat, WithRow(ts, "Person", PersonRow(Int64(id), Int64(age))))
    ensures ApplyFn(cat)(ts, r) == WithRow(ts, "Person", PersonRow(Int64(id), Int64(age)))
  {
    var row, values := PersonRow(Int64(id), Int64(age)), [Int64(id), Int64(age)];
    ApplyNode(cat, ts, "Person", values, r);
    RowFromPerson(id, age);
    WithRowOk(cat, ts, "Person", row);
    ApplyFnApplies(cat, ts, r);
  }

  lemma RowFromPerson(id: int, age: int)
    ensures RowFromValues(PERSON, [Int64(id), Int64(age)]) == PersonRow(Int64(id), Int64(age))
  {
    var row := PersonRow(Int64(id), Int64(age));
    PersonColumns(row);
    assert PaddedValues(PERSON, row) == [Int64(id), Int64(age)];
    PaddedPerson(row);
  }

  lemma ApplyFnApplies(cat: Catalog, ts: Tables, r: Record)
    requires TablesOk(cat, ts)
    ensures ApplyFn(cat)(ts, r) == Apply(cat, ts, r)
  {}

  function TwoPersons(id: int, other: int): seq<Op> {
    [CreateNode("Person", [("id", LInt64(id)), ("age", LInt64(1))]), CrashReopen(2),
     CreateNode("Person", [("id", LInt64(other)), ("age", LInt64(2))])]
  }

  /**
   Transaction 1 is torn by a crash, and after the restart transaction 1 is used again:
   its commit brings the lost person back on the next replay.
   */
  lemma TornPersonComesBack(cat: Catalog, st: State, id: int, other: int)
    requires HasPersons(cat, st) && st.log == [] && st.nextTx == 1 && id != other
    requires [Int64(id)] !in st.live.nodes["Person"].pkIndex && [Int64(other)] !in st.live.nodes["Person"].pkIndex
    ensures !Recoverable(cat, Run(cat, st, TwoPersons(id, other)))
  {
    ThreeSteps(cat, st, TwoPersons(id, other));
    PersonStep(cat, st, id, 1);
    var st1 := NodeStep(cat, st, "Person", [("id", LInt64(id)), ("age", LInt64(1))]);
    var st2 := TornFirst(cat, st, st1, TableRows(0, [[Int64(id), Int64(1)]]));
    PersonStep(cat, st2, other, 2);
    var first, second := PersonRow(Int64(id), Int64(1)), PersonRow(Int64(other), Int64(2));
    SecondPerson(cat, st, st2, id, other, WithRow(st.live, "Person", second));
    TwoRowsOrOne(st.live, id, other);
  }

  /** The first transaction, cut off before its commit: memory is as before, the log is not. */
  lemma TornFirst(cat: Catalog, st: State, st1: State, payload: Payload) returns (st2: State)
    requires Recoverable(cat, st) && WellFormed(cat, st1) && st.log == [] && st.nextTx == 1
    requires st1 == Logged(st, TableInsertion, payload, st1.live)
    ensures st2 == Step(cat, st1, CrashReopen(2))
    ensures st2 == State(st.saved, [BeginRecord(1, st.nextLsn), Record(TableInsertion, 1, st.nextLsn + 1, payload)],
                         st.live, 1, 1)
  {
    var b, d := BeginRecord(1, st.nextLsn), Record(TableInsertion, 1, st.nextLsn + 1, payload);
    st2 := CrashAt(cat, st1, 2);
    assert st1.log[..2] == [b, d];
    TornReplay(cat, st.saved, b, d);
  }

  lemma CrashAt(cat: Catalog, st: State, keep: nat) returns (st': State)
    requires WellFormed(cat, st) && keep <= |st.log|
    ensures st' == Step(cat, st, CrashReopen(keep))
         == State(st.saved, st.log[..keep], Replay(cat, st.saved, st.log[..keep]), 1, 1)
  {
    st' := Step(cat, st, CrashReopen(keep));
  }

  lemma TornReplay(cat: Catalog, saved: Tables, b: Record, d: Record)
    requires b.kind == BeginTransaction && !IsData(b) && d.kind != Commit
    ensures Replay(cat, saved, []) == saved && Replay(cat, saved, [b, d]) == saved
  {
    assert [] + [b] + [d] == [b, d];
    OnlyDataApplies(cat);
    TwoRecords(ApplyFn(cat), saved, [], b, d);
    assert ToApply([]) == [];
  }

  function PersonRecord(id: int, lsn: nat, age: int): Record {
    Record(TableInsertion, 1, lsn, TableRows(0, [[Int64(id), Int64(age)]]))
  }

  /** Replay then inserts both persons. */
  lemma SecondPerson(cat: Catalog, st: State, st2: State, id: int, other: int, live: Tables)
    requires HasPersons(cat, st) && st.log == []
    requires st2 == State(st.saved, [BeginRecord(1, st.nextLsn), PersonRecord(id, st.nextLsn + 1, 1)], st.live, 1, 1)
    requires |st.live.nodes["Person"].data.columns| == 2
    ensures |WithRow(st.live, "Person", PersonRow(Int64(id), Int64(1))).nodes["Person"].data.columns| == 2
    ensures Replay(cat, st2.saved, Logged(st2, TableInsertion, TableRows(0, [[Int64(other), Int64(2)]]), live).log)
         == WithRow(WithRow(st.live, "Person", PersonRow(Int64(id), Int64(1))), "Person",
                    PersonRow(Int64(other), Int64(2)))
  {
    var b, d := BeginRecord(1, st.nextLsn), PersonRecord(id, st.nextLsn + 1, 1);
    assert st2.log == [] + [b, d];
    TornTransactionReturns(cat, st2, [], b, d, TableInsertion, TableRows(0, [[Int64(other), Int64(2)]]), live);
    ApplyPerson(cat, st.live, id, 1, d);
    ApplyPerson(cat, WithRow(st.live, "Person", PersonRow(Int64(id), Int64(1))), other, 2, PersonRecord(other, 2, 2));
  }

  lemma TwoRowsOrOne(ts: Tables, id: int, other: int)
    requires "Person" in ts.nodes && ts.nodes["Person"].schema == PERSON && TableOk(ts.nodes["Person"]) && id != other
    requires [Int64(id)] !in ts.nodes["Person"].pkIndex && [Int64(other)] !in ts.nodes["Person"].pkIndex
    ensures var first, second := PersonRow(Int64(id), Int64(1)), PersonRow(Int64(other), Int64(2));
            && |WithRow(ts, "Person", first).nodes["Person"].data.columns| == 2
            && WithRow(WithRow(ts, "Person", first), "Person", second) != WithRow(ts, "Person", second)
  {
    var t, first, second := ts.nodes["Person"], PersonRow(Int64(id), Int64(1)), PersonRow(Int64(other), Int64(2));
    PersonAccepted(t, id, Int64(1));
    PersonAccepted(t, other, Int64(2));
    var t' := Inserted(t, first);
    PersonAccepted(t', other, Int64(2));
    PersonKey(first);
    assert [Int64(id)] != [Int64(other)] by { assert [Int64(id)][0] != [Int64(other)][0]; }
    assert [Int64(other)] !in t'.pkIndex;
    assert Inserted(t', second).data.rowCount == t.data.rowCount + 2;
    assert WithRow(WithRow(ts, "Person", first), "Person", second).nodes["Person"].data.rowCount == t.data.rowCount + 2;
    assert WithRow(ts, "Person", second).nodes["Person"].data.rowCount == t.data.rowCount + 1;
  }

  lemma ThreeSteps(cat: Catalog, st: State, ops: seq<Op>)
    requires WellFormed(cat, st) && |ops| == 3
    ensures WellFormed(cat, Step(cat, st, ops[0])) && WellFormed(cat, Step(cat, Step(cat, st, ops[0]), ops[1]))
    ensures Run(cat, st, ops) == Step(cat, Step(cat, Step(cat, st, ops[0]), ops[1]), ops[2])
  {
    StepWellFormed(cat, st, ops[0]);
    StepWellFormed(cat, Step(cat, st, ops[0]), ops[1]);
    assert ops[..2][..1][..0] == [] && ops[..2][..1][0] == ops[0];
    assert ops[..2][1] == ops[1];
    assert Run(cat, st, ops[..2][..1]) == Step(cat, st, ops[0]);
    assert Run(cat, st, ops[..2]) == Step(cat, Step(cat, st, ops[0]), ops[1]);
  }
}
