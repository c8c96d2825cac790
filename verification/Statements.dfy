/** What the creating statements and the log's records do, told by the cells, edges and records they leave. */
module Statements {
  import opened Wrappers
  import opened Values
  import opened NodeTable
  import opened CsrGroups
  import opened Wal
  import opened Recovery

  /** Begin, one change and commit under the next id and with the next numbers, behind the old log. */
  ghost predicate LogsChange(st: State, st': State, kind: Kind, payload: Payload) {
    var n := |st.log|;
    && st'.nextTx == st.nextTx + 1 && st'.nextLsn == st.nextLsn + 3
    && |st'.log| == n + 3 && st'.log[..n] == st.log
    && st'.log[n] == Record(BeginTransaction, st.nextTx, st.nextLsn, TxPayload(st.nextTx))
    && st'.log[n + 1] == Record(kind, st.nextTx, st.nextLsn + 1, payload)
    && st'.log[n + 2] == Record(Commit, st.nextTx, st.nextLsn + 2, TxPayload(st.nextTx))
  }

  lemma LoggedLogs(st: State, kind: Kind, payload: Payload, live: Tables)
    ensures LogsChange(st, Logged(st, kind, payload, live), kind, payload)
  {}

  // ------------------------------------------------------------------ a node

  ghost predicate IsFloatColumn(s: Schema, column: string) {
    exists c :: 0 <= c < |s.columns| && s.columns[c].name == column && s.columns[c].dataType == TFloat64
  }

  /** What a column keeps of a literal: a whole number becomes a float where the column is FLOAT64. */
  ghost predicate Keeps(s: Schema, column: string, l: Literal, v: Value) {
    if l.LInt64? && IsFloatColumn(s, column) then v == Float64(l.n * Pow2(1074)) else Denotes(l, v)
  }

  /** The last property of that name gives this value. */
  ghost predicate Given(s: Schema, properties: seq<(string, Literal)>, column: string, v: Value) {
    exists j ::
      && 0 <= j < |properties| && properties[j].0 == column && Keeps(s, column, properties[j].1, v)
      && forall k :: j < k < |properties| ==> properties[k].0 != column
  }

  /** The row holds what the properties give, and nothing else. */
  ghost predicate IsGiven(s: Schema, properties: seq<(string, Literal)>, row: Row) {
    && (forall column :: column in row ==> Given(s, properties, column, row[column]))
    && (forall column, v :: Given(s, properties, column, v) ==> column in row && row[column] == v)
  }

  lemma PromotedKeeps(s: Schema, column: string, l: Literal)
    requires SchemaOk(s)
    ensures forall v :: Keeps(s, column, l, v) <==> v == Promote(s, column, l)
  {
    LiteralDenotes(l);
    assert forall c :: 0 <= c < |s.columns| ==> Names(s)[c] == s.columns[c].name;
    if column in Names(s) { ColumnOf(s, column); }
  }

  lemma {:induction false} PropertiesGive(s: Schema, properties: seq<(string, Literal)>)
    requires SchemaOk(s)
    ensures IsGiven(s, properties, PropertyRow(s, properties))
  {
    if properties != [] {
      var front, last := properties[..|properties| - 1], properties[|properties| - 1];
      PropertiesGive(s, front);
      assert properties == front + [last];
      forall column, v
        ensures Given(s, properties, column, v)
           <==> if column == last.0 then v == Promote(s, column, last.1) else Given(s, front, column, v)
      {
        GivenSnoc(s, front, last, column, v);
      }
    }
  }

  lemma GivenSnoc(s: Schema, front: seq<(string, Literal)>, last: (string, Literal), column: string, v: Value)
    requires SchemaOk(s)
    ensures Given(s, front + [last], column, v)
       <==> if column == last.0 then v == Promote(s, column, last.1) else Given(s, front, column, v)
  {
    var all := front + [last];
    PromotedKeeps(s, last.0, last.1);
    assert all[|front|] == last && forall k :: 0 <= k < |front| ==> all[k] == front[k];
    if column != last.0 && Given(s, front, column, v) {
      var j :| 0 <= j < |front| && front[j].0 == column && Keeps(s, column, front[j].1, v)
        && forall k :: j < k < |front| ==> front[k].0 != column;
      assert all[j].0 == column && forall k :: j < k < |all| ==> all[k].0 != column;
    }
  }

  /** A row in schema order, with null for what is not there. */
  ghost predicate IsPadded(s: Schema, row: Row, values: seq<Value>) {
    && |values| == |s.columns|
    && forall c :: 0 <= c < |s.columns| ==>
         values[c] == if s.columns[c].name in row then row[s.columns[c].name] else Null
  }

  /**
   The row that the properties give is logged, padded, whether or not it can be inserted. The table
   gains exactly this row if it can, and stays as it is if not; no other table changes.
   */
  ghost predicate NodeCreated(cat: Catalog, st: State, st': State, name: string, row: Row, values: seq<Value>)
    requires name in cat.tables && name in st.live.nodes && name in st'.live.nodes
  {
    var s, t, t' := cat.tables[name], st.live.nodes[name], st'.live.nodes[name];
    && IsPadded(s, row, values) && LogsChange(st, st', TableInsertion, TableRows(s.tableId, [values]))
    && st'.saved == st.saved && st'.live.rels == st.live.rels && st'.live.nodes == st.live.nodes[name := t']
    && if Insertable(t, row) then HasNewRow(t, t', row) else t' == t
  }

  ghost predicate NodeEffect(cat: Catalog, st: State, st': State, name: string, properties: seq<(string, Literal)>) {
    if name !in cat.tables then st' == st
    else
      && name in st.live.nodes && name in st'.live.nodes
      && exists row, values ::
           IsGiven(cat.tables[name], properties, row) && NodeCreated(cat, st, st', name, row, values)
  }

  lemma NodeStepMeans(cat: Catalog, st: State, name: string, properties: seq<(string, Literal)>)
    requires WellFormed(cat, st)
    ensures NodeEffect(cat, st, NodeStep(cat, st, name, properties), name, properties)
  {
    if name in cat.tables {
      var s, st' := cat.tables[name], NodeStep(cat, st, name, properties);
      var row := PropertyRow(s, properties);
      PropertiesGive(s, properties);
      InsertionMeans(st.live.nodes[name], row);
      LoggedLogs(st, TableInsertion, TableRows(s.tableId, [PaddedValues(s, row)]), st'.live);
      assert NodeCreated(cat, st, st', name, row, PaddedValues(s, row));
    }
  }

  // ------------------------------------------------------------------ a relationship

  /** The row's cell is the literal. */
  ghost predicate CellIs(t: Table, row: nat, column: string, l: Literal) {
    exists v :: Denotes(l, v) && HasCell(t, row, column, v)
  }

  /** The pattern's key filter is met by this row and by none before it; the filter's column must belong to the key. */
  ghost predicate IsEnd(ts: Tables, f: NodeFilter, row: nat)
    requires f.nodeLabel in ts.nodes
  {
    var t := ts.nodes[f.nodeLabel];
    && f.filter.Some? && f.filter.value.0 in t.schema.primaryKey
    && CellIs(t, row, f.filter.value.0, f.filter.value.1)
    && forall before: nat :: before < row ==> !CellIs(t, before, f.filter.value.0, f.filter.value.1)
  }

  lemma CellIsValue(t: Table, row: nat, column: string, l: Literal)
    ensures CellIs(t, row, column, l) <==> HasCell(t, row, column, LiteralToValue(l))
  {
    LiteralDenotes(l);
    if HasCell(t, row, column, LiteralToValue(l)) { assert Denotes(l, LiteralToValue(l)); }
  }

  lemma FoundIsEnd(cat: Catalog, ts: Tables, f: NodeFilter, row: nat)
    requires TablesOk(cat, ts) && f.nodeLabel in ts.nodes
    ensures FindNode(ts, f) == Some(row) <==> IsEnd(ts, f, row)
  {
    if f.filter.Some? {
      var t := ts.nodes[f.nodeLabel];
      var (key, l) := f.filter.value;
      FindsFirst(t, key, LiteralToValue(l), row);
      forall i: nat ensures CellIs(t, i, key, l) <==> HasCell(t, i, key, LiteralToValue(l)) {
        CellIsValue(t, i, key, l);
      }
    }
  }

  /** The properties' values in their order. */
  ghost predicate AreValues(relProps: seq<(string, Literal)>, props: seq<Value>) {
    |props| == |relProps| && forall i :: 0 <= i < |props| ==> Denotes(relProps[i].1, props[i])
  }

  /** The edge leads from the source's row to the target's, in the table and in the log. */
  ghost predicate EdgeCreated(cat: Catalog, st: State, st': State, relType: string, src: nat, dst: nat,
                              props: seq<Value>)
    requires relType in cat.relTables && relType in st.live.rels && relType in st'.live.rels
  {
    && GainsEdge(st.live.rels[relType], st'.live.rels[relType], src, dst, props)
    && LogsChange(st, st', RelInsertion, RelEdge(cat.relTables[relType].tableId, src, dst, props))
    && st'.saved == st.saved && st'.live.nodes == st.live.nodes
    && st'.live.rels == st.live.rels[relType := st'.live.rels[relType]]
  }

  /** Nothing happens unless table, labels, both ends and the number of properties are right. */
  ghost predicate RelEffect(cat: Catalog, st: State, st': State, src: NodeFilter, dst: NodeFilter, relType: string,
                            relProps: seq<(string, Literal)>)
  {
    if relType in cat.relTables && src.nodeLabel in st.live.nodes && dst.nodeLabel in st.live.nodes
       && |relProps| == |cat.relTables[relType].columns|
       && (exists s: nat :: IsEnd(st.live, src, s)) && (exists d: nat :: IsEnd(st.live, dst, d))
    then
      && relType in st.live.rels && relType in st'.live.rels
      && exists s: nat, d: nat, props ::
           IsEnd(st.live, src, s) && IsEnd(st.live, dst, d) && AreValues(relProps, props)
             && EdgeCreated(cat, st, st', relType, s, d, props)
    else st' == st
  }

  /** The pattern finds a node exactly if some row is its end, and that row. */
  lemma EndsFound(cat: Catalog, ts: Tables, f: NodeFilter)
    requires TablesOk(cat, ts) && f.nodeLabel in ts.nodes
    ensures FindNode(ts, f).Some? <==> exists i: nat :: IsEnd(ts, f, i)
    ensures FindNode(ts, f).Some? ==> IsEnd(ts, f, FindNode(ts, f).value)
  {
    forall i: nat ensures FindNode(ts, f) == Some(i) <==> IsEnd(ts, f, i) {
      FoundIsEnd(cat, ts, f, i);
    }
  }

  lemma ValuesOfProperties(relProps: seq<(string, Literal)>)
    ensures AreValues(relProps, PropValues(relProps))
  {
    forall i | 0 <= i < |relProps| ensures Denotes(relProps[i].1, PropValues(relProps)[i]) {
      LiteralDenotes(relProps[i].1);
    }
  }

  lemma RelStepMeans(cat: Catalog, st: State, src: NodeFilter, dst: NodeFilter, relType: string,
                     relProps: seq<(string, Literal)>)
    requires WellFormed(cat, st)
    ensures RelEffect(cat, st, RelStep(cat, st, src, dst, relType, relProps), src, dst, relType, relProps)
  {
    if relType in cat.relTables && src.nodeLabel in st.live.nodes && dst.nodeLabel in st.live.nodes {
      EndsFound(cat, st.live, src);
      EndsFound(cat, st.live, dst);
      if FindNode(st.live, src).Some? && FindNode(st.live, dst).Some?
         && |relProps| == |cat.relTables[relType].columns| {
        EdgeStepMeans(cat, st, src, dst, relType, relProps);
      }
    }
  }

  lemma EdgeStepMeans(cat: Catalog, st: State, src: NodeFilter, dst: NodeFilter, relType: string,
                      relProps: seq<(string, Literal)>)
    requires WellFormed(cat, st) && relType in cat.relTables && |relProps| == |cat.relTables[relType].columns|
    requires src.nodeLabel in st.live.nodes && dst.nodeLabel in st.live.nodes
    requires FindNode(st.live, src).Some? && FindNode(st.live, dst).Some?
    ensures var st' := RelStep(cat, st, src, dst, relType, relProps);
            && relType in st.live.rels && relType in st'.live.rels
            && AreValues(relProps, PropValues(relProps))
            && EdgeCreated(cat, st, st', relType, FindNode(st.live, src).value, FindNode(st.live, dst).value,
                           PropValues(relProps))
  {
    var s, d, props := FindNode(st.live, src).value, FindNode(st.live, dst).value, PropValues(relProps);
    var live := WithEdgeIn(st.live, relType, s, d, props);
    ValuesOfProperties(relProps);
    InsertedGainsEdge(st.live.rels[relType], s, d, props);
    LoggedLogs(st, RelInsertion, RelEdge(cat.relTables[relType].tableId, s, d, props), live);
  }

  /** What a creating statement does, whichever of the two it is. */
  ghost predicate Effect(cat: Catalog, st: State, st': State, op: Op) {
    match op
    case CreateNode(name, properties) => NodeEffect(cat, st, st', name, properties)
    case CreateRel(src, dst, relType, relProps) => RelEffect(cat, st, st', src, dst, relType, relProps)
    case _ => true
  }

  lemma StepMeans(cat: Catalog, st: State, op: Op)
    requires WellFormed(cat, st)
    ensures Effect(cat, st, Step(cat, st, op), op)
  {
    match op
    case CreateNode(name, properties) => NodeStepMeans(cat, st, name, properties);
    case CreateRel(src, dst, relType, relProps) => RelStepMeans(cat, st, src, dst, relType, relProps);
    case _ =>
  }

  // ------------------------------------------------------------------ log records

  /** The row that pairs the columns with the values in their order. */
  ghost predicate IsPaired(s: Schema, values: seq<Value>, row: Row)
    requires |values| == |s.columns|
  {
    && (forall c :: 0 <= c < |s.columns| ==> s.columns[c].name in row && row[s.columns[c].name] == values[c])
    && forall column :: column in row ==> exists c :: 0 <= c < |s.columns| && s.columns[c].name == column
  }

  lemma RebuiltIsPaired(s: Schema, values: seq<Value>)
    requires SchemaOk(s) && |values| == |s.columns|
    ensures IsPaired(s, values, RowFromValues(s, values))
  {
    var row, names := RowFromValues(s, values), Names(s);
    assert names[..|s.columns|] == names && values[..|s.columns|] == values;
    forall c | 0 <= c < |s.columns| ensures s.columns[c].name in row && row[s.columns[c].name] == values[c] {
      assert names[c] == s.columns[c].name;
      PlaceOf(s, c);
    }
    forall column | column in row ensures exists c :: 0 <= c < |s.columns| && s.columns[c].name == column {
      ColumnOf(s, column);
    }
  }

  lemma PlaceOf(s: Schema, c: nat)
    requires SchemaOk(s) && c < |s.columns|
    ensures Position(Names(s), s.columns[c].name) == Some(c)
  {
    assert Names(s)[c] == s.columns[c].name;
    ColumnOf(s, s.columns[c].name);
  }

  /** A record with one whole row adds it to the table of its id if it can be inserted, and changes nothing else. */
  lemma RowRecordMeans(cat: Catalog, ts: Tables, name: string, values: seq<Value>, r: Record) returns (row: Row)
    requires CatalogOk(cat) && TablesOk(cat, ts) && name in cat.tables && |values| == |cat.tables[name].columns|
    requires r.payload == TableRows(cat.tables[name].tableId, [values])
    ensures IsPaired(cat.tables[name], values, row) && name in ts.nodes
    ensures var t, t' := ts.nodes[name], Apply(cat, ts, r).nodes[name];
            && Apply(cat, ts, r) == ts.(nodes := ts.nodes[name := t'])
            && if Insertable(t, row) then HasNewRow(t, t', row) else t' == t
  {
    row := RowFromValues(cat.tables[name], values);
    RebuiltIsPaired(cat.tables[name], values);
    ApplyNode(cat, ts, name, values, r);
    InsertionMeans(ts.nodes[name], row);
  }

  /** Several rows of a record go in one after the other. */
  lemma {:induction false} RowsInTurn(t: Table, a: seq<seq<Value>>, b: seq<seq<Value>>)
    requires |t.data.columns| == |t.schema.columns|
    ensures InsertRows(t, a + b) == InsertRows(InsertRows(t, a), b)
  {
    if b == [] {
      assert a + b == a;
    } else {
      assert (a + b)[..|a + b| - 1] == a + b[..|b| - 1];
      RowsInTurn(t, a, b[..|b| - 1]);
    }
  }

  /** A record of an edge adds it to the table of its id in its direction, unless the number of properties is wrong. */
  lemma EdgeRecordMeans(cat: Catalog, ts: Tables, name: string, src: nat, dst: nat, props: seq<Value>, r: Record)
    requires CatalogOk(cat) && TablesOk(cat, ts) && name in cat.relTables
    requires r.payload == RelEdge(cat.relTables[name].tableId, src, dst, props)
    ensures name in ts.rels
    ensures var t, t' := ts.rels[name], Apply(cat, ts, r).rels[name];
            && Apply(cat, ts, r) == ts.(rels := ts.rels[name := t'])
            && if |props| == |cat.relTables[name].columns| then GainsEdge(t, t', src, dst, props) else t' == t
  {
    RelTableById(cat, name);
    if |props| == |cat.relTables[name].columns| { InsertedGainsEdge(ts.rels[name], src, dst, props); }
  }
}
