/** Replaying a log file over loaded tables, and the rows that statements and log records make. */
module ReplayLog {
  import opened Wrappers
  import opened Bytes
  import opened Values
  import opened NodeTable
  import opened CsrGroups
  import opened RelTable
  import opened Wal
  import opened Recovery

  /** Node tables first, then relationship tables; ids are unique, so the order of the maps does not matter. */
  method TableNameById(cat: Catalog, id: nat) returns (r: Option<string>)
    requires CatalogOk(cat)
    ensures r == NameById(cat, id)
  {
    r := NodeNameById(cat, id);
    if r.None? {
      r := RelNameById(cat, id);
    }
  }

  method NodeNameById(cat: Catalog, id: nat) returns (r: Option<string>)
    ensures r.Some? ==> r.value in cat.tables && cat.tables[r.value].tableId == id
    ensures r.None? ==> forall n :: n in cat.tables ==> cat.tables[n].tableId != id
  {
    var pending := cat.tables.Keys;
    while pending != {}
      invariant pending <= cat.tables.Keys
      invariant forall n :: n in cat.tables && n !in pending ==> cat.tables[n].tableId != id
      decreases |pending|
    {
      var n :| n in pending;
      if cat.tables[n].tableId == id {
        return Some(n);
      }
      pending := pending - {n};
    }
    r := None;
  }

  method RelNameById(cat: Catalog, id: nat) returns (r: Option<string>)
    ensures r.Some? ==> r.value in cat.relTables && cat.relTables[r.value].tableId == id
    ensures r.None? ==> forall n :: n in cat.relTables ==> cat.relTables[n].tableId != id
  {
    var pending := cat.relTables.Keys;
    while pending != {}
      invariant pending <= cat.relTables.Keys
      invariant forall n :: n in cat.relTables && n !in pending ==> cat.relTables[n].tableId != id
      decreases |pending|
    {
      var n :| n in pending;
      if cat.relTables[n].tableId == id {
        return Some(n);
      }
      pending := pending - {n};
    }
    r := None;
  }

  method BuildRow(s: Schema, properties: seq<(string, Literal)>) returns (row: Row)
    ensures row == PropertyRow(s, properties)
  {
    row := map[];
    for i := 0 to |properties|
      invariant row == PropertyRow(s, properties[..i])
    {
      assert properties[..i + 1][..i] == properties[..i];
      var (name, literal) := properties[i];
      var value := LiteralToValue(literal);
      if value.Int64? {
        var column := Position(Names(s), name);
        if column.Some? && s.columns[column.value].dataType == TFloat64 {
          value := IntToFloat(value.n);
        }
      }
      row := row[name := value];
    }
    assert properties[..|properties|] == properties;
  }

  method LoggedValues(s: Schema, row: Row) returns (values: seq<Value>)
    ensures values == PaddedValues(s, row)
  {
    values := [];
    for i := 0 to |s.columns|
      invariant values == PaddedValues(s, row)[..i]
    {
      values := values + [if s.columns[i].name in row then row[s.columns[i].name] else Null];
    }
  }

  /** A logged row as `apply_wal_record` rebuilds it. */
  method RebuildRow(s: Schema, values: seq<Value>) returns (row: Row)
    requires SchemaOk(s)
    ensures row == RowFromValues(s, values)
  {
    row := map[];
    for i := 0 to |s.columns|
      invariant forall name :: name in row <==> exists c :: 0 <= c < i && c < |values| && s.columns[c].name == name
      invariant forall c ::
                  0 <= c < i && c < |values| ==> s.columns[c].name in row && row[s.columns[c].name] == values[c]
    {
      if i < |values| {
        row := row[s.columns[i].name := values[i]];
      }
    }
    RebuiltRow(s, values, row);
  }

  lemma RebuiltRow(s: Schema, values: seq<Value>, row: Row)
    requires SchemaOk(s)
    requires forall name ::
               name in row <==> exists c :: 0 <= c < |s.columns| && c < |values| && s.columns[c].name == name
    requires forall c ::
               0 <= c < |s.columns| && c < |values| ==> s.columns[c].name in row && row[s.columns[c].name] == values[c]
    ensures row == RowFromValues(s, values)
  {
    var n := if |values| < |s.columns| then |values| else |s.columns|;
    var names := Names(s)[..n];
    forall c | 0 <= c < n ensures names[c] == s.columns[c].name && names[c] in row && row[names[c]] == values[..n][c] {}
    forall name | name in row ensures exists c :: 0 <= c < n && names[c] == name {
      var c :| 0 <= c < |s.columns| && c < |values| && s.columns[c].name == name;
      assert names[c] == name;
    }
    SameRowMap(names, values[..n], row);
  }

  lemma SameRowMap(names: seq<string>, values: seq<Value>, row: Row)
    requires |names| == |values|
    requires forall name :: name in row <==> exists c :: 0 <= c < |names| && names[c] == name
    requires forall c :: 0 <= c < |names| ==> names[c] in row && row[names[c]] == values[c]
    ensures row == RowMap(names, values)
  {
    forall name | name in names ensures name in row && row[name] == values[Position(names, name).value] {
      assert names[Position(names, name).value] == name;
    }
  }

  /** Inserts logged rows; a row that is rejected is skipped. */
  method ReplayRows(t: Table, rows: seq<seq<Value>>) returns (t': Table)
    requires TableOk(t)
    ensures t' == InsertRows(t, rows)
  {
    var table := new NodeTable.Of(t);
    for i := 0 to |rows|
      invariant table.Valid() && table.Contents() == InsertRows(t, rows[..i])
    {
      assert rows[..i + 1][..i] == rows[..i];
      var row := RebuildRow(t.schema, rows[i]);
      var ignored := table.Insert(row);
    }
    assert rows[..|rows|] == rows;
    t' := table.Contents();
  }

  method ReplayEdge(t: Rel, src: nat, dst: nat, props: seq<Value>) returns (t': Rel)
    requires Refined(t)
    ensures RelOk(t) && t' == InsertedRel(t, src, dst, props)
  {
    var table := new RelTable.Of(t);
    var ignored := table.Insert(src, dst, props);
    t' := table.Contents();
  }

  /** The tables with an empty one for every relationship schema that has none in memory. */
  function Filled(cat: Catalog, ts: Tables): Tables {
    ts.(rels := WithEmpty(cat.relTables, EmptyRelFor, ts.rels))
  }

  lemma FilledAlready(cat: Catalog, ts: Tables)
    requires cat.relTables.Keys <= ts.rels.Keys
    ensures Filled(cat, ts) == ts
  {
    NothingMissing(cat.relTables, EmptyRelFor, ts.rels);
  }

  /** `apply_wal_record`: a relationship table that is not in memory counts as an empty one and is made. */
  method ApplyRecord(cat: Catalog, ts: Tables, r: Record) returns (ts': Tables)
    requires CatalogOk(cat) && TablesOk(cat, Filled(cat, ts))
    ensures Filled(cat, ts') == Apply(cat, Filled(cat, ts), r)
    ensures TablesOk(cat, ts) ==> ts' == Apply(cat, ts, r)
  {
    match r.payload {
      case TableRows(_, _) => ts' := ApplyTableRows(cat, ts, r);
      case RelEdge(_, _, _, _) => ts' := ApplyRelEdge(cat, ts, r);
      case _ => ts' := ts;
    }
    if TablesOk(cat, ts) {
      FilledAlready(cat, ts);
      FilledAlready(cat, ts');
    }
  }

  method ApplyTableRows(cat: Catalog, ts: Tables, r: Record) returns (ts': Tables)
    requires CatalogOk(cat) && TablesOk(cat, Filled(cat, ts)) && r.payload.TableRows?
    ensures Filled(cat, ts') == Apply(cat, Filled(cat, ts), r) && ts'.rels == ts.rels
  {
    ts' := ts;
    var name := TableNameById(cat, r.payload.tableId);
    if name.Some? && name.value in ts.nodes {
      var table := ReplayRows(ts.nodes[name.value], r.payload.rows);
      ts' := ts.(nodes := ts.nodes[name.value := table]);
    }
  }

  method ApplyRelEdge(cat: Catalog, ts: Tables, r: Record) returns (ts': Tables)
    requires CatalogOk(cat) && TablesOk(cat, Filled(cat, ts)) && r.payload.RelEdge?
    ensures Filled(cat, ts') == Apply(cat, Filled(cat, ts), r) && ts.rels.Keys <= ts'.rels.Keys
  {
    ts' := ts;
    var name := TableNameById(cat, r.payload.relTableId);
    if name.Some? {
      var made := ts.rels;
      if name.value !in made && name.value in cat.relTables {
        made := made[name.value := EmptyRelFor(cat.relTables[name.value])];
      }
      if name.value in made {
        var table := ReplayEdge(made[name.value], r.payload.src, r.payload.dst, r.payload.props);
        ts' := ts.(rels := made[name.value := table]);
        FillsOne(cat.relTables, EmptyRelFor, ts.rels, made, name.value, table);
      }
    }
  }

  /** Filling in what is missing, before or after one table is replaced. */
  lemma FillsOne<S, T>(schemas: map<string, S>, empty: S -> T, tables: map<string, T>, made: map<string, T>,
                       name: string, table: T)
    requires made == tables || (name in schemas && name !in tables && made == tables[name := empty(schemas[name])])
    requires name in made
    ensures WithEmpty(schemas, empty, made[name := table]) == WithEmpty(schemas, empty, tables)[name := table]
    ensures name in WithEmpty(schemas, empty, tables) && WithEmpty(schemas, empty, tables)[name] == made[name]
  {}

  method ApplyRecords(cat: Catalog, ts: Tables, records: seq<Record>) returns (ts': Tables)
    requires CatalogOk(cat) && TablesOk(cat, ts)
    ensures ts' == Fold(ApplyFn(cat), ts, records)
    ensures TablesOk(cat, ts')
  {
    ts' := ts;
    for i := 0 to |records|
      invariant TablesOk(cat, ts') && ts' == Fold(ApplyFn(cat), ts, records[..i])
    {
      assert records[..i + 1][..i] == records[..i];
      FilledAlready(cat, ts');
      ts' := ApplyRecord(cat, ts', records[i]);
    }
    assert records[..|records|] == records;
  }

  /** What reopening makes of the saved tables and a log file: a file without a good header counts as empty. */
  ghost function ReplayFile(c: WalCodec, cat: Catalog, saved: Tables, file: seq<byte>): Result<Tables> {
    match OpenHeader(file)
    case Err(_) => Ok(saved)
    case Ok(checks) =>
      var p := ParseAll(c, checks, file[HEADER_SIZE..]);
      if p.ok then Ok(Replay(cat, saved, p.records)) else Err(StorageError)
  }

  method ReplayWal(c: WalCodec, cat: Catalog, saved: Tables, file: seq<byte>) returns (r: Result<Tables>)
    requires CatalogOk(cat) && TablesOk(cat, saved)
    ensures r == ReplayFile(c, cat, saved, file)
    ensures r.Ok? ==> TablesOk(cat, r.value)
  {
    var header := OpenHeader(file);
    if header.Err? {
      return Ok(saved);
    }
    var reader := new WalReader(file, header.value);
    var replayer := new WalReplayer();
    var analyzed := replayer.Analyze(c, reader);
    if analyzed.Err? {
      return Err(analyzed.error);
    }
    assert replayer.committedRecords == ParseAll(c, header.value, file[HEADER_SIZE..]).records;
    var records := replayer.RecordsToApply();
    var ts := ApplyRecords(cat, saved, records);
    r := Ok(ts);
  }

  // ------------------------------------------------------------------ opening the files

  /** The records that opening reads from a log file. */
  function RecordsOf(c: WalCodec, file: seq<byte>): seq<Record> {
    match OpenHeader(file)
    case Err(_) => []
    case Ok(checks) => ParseAll(c, checks, file[HEADER_SIZE..]).records
  }

  /** The state after opening: the log is replayed and kept, and ids start again. */
  ghost function Reopened(c: WalCodec, cat: Catalog, saved: Tables, file: seq<byte>): State {
    State(saved, RecordsOf(c, file), Replay(cat, saved, RecordsOf(c, file)), 1, 1)
  }

  /** Whenever the state is recoverable and the log file holds its log, opening the files gives the live tables. */
  lemma OpeningGivesLiveTables(c: WalCodec, cat: Catalog, st: State, file: seq<byte>, checks: bool)
    requires WalCodecOk(c) && Recoverable(cat, st) && IsLog(c, file, checks, st.log)
    ensures ReplayFile(c, cat, st.saved, file) == Ok(st.live) && RecordsOf(c, file) == st.log
  {
    LogReadsBack(c, checks, st.log, []);
    assert Frames(c, checks, st.log) + [] == Frames(c, checks, st.log);
    assert ParseAll(c, checks, []) == Parse([], true) && st.log + [] == st.log;
  }
}
