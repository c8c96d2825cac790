/**
 The durable database: tables in memory, their image in pages, and the log. Every
 method is proved to be its step in module Recovery, and opening the files alone
 rebuilds the tables.
 */
module Database {
  import opened Wrappers
  import opened Bytes
  import opened Values
  import opened Disk
  import opened Header
  import opened MultiPage
  import opened Persist
  import opened NodeTable
  import opened CsrGroups
  import opened RelTable
  import opened Wal
  import opened Recovery
  import opened Statements
  import opened ReplayLog
  import opened Image
  import B = BufferPool
  import N = NodeTable

  method InsertRow(t: Table, row: Row) returns (t': Table, r: Result<()>)
    requires N.TableOk(t)
    ensures t' == Inserted(t, row)
    ensures r.Ok? <==> Accepts(t, row)
  {
    var table := new NodeTable.Of(t);
    r := table.Insert(row);
    t' := table.Contents();
  }

  method InsertEdge(t: Rel, src: nat, dst: nat, props: seq<Value>) returns (t': Rel, r: Result<nat>)
    requires Refined(t)
    ensures RelOk(t) && t' == InsertedRel(t, src, dst, props)
    ensures r.Ok? <==> |props| == t.numProps
    ensures r.Ok? ==> r.value == t.nextRelId
  {
    var table := new RelTable.Of(t);
    r := table.Insert(src, dst, props);
    t' := table.Contents();
  }

  function UuidBytes(id: Uuid): (b: seq<byte>)
    ensures |b| == 16
  {
    ToLe32(id) + ToLe32(id / U32_RANGE)
    + ToLe32(id / U32_RANGE / U32_RANGE) + ToLe32(id / U32_RANGE / U32_RANGE / U32_RANGE)
  }

  /** An empty table for every schema. */
  function EmptyTables(cat: Catalog): Tables {
    Tables(map n | n in cat.tables :: EmptyTable(cat.tables[n]),
           map n | n in cat.relTables :: EmptyRel(|cat.relTables[n].columns|))
  }

  lemma EmptyTablesOk(cat: Catalog)
    requires CatalogOk(cat)
    ensures TablesOk(cat, EmptyTables(cat))
  {
    forall n | n in cat.relTables ensures Refined(EmptyRel(|cat.relTables[n].columns|)) {
      EmptyRefines(|cat.relTables[n].columns|);
      HasLog(EmptyRel(|cat.relTables[n].columns|), []);
    }
    forall n | n in cat.tables ensures N.TableOk(EmptyTable(cat.tables[n])) {
      EmptyTableOk(cat.tables[n]);
    }
  }

  lemma EmptyTableOk(s: Schema)
    requires SchemaOk(s)
    ensures N.TableOk(EmptyTable(s))
  {}

  lemma FirstRangesOk()
    ensures forall h: DatabaseHeader ::
              Ranges(h) == [PageRange(1, 1), PageRange(2, 1), PageRange(3, 1)] ==> RangesOk(h, 4)
  {}

  class Database {
    const codecs: Codecs
    const catalog: Catalog
    const pool: B.BufferPool
    const wal: WalWriter
    var tables: map<string, Table>
    var relTables: map<string, Rel>
    var header: DatabaseHeader
    var dirty: bool
    var nextTxId: nat
    var nextCheckpointId: nat
    ghost var saved: Tables
    ghost var log: seq<Record>
    /** Nothing written since the last checkpoint was too long for its 32-bit length. */
    ghost var intact: bool

    ghost function Abs(): State
      reads this, wal
    {
      State(saved, log, Tables(tables, relTables), nextTxId, wal.nextLsn)
    }

    ghost predicate PagesOk()
      reads this`header, pool, pool.disk, pool.evictionQueue
    {
      Quiet(pool) && GoodHeader(header, pool.disk.nextPageIdx)
    }

    ghost predicate LogOk()
      reads this`log, wal`file
    {
      IsLog(codecs.wal, wal.file, wal.enableChecksums, log)
    }

    /** The frames of what was logged since are behind what the file held then. */
    ghost predicate Wrote(file: seq<byte>, before: seq<Record>)
      reads this`log, wal`file
    {
      before <= log && wal.file == file + Frames(codecs.wal, wal.enableChecksums, log[|before|..])
    }

    lemma WroteNothing()
      ensures Wrote(wal.file, log)
    {
      assert log[|log|..] == [] && wal.file + [] == wal.file;
    }

    /** The part of the state that statements change. */
    ghost predicate MemoryOk()
      reads this, wal
    {
      WellFormed(catalog, Abs()) && (intact ==> LogOk())
    }

    /** While nothing was too long, the files hold the last checkpoint and the log. */
    ghost predicate Valid()
      reads this, pool, pool.disk, pool.evictionQueue, wal
    {
      && PagesOk() && MemoryOk()
      && (intact ==> OnDisk(codecs, pool.disk.file, catalog, saved))
    }

    static method PoolOver(file: seq<Page>, capacity: nat) returns (r: Result<B.BufferPool>)
      ensures r.Err? <==> capacity == 0
      ensures r.Ok? ==>
                fresh(r.value) && fresh(r.value.disk) && fresh(r.value.evictionQueue)
                && FreshPool(r.value, file)
    {
      var disk := new DiskManager(file);
      r := B.BufferPool.New(capacity, disk);
    }

    /** A pool over a new file whose pages 0 to 3 are reserved. */
    static method ReservedPool(capacity: nat) returns (r: Result<B.BufferPool>)
      ensures r.Err? <==> capacity == 0
      ensures r.Ok? ==> fresh(r.value) && fresh(r.value.disk) && fresh(r.value.evictionQueue)
      ensures r.Ok? ==> Quiet(r.value) && r.value.disk.nextPageIdx == 4 && r.value.disk.file == SetLen([], 4)
    {
      var disk := new DiskManager([]);
      r := B.BufferPool.New(capacity, disk);
      if r.Ok? {
        var reserved := r.value.AllocatePageRange(4);
      }
    }

    constructor (codecs: Codecs, catalog: Catalog, pool: B.BufferPool, wal: WalWriter, header: DatabaseHeader,
                 ts: Tables, dirty: bool,
                 ghost saved: Tables, ghost log: seq<Record>, ghost intact: bool)
      ensures this.codecs == codecs && this.catalog == catalog && this.pool == pool && this.wal == wal
      ensures this.header == header && this.intact == intact && this.dirty == dirty
      ensures Abs() == State(saved, log, ts, 1, wal.nextLsn)
    {
      this.codecs := codecs;
      this.catalog := catalog;
      this.pool := pool;
      this.wal := wal;
      this.tables := ts.nodes;
      this.relTables := ts.rels;
      this.header := header;
      this.dirty := dirty;
      this.nextTxId := 1;
      this.nextCheckpointId := 1;
      this.saved := saved;
      this.log := log;
      this.intact := intact;
    }

    /**
     A new database directory, with the schema already defined: pages 0 to 3 are
     reserved and nothing is on disk before the first checkpoint.
     */
    static method Create(codecs: Codecs, catalog: Catalog, capacity: nat, databaseId: Uuid, checksums: bool)
      returns (r: Result<Database>)
      requires CodecsOk(codecs) && CatalogOk(catalog)
      ensures r.Err? <==> capacity == 0
      ensures r.Ok? ==>
                fresh(r.value) && fresh(r.value.pool) && fresh(r.value.pool.disk)
                && fresh(r.value.pool.evictionQueue) && fresh(r.value.wal)
      ensures r.Ok? ==> r.value.Valid() && r.value.catalog == catalog && !r.value.intact && r.value.dirty
      ensures r.Ok? ==> r.value.Abs() == State(EmptyTables(catalog), [], EmptyTables(catalog), 1, 1)
      ensures r.Ok? ==> OpenHeader(r.value.wal.file) == Ok(r.value.wal.enableChecksums)
      ensures r.Ok? ==> r.value.pool.disk.file == SetLen([], 4)
    {
      var made := ReservedPool(capacity);
      if made.Err? {
        return Err(made.error);
      }
      var pool := made.value;
      FirstRangesOk();
      var header := DatabaseHeader(true, CURRENT_VERSION, databaseId, PageRange(1, 1), PageRange(2, 1),
                                   PageRange(3, 1), 0);
      header := header.(checksum := ComputeChecksum(codecs.header, header));
      var wal := new WalWriter(codecs.wal, None, UuidBytes(databaseId), checksums);
      EmptyTablesOk(catalog);
      var db := new Database(codecs, catalog, pool, wal, header, EmptyTables(catalog), true, EmptyTables(catalog), [],
                             false);
      r := Ok(db);
    }

    /**
     Opens the files of a database that a checkpoint has written; a page file without a good
     header is refused. The page file and the log file alone decide the tables; the log
     stays as it is, and transaction ids start again at 1. A missing log file is created.
     */
    static method Open(codecs: Codecs, file: seq<Page>, walFile: Option<seq<byte>>, capacity: nat, checksums: bool,
                       ghost cat: Catalog, ghost saved: Tables) returns (r: Result<Database>)
      requires CodecsOk(codecs) && CatalogOk(cat) && TablesOk(cat, saved)
      requires Readable(codecs, file) ==> OnDisk(codecs, file, cat, saved)
      ensures r.Err? <==>
                capacity == 0 || !Readable(codecs, file)
                || (walFile.Some? && ReplayFile(codecs.wal, cat, saved, walFile.value).Err?)
      ensures r.Ok? ==> fresh(r.value) && r.value.Valid() && r.value.catalog == cat && !r.value.dirty
      ensures r.Ok? ==>
                r.value.wal.enableChecksums == checksums
                && (walFile.Some? ==> r.value.wal.file == walFile.value)
      ensures r.Ok? ==> r.value.Abs() == Reopened(codecs.wal, cat, saved, r.value.wal.file)
      ensures r.Ok? ==> r.value.nextTxId == 1 && r.value.wal.nextLsn == 1 && r.value.saved == saved
      ensures r.Ok? ==>
                var f := r.value.wal.file;
                r.value.intact == IsLog(codecs.wal, f, checksums, RecordsOf(codecs.wal, f))
    {
      var made := PoolOver(file, capacity);
      if made.Err? {
        return Err(StorageError);
      }
      var tested := LoadFileHeader(codecs, made.value, file);
      if tested.Err? {
        return Err(tested.error);
      }
      ghost var h, p :| Holds(codecs.header, file, h, p) && GoodHeader(h, |file|) && Encodes(codecs, p, cat, saved);
      var header := tested.value;
      var payloads := LoadPages(codecs, made.value, header, file, h, p);
      var loaded := DecodeImage(codecs, header, payloads, cat, saved);
      r := Recover(codecs, made.value, loaded.value, walFile, checksums);
    }

    /** Opens the log behind a loaded image and replays it. */
    static method Recover(codecs: Codecs, pool: B.BufferPool, loaded: Loaded, walFile: Option<seq<byte>>,
                          checksums: bool) returns (r: Result<Database>)
      requires CatalogOk(loaded.catalog) && TablesOk(loaded.catalog, loaded.tables)
      requires Quiet(pool) && GoodHeader(loaded.header, pool.disk.nextPageIdx)
      requires OnDisk(codecs, pool.disk.file, loaded.catalog, loaded.tables)
      ensures r.Err? <==> walFile.Some? && ReplayFile(codecs.wal, loaded.catalog, loaded.tables, walFile.value).Err?
      ensures r.Ok? ==>
                fresh(r.value) && r.value.Valid() && r.value.catalog == loaded.catalog
                && r.value.pool == pool && !r.value.dirty
      ensures r.Ok? ==>
                r.value.wal.enableChecksums == checksums
                && (walFile.Some? ==> r.value.wal.file == walFile.value)
      ensures r.Ok? ==> r.value.Abs() == Reopened(codecs.wal, loaded.catalog, loaded.tables, r.value.wal.file)
      ensures r.Ok? ==>
                var f := r.value.wal.file;
                r.value.intact == IsLog(codecs.wal, f, checksums, RecordsOf(codecs.wal, f))
    {
      var wal := new WalWriter(codecs.wal, walFile, UuidBytes(loaded.header.databaseId), checksums);
      var replayed := ReplayWal(codecs.wal, loaded.catalog, loaded.tables, wal.file);
      if replayed.Err? {
        return Err(StorageError);
      }
      ghost var log := RecordsOf(codecs.wal, wal.file);
      var db := new Database(codecs, loaded.catalog, pool, wal, loaded.header, replayed.value, false,
                             loaded.tables, log, IsLog(codecs.wal, wal.file, checksums, log));
      r := Ok(db);
    }

    /**
     Whatever is in memory and in the page cache is gone, and the two files are opened again:
     the tables are those that were live.
     */
    method Restart(capacity: nat, checksums: bool) returns (r: Result<Database>)
      requires CodecsOk(codecs) && Valid() && intact && Recoverable(catalog, Abs())
      ensures r.Err? <==> capacity == 0
      ensures r.Ok? ==> fresh(r.value) && r.value.Valid() && r.value.catalog == catalog
      ensures r.Ok? ==> r.value.Abs() == State(saved, log, Abs().live, 1, 1)
    {
      OpeningGivesLiveTables(codecs.wal, catalog, Abs(), wal.file, wal.enableChecksums);
      r := Open(codecs, pool.disk.file, Some(wal.file), capacity, checksums, catalog, saved);
    }

    /** Begin, data, commit; the file is flushed behind them. */
    method LogTransaction(tx: nat, kind: Kind, payload: Payload)
      requires intact ==> LogOk()
      modifies this`log, this`intact, wal
      ensures intact ==> LogOk()
      ensures log == old(log) + Transaction(tx, old(wal.nextLsn), kind, payload)
      ensures wal.nextLsn == old(wal.nextLsn) + 3
      ensures Wrote(old(wal.file), old(log))
      ensures intact == (old(intact) && AllShort(codecs.wal, log[|old(log)|..]))
    {
      ghost var all := Transaction(tx, wal.nextLsn, kind, payload);
      var lsn := wal.NextLsn();
      LogRecord(BeginRecord(tx, lsn));
      lsn := wal.NextLsn();
      LogRecord(Record(kind, tx, lsn, payload));
      lsn := wal.NextLsn();
      LogRecord(CommitRecord(tx, lsn));
      ThreeRecordsLogged(codecs.wal, old(log), all);
      ThreeFrames(codecs.wal, wal.enableChecksums, old(wal.file), all[0], all[1], all[2]);
    }

    method LogRecord(r: Record)
      requires intact ==> LogOk()
      modifies this`log, this`intact, wal`file
      ensures intact ==> LogOk()
      ensures log == old(log) + [r] && intact == (old(intact) && Short(codecs.wal, r))
      ensures wal.file == old(wal.file) + Framed(codecs.wal, wal.enableChecksums, r)
    {
      var lsn := wal.Append(codecs.wal, r, log);
      log := log + [r];
      intact := intact && Short(codecs.wal, r);
    }

    /** `execute_create_node` */
    method CreateNode(name: string, properties: seq<(string, Literal)>) returns (r: Result<()>)
      requires MemoryOk()
      modifies this`tables, this`dirty, this`nextTxId, this`log, this`intact, wal
      ensures MemoryOk() && Abs() == Step(catalog, old(Abs()), Op.CreateNode(name, properties))
      ensures NodeEffect(catalog, old(Abs()), Abs(), name, properties)
      ensures r.Ok? <==>
                name in catalog.tables
                && Accepts(old(tables)[name], PropertyRow(catalog.tables[name], properties))
      ensures r.Err? ==> tables == old(tables) && dirty == old(dirty)
      ensures Wrote(old(wal.file), old(log)) && intact == (old(intact) && AllShort(codecs.wal, log[|old(log)|..]))
    {
      StepWellFormed(catalog, Abs(), Op.CreateNode(name, properties));
      StepMeans(catalog, Abs(), Op.CreateNode(name, properties));
      WroteNothing();
      if name !in catalog.tables {
        return Err(SchemaError);
      }
      var row := BuildRow(catalog.tables[name], properties);
      r := LogAndInsert(name, row);
    }

    /** The log first, then the table: a row that the table rejects is in the log all the same. */
    method LogAndInsert(name: string, row: Row) returns (r: Result<()>)
      requires name in catalog.tables && name in tables && N.TableOk(tables[name]) && (intact ==> LogOk())
      modifies this`tables, this`dirty, this`nextTxId, this`log, this`intact, wal
      ensures intact ==> LogOk()
      ensures Wrote(old(wal.file), old(log)) && intact == (old(intact) && AllShort(codecs.wal, log[|old(log)|..]))
      ensures Abs() == Logged(old(Abs()), TableInsertion,
                              TableRows(catalog.tables[name].tableId, [PaddedValues(catalog.tables[name], row)]),
                              WithRow(old(Abs()).live, name, row))
      ensures r.Ok? <==> Accepts(old(tables)[name], row)
      ensures r.Err? ==> tables == old(tables) && dirty == old(dirty)
    {
      var schema := catalog.tables[name];
      var values := LoggedValues(schema, row);
      LogCommitted(TableInsertion, TableRows(schema.tableId, [values]));
      r := KeepRow(name, row);
      assert Tables(tables, relTables) == WithRow(old(Abs()).live, name, row);
    }

    /** A rejected row leaves the tables and the dirty flag as they are. */
    method KeepRow(name: string, row: Row) returns (r: Result<()>)
      requires name in tables && N.TableOk(tables[name])
      modifies this`tables, this`dirty
      ensures tables == old(tables)[name := Inserted(old(tables)[name], row)]
      ensures r.Ok? <==> Accepts(old(tables)[name], row)
      ensures r.Err? ==> tables == old(tables) && dirty == old(dirty)
    {
      var table;
      table, r := InsertRow(tables[name], row);
      tables := tables[name := table];
      if r.Ok? {
        dirty := true;
      }
    }

    /** The offset of the node a pattern names; a pattern without a key names none. */
    function Find(f: NodeFilter): Option<nat>
      reads this
      requires f.nodeLabel in tables
    {
      FindNode(Tables(tables, relTables), f)
    }

    /** `execute_match_create` */
    method CreateRel(src: NodeFilter, dst: NodeFilter, relType: string, relProps: seq<(string, Literal)>)
      returns (r: Result<()>)
      requires MemoryOk()
      modifies this`relTables, this`dirty, this`nextTxId, this`log, this`intact, wal
      ensures MemoryOk() && Abs() == Step(catalog, old(Abs()), Op.CreateRel(src, dst, relType, relProps))
      ensures RelEffect(catalog, old(Abs()), Abs(), src, dst, relType, relProps)
      ensures r.Err? <==> relType !in catalog.relTables || src.nodeLabel !in tables || dst.nodeLabel !in tables
                          || (Find(src).Some? && Find(dst).Some? && |relProps| != |catalog.relTables[relType].columns|)
      ensures Wrote(old(wal.file), old(log)) && intact == (old(intact) && AllShort(codecs.wal, log[|old(log)|..]))
    {
      StepWellFormed(catalog, Abs(), Op.CreateRel(src, dst, relType, relProps));
      StepMeans(catalog, Abs(), Op.CreateRel(src, dst, relType, relProps));
      WroteNothing();
      if relType !in catalog.relTables || src.nodeLabel !in tables {
        return Err(SchemaError);
      }
      var srcOffset := Find(src);
      if dst.nodeLabel !in tables {
        return Err(SchemaError);
      }
      var dstOffset := Find(dst);
      if srcOffset.None? || dstOffset.None? {
        return Ok(());
      }
      r := InsertAndLog(relType, srcOffset.value, dstOffset.value, PropValues(relProps));
    }

    /** The table first, then the log: what the table rejects is not logged. */
    method InsertAndLog(relType: string, src: nat, dst: nat, props: seq<Value>) returns (r: Result<()>)
      requires relType in catalog.relTables && relType in relTables && Refined(relTables[relType])
            && (intact ==> LogOk())
      modifies this`relTables, this`dirty, this`nextTxId, this`log, this`intact, wal
      ensures intact ==> LogOk()
      ensures Wrote(old(wal.file), old(log)) && intact == (old(intact) && AllShort(codecs.wal, log[|old(log)|..]))
      ensures r.Ok? <==> |props| == old(relTables)[relType].numProps
      ensures r.Err? ==> Abs() == old(Abs()) && intact == old(intact)
      ensures r.Ok? ==>
                Abs() == Logged(old(Abs()), RelInsertion, RelEdge(catalog.relTables[relType].tableId, src, dst, props),
                                WithEdgeIn(old(Abs()).live, relType, src, dst, props))
    {
      WroteNothing();
      var table, inserted := InsertEdge(relTables[relType], src, dst, props);
      if inserted.Err? {
        return Err(inserted.error);
      }
      PutAndLog(relType, table, RelEdge(catalog.relTables[relType].tableId, src, dst, props));
      r := Ok(());
    }

    /** Replaces a relationship table and logs why. */
    method PutAndLog(relType: string, table: Rel, edge: Payload)
      requires intact ==> LogOk()
      modifies this`relTables, this`dirty, this`nextTxId, this`log, this`intact, wal
      ensures intact ==> LogOk()
      ensures Wrote(old(wal.file), old(log)) && intact == (old(intact) && AllShort(codecs.wal, log[|old(log)|..]))
      ensures Abs() == Logged(old(Abs()), RelInsertion, edge, Tables(tables, old(relTables)[relType := table]))
    {
      relTables := relTables[relType := table];
      LogCommitted(RelInsertion, edge);
      dirty := true;
    }

    /** One transaction under the next id. */
    method LogCommitted(kind: Kind, payload: Payload)
      requires intact ==> LogOk()
      modifies this`nextTxId, this`log, this`intact, wal
      ensures intact ==> LogOk()
      ensures Wrote(old(wal.file), old(log)) && intact == (old(intact) && AllShort(codecs.wal, log[|old(log)|..]))
      ensures Abs() == Logged(old(Abs()), kind, payload, old(Abs()).live)
    {
      var tx := nextTxId;
      nextTxId := nextTxId + 1;
      LogTransaction(tx, kind, payload);
    }

    /** `execute` for the statements that create data. */
    method Execute(op: Op) returns (r: Result<()>)
      requires Valid() && IsCreation(op)
      modifies this`tables, this`relTables, this`dirty, this`nextTxId, this`log, this`intact, wal
      ensures Valid() && Abs() == Step(catalog, old(Abs()), op) && Effect(catalog, old(Abs()), Abs(), op)
      ensures Wrote(old(wal.file), old(log)) && intact == (old(intact) && AllShort(codecs.wal, log[|old(log)|..]))
    {
      r := ExecuteInMemory(op);
    }

    method ExecuteInMemory(op: Op) returns (r: Result<()>)
      requires MemoryOk() && IsCreation(op)
      modifies this`tables, this`relTables, this`dirty, this`nextTxId, this`log, this`intact, wal
      ensures MemoryOk() && Abs() == Step(catalog, old(Abs()), op) && Effect(catalog, old(Abs()), Abs(), op)
      ensures Wrote(old(wal.file), old(log)) && intact == (old(intact) && AllShort(codecs.wal, log[|old(log)|..]))
    {
      match op {
        case CreateNode(name, properties) => r := CreateNode(name, properties);
        case CreateRel(src, dst, relType, relProps) => r := CreateRel(src, dst, relType, relProps);
      }
    }

    /** Saves the tables, writes the header, flushes every page, then empties the log. */
    method Checkpoint() returns (r: Result<()>, ghost p: Payloads)
      requires Valid() && HeaderCodecOk(codecs.header)
      modifies this, pool, pool.disk, pool.evictionQueue, wal
      ensures Valid() && Encodes(codecs, p, catalog, old(Abs()).live)
      ensures r.Err? ==> !PayloadsFit(p) && !intact && Abs() == old(Abs())
      ensures r.Ok? ==> Abs() == Step(catalog, old(Abs()), Op.Checkpoint) && !dirty
      ensures r.Ok? ==>
                intact == (Storable(p) && pool.disk.nextPageIdx <= U32_RANGE
                           && old(OpenHeader(wal.file)) == Ok(wal.enableChecksums))
    {
      StepWellFormed(catalog, Abs(), Op.Checkpoint);
      r, p := SaveAndEmptyLog();
    }

    method SaveAndEmptyLog() returns (r: Result<()>, ghost p: Payloads)
      requires HeaderCodecOk(codecs.header) && PagesOk() && TablesOk(catalog, Tables(tables, relTables))
      modifies this`header, this`dirty, this`nextCheckpointId, this`saved, this`log, this`intact, pool, pool.disk,
                 pool.evictionQueue, wal
      ensures PagesOk() && Encodes(codecs, p, catalog, Tables(tables, relTables))
      ensures r.Err? ==> !PayloadsFit(p) && !intact && Abs() == old(Abs())
      ensures r.Ok? ==> Abs() == State(old(Abs()).live, [], old(Abs()).live, nextTxId, 1) && !dirty
      ensures r.Ok? ==>
                intact == (Storable(p) && pool.disk.nextPageIdx <= U32_RANGE
                           && old(OpenHeader(wal.file)) == Ok(wal.enableChecksums))
      ensures intact ==> LogOk() && OnDisk(codecs, pool.disk.file, catalog, saved)
    {
      r, p := SaveImage();
      if r.Err? {
        intact := false;
        return;
      }
      FinishCheckpoint(Storable(p) && pool.disk.nextPageIdx <= U32_RANGE);
      assert PagesOk();
    }

    /** `save_all_data`, `save_header` and `flush_all` */
    method SaveImage() returns (r: Result<()>, ghost p: Payloads)
      requires HeaderCodecOk(codecs.header) && PagesOk() && TablesOk(catalog, Tables(tables, relTables))
      modifies this`header, pool, pool.disk, pool.evictionQueue
      ensures PagesOk() && Encodes(codecs, p, catalog, Tables(tables, relTables))
      ensures r.Err? ==> !PayloadsFit(p)
      ensures r.Ok? && Storable(p) && pool.disk.nextPageIdx <= U32_RANGE ==>
                OnDisk(codecs, pool.disk.file, catalog, Tables(tables, relTables))
    {
      var payloads := EncodeTables(codecs, catalog, Tables(tables, relTables));
      p := payloads;
      r := SavePages(payloads);
      if r.Ok? && Storable(p) && pool.disk.nextPageIdx <= U32_RANGE {
        ImageStored(codecs, pool.disk.file, header, p, catalog, Tables(tables, relTables));
      }
    }

    /** The page part of a checkpoint; it fails only if a payload is too long for any page range. */
    method SavePages(p: Payloads) returns (r: Result<()>)
      requires HeaderCodecOk(codecs.header) && PagesOk()
      modifies this`header, pool, pool.disk, pool.evictionQueue
      ensures PagesOk()
      ensures r.Err? ==> !PayloadsFit(p)
      ensures r.Ok? && Storable(p) && pool.disk.nextPageIdx <= U32_RANGE
          ==> Holds(codecs.header, pool.disk.file, header, p)
    {
      var written := CheckpointPages(codecs.header, pool, header, p);
      if written.Err? {
        return Err(written.error);
      }
      header := written.value;
      if Storable(p) {
        assert Payloads(Cut(p.catalog), Cut(p.tables), Cut(p.rels)) == p;
      }
      r := Ok(());
    }

    /** The image is on disk; the log and the dirty flag follow. */
    method FinishCheckpoint(ghost stored: bool)
      modifies this`dirty, this`nextCheckpointId, this`saved, this`log, this`intact, wal
      ensures Abs() == State(old(Abs()).live, [], old(Abs()).live, nextTxId, 1) && nextTxId == old(nextTxId) && !dirty
      ensures intact == (stored && old(OpenHeader(wal.file)) == Ok(wal.enableChecksums)) && (intact ==> LogOk())
    {
      saved := Tables(tables, relTables);
      intact := stored && OpenHeader(wal.file) == Ok(wal.enableChecksums);
      EmptyLog();
      dirty := false;
    }

    /** Appends the checkpoint record and cuts the file down to its header. */
    method EmptyLog()
      modifies this`log, this`nextCheckpointId, wal
      ensures log == [] && wal.nextLsn == 1
      ensures old(OpenHeader(wal.file)) == Ok(wal.enableChecksums) ==> LogOk()
    {
      var id := nextCheckpointId;
      nextCheckpointId := nextCheckpointId + 1;
      var lsn := wal.NextLsn();
      var appended := wal.Append(codecs.wal, Record(Kind.Checkpoint, 0, lsn, CheckpointPayload(id)), log);
      HeaderStays(old(wal.file), wal.file);
      wal.Truncate(codecs.wal);
      log := [];
    }
  }

  lemma ThreeRecordsLogged(c: WalCodec, log: seq<Record>, t: seq<Record>)
    requires |t| == 3
    ensures log + [t[0]] + [t[1]] + [t[2]] == log + t && (log + t)[|log|..] == t
    ensures AllShort(c, t) <==> Short(c, t[0]) && Short(c, t[1]) && Short(c, t[2])
  {}

  /** The page file has a header that passes the tests of the loader. */
  ghost predicate Readable(c: Codecs, file: seq<Page>) { LoadHeader(c.header, PageAt(file, 0), |file|).Ok? }

  /**
   A crash before the first checkpoint: page 0 still holds zeros, which do not show the magic
   bytes of a header, and the database cannot be opened again, whatever its log holds.
   */
  method NeverSaved(codecs: Codecs, catalog: Catalog, capacity: nat, databaseId: Uuid, checksums: bool, op: Op)
    returns (db: Result<Database>, done: Result<()>, reopened: Result<Database>)
    requires CodecsOk(codecs) && CatalogOk(catalog) && IsCreation(op)
    requires codecs.header.dec(ZeroPage()).Ok? ==> !codecs.header.dec(ZeroPage()).value.magicOk
    ensures reopened.Err?
  {
    db := Database.Create(codecs, catalog, capacity, databaseId, checksums);
    if db.Err? {
      return db, Err(db.error), Err(db.error);
    }
    done := db.value.Execute(op);
    EmptyTablesOk(catalog);
    reopened :=
      Database.Open(codecs, db.value.pool.disk.file, Some(db.value.wal.file), capacity, checksums, catalog,
                    EmptyTables(catalog));
  }

  /** A payload whose length fits its 4-byte prefix reads back whole. */
  predicate Storable(p: Payloads) { |p.catalog| < U32_RANGE && |p.tables| < U32_RANGE && |p.rels| < U32_RANGE }

  lemma ImageStored(c: Codecs, file: seq<Page>, h: DatabaseHeader, p: Payloads, cat: Catalog, ts: Tables)
    requires Holds(c.header, file, h, p) && GoodHeader(h, |file|) && Encodes(c, p, cat, ts)
    ensures OnDisk(c, file, cat, ts)
  {}
}
