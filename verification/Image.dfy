/** The checkpoint image: the catalog and the tables as three payloads in the pages of the file. */
module Image {
  import opened Wrappers
  import opened Bytes
  import opened Disk
  import opened Header
  import opened Persist
  import opened NodeTable
  import opened CsrGroups
  import opened RelTable
  import opened Wal
  import opened Recovery
  import opened MultiPage
  import B = BufferPool
  import N = NodeTable
  import C = CsrGroups

  type NodeList = seq<(string, TableData)>
  type RelList = seq<(string, RelData)>

  /** bincode and crc32 as far as the files use them. */
  datatype Codecs = Codecs(
    header: HeaderCodec,
    wal: WalCodec,
    encCatalog: Catalog -> seq<byte>, decCatalog: seq<byte> -> Result<Catalog>,
    encNodes: NodeList -> seq<byte>, decNodes: seq<byte> -> Result<NodeList>,
    encRels: RelList -> seq<byte>, decRels: seq<byte> -> Result<RelList>)

  ghost predicate CodecsOk(c: Codecs) {
    && HeaderCodecOk(c.header) && WalCodecOk(c.wal)
    && (forall x :: c.encCatalog(x) != [] && c.decCatalog(c.encCatalog(x)) == Ok(x))
    && (forall x :: c.encNodes(x) != [] && c.decNodes(c.encNodes(x)) == Ok(x))
    && (forall x :: c.encRels(x) != [] && c.decRels(c.encRels(x)) == Ok(x))
  }

  // ------------------------------------------------------------------ listings of the tables

  /** The tables' data in whatever order the hash map has. */
  ghost predicate ListsNodes(list: NodeList, nodes: map<string, Table>) {
    && (forall e :: e in list ==> e.0 in nodes && e.1 == nodes[e.0].data)
    && (forall n :: n in nodes ==> (n, nodes[n].data) in list)
  }

  ghost predicate ListsRels(list: RelList, rels: map<string, Rel>) {
    && (forall e :: e in list ==> e.0 in rels && IsDataOf(e.1, rels[e.0]))
    && (forall n :: n in rels ==> exists e :: e in list && e.0 == n)
  }

  method ListNodes(nodes: map<string, Table>) returns (list: NodeList)
    ensures ListsNodes(list, nodes)
  {
    list := [];
    var pending := nodes.Keys;
    while pending != {}
      invariant pending <= nodes.Keys
      invariant forall e :: e in list ==> e.0 in nodes && e.1 == nodes[e.0].data
      invariant forall n :: n in nodes && n !in pending ==> (n, nodes[n].data) in list
      decreases |pending|
    {
      var n :| n in pending;
      list := list + [(n, nodes[n].data)];
      pending := pending - {n};
    }
  }

  method ListRels(rels: map<string, Rel>) returns (list: RelList)
    requires forall n :: n in rels ==> Refined(rels[n])
    ensures ListsRels(list, rels)
  {
    list := [];
    var pending := rels.Keys;
    while pending != {}
      invariant pending <= rels.Keys
      invariant forall e :: e in list ==> e.0 in rels && IsDataOf(e.1, rels[e.0])
      invariant forall n :: n in rels && n !in pending ==> exists e :: e in list && e.0 == n
      decreases |pending|
    {
      var n :| n in pending;
      var data := SaveRel(rels[n]);
      ghost var before := list;
      list := list + [(n, data)];
      Appended(before, list, (n, data));
      pending := pending - {n};
    }
  }

  lemma Appended<T>(before: seq<T>, list: seq<T>, last: T)
    requires list == before + [last]
    ensures forall e :: e in list <==> e in before || e == last
  {}

  method SaveRel(t: Rel) returns (d: RelData)
    requires Refined(t)
    ensures IsDataOf(d, t)
  {
    var table := new RelTable.Of(t);
    d := table.ToData();
  }

  /**
   The saved tables that the catalog knows; data without a schema is dropped. The list is a
   hash map, so the last entry of a name is its only one.
   */
  ghost function CollectNodes(cat: Catalog, list: NodeList): map<string, Table>
  {
    if list == [] then map[]
    else
      var (name, data) := list[|list| - 1];
      var before := CollectNodes(cat, list[..|list| - 1]);
      if name in cat.tables then before[name := N.FromData(cat.tables[name], data)] else before
  }

  method AddEmpty<S, T>(schemas: map<string, S>, empty: S -> T, loaded: map<string, T>) returns (tables: map<string, T>)
    ensures tables == WithEmpty(schemas, empty, loaded)
  {
    tables := loaded;
    var pending := schemas.Keys;
    while pending != {}
      invariant pending <= schemas.Keys
      invariant forall n :: n in tables <==> n in loaded || (n in schemas && n !in pending)
      invariant forall n :: n in tables ==> tables[n] == if n in loaded then loaded[n] else empty(schemas[n])
      decreases |pending|
    {
      var n :| n in pending;
      if n !in tables {
        tables := tables[n := empty(schemas[n])];
      }
      pending := pending - {n};
    }
    Completed(schemas, empty, loaded, tables);
  }

  lemma Completed<S, T>(schemas: map<string, S>, empty: S -> T, loaded: map<string, T>, tables: map<string, T>)
    requires forall n :: n in tables <==> n in loaded || n in schemas
    requires forall n :: n in tables ==> tables[n] == if n in loaded then loaded[n] else empty(schemas[n])
    ensures tables == WithEmpty(schemas, empty, loaded)
  {
    assert tables.Keys == WithEmpty(schemas, empty, loaded).Keys;
  }

  /** The two loops of `load_table_data`. */
  method LoadNodes(cat: Catalog, list: NodeList) returns (tables: map<string, Table>)
    ensures tables == WithEmpty(cat.tables, EmptyTable, CollectNodes(cat, list))
  {
    tables := map[];
    for i := 0 to |list|
      invariant tables == CollectNodes(cat, list[..i])
    {
      var (name, data) := list[i];
      assert list[..i + 1][..i] == list[..i];
      if name in cat.tables {
        var table := new NodeTable.FromSaved(cat.tables[name], data);
        tables := tables[name := table.Contents()];
      }
    }
    assert list[..|list|] == list;
    tables := AddEmpty(cat.tables, EmptyTable, tables);
  }

  lemma {:induction false} CollectPartOfNodes(cat: Catalog, list: NodeList, nodes: map<string, Table>)
    requires forall e :: e in list ==> e.0 in nodes && e.1 == nodes[e.0].data
    requires forall n :: n in nodes ==> n in cat.tables && N.TableOk(nodes[n]) && nodes[n].schema == cat.tables[n]
    ensures forall n :: n in CollectNodes(cat, list) ==> n in nodes && CollectNodes(cat, list)[n] == nodes[n]
    ensures forall e :: e in list ==> e.0 in CollectNodes(cat, list)
  {
    if list != [] {
      var last := list[|list| - 1];
      CollectPartOfNodes(cat, list[..|list| - 1], nodes);
      assert last in list;
      N.FromDataRestores(nodes[last.0]);
    }
  }

  /** A complete listing loads back to the saved tables, and none has to be added. */
  lemma CollectAllNodes(cat: Catalog, list: NodeList, nodes: map<string, Table>)
    requires ListsNodes(list, nodes) && nodes.Keys == cat.tables.Keys
    requires forall n :: n in nodes ==> N.TableOk(nodes[n]) && nodes[n].schema == cat.tables[n]
    ensures WithEmpty(cat.tables, EmptyTable, CollectNodes(cat, list)) == nodes
  {
    CollectPartOfNodes(cat, list, nodes);
    forall n | n in nodes ensures n in CollectNodes(cat, list) {
      assert (n, nodes[n].data) in list;
    }
    assert CollectNodes(cat, list).Keys == nodes.Keys;
    SameMap(CollectNodes(cat, list), nodes);
    NothingMissing(cat.tables, EmptyTable, nodes);
  }

  predicate NamesKnown(cat: Catalog, list: RelList) { forall i :: 0 <= i < |list| ==> list[i].0 in cat.relTables }

  function CollectRels(cat: Catalog, list: RelList): map<string, Rel>
    requires NamesKnown(cat, list)
  {
    if list == [] then map[]
    else
      var (name, data) := list[|list| - 1];
      CollectRels(cat, list[..|list| - 1])[name := RelFromData(|cat.relTables[name].columns|, data)]
  }

  /** The two loops of `load_rel_table_data`; data without a schema is an error. */
  method LoadRels(cat: Catalog, list: RelList) returns (r: Result<map<string, Rel>>)
    ensures r == if NamesKnown(cat, list) then Ok(WithEmpty(cat.relTables, EmptyRelFor, CollectRels(cat, list)))
              else Err(RelTableCorrupted)
  {
    var tables := map[];
    for i := 0 to |list|
      invariant NamesKnown(cat, list[..i]) && tables == CollectRels(cat, list[..i])
    {
      var (name, data) := list[i];
      if name !in cat.relTables {
        return Err(RelTableCorrupted);
      }
      assert list[..i + 1][..i] == list[..i];
      var table := new RelTable.FromSaved(|cat.relTables[name].columns|, data);
      tables := tables[name := table.Contents()];
    }
    assert list[..|list|] == list;
    tables := AddEmpty(cat.relTables, EmptyRelFor, tables);
    r := Ok(tables);
  }

  lemma {:induction false} CollectPartOfRels(cat: Catalog, list: RelList, rels: map<string, Rel>)
    requires forall e :: e in list ==> e.0 in rels && IsDataOf(e.1, rels[e.0])
    requires forall n ::
               n in rels ==> n in cat.relTables && RelOk(rels[n]) && rels[n].numProps == |cat.relTables[n].columns|
    ensures NamesKnown(cat, list)
    ensures forall n :: n in CollectRels(cat, list) ==> n in rels && CollectRels(cat, list)[n] == rels[n]
    ensures forall e :: e in list ==> e.0 in CollectRels(cat, list)
  {
    if list != [] {
      var last := list[|list| - 1];
      CollectPartOfRels(cat, list[..|list| - 1], rels);
      assert last in list;
      C.FromDataRestores(rels[last.0], last.1);
    }
  }

  lemma CollectAllRels(cat: Catalog, list: RelList, rels: map<string, Rel>)
    requires ListsRels(list, rels) && rels.Keys == cat.relTables.Keys
    requires forall n :: n in rels ==> RelOk(rels[n]) && rels[n].numProps == |cat.relTables[n].columns|
    ensures NamesKnown(cat, list) && WithEmpty(cat.relTables, EmptyRelFor, CollectRels(cat, list)) == rels
  {
    CollectPartOfRels(cat, list, rels);
    forall n | n in rels ensures n in CollectRels(cat, list) {
      var e :| e in list && e.0 == n;
    }
    assert CollectRels(cat, list).Keys == rels.Keys;
    SameMap(CollectRels(cat, list), rels);
    NothingMissing(cat.relTables, EmptyRelFor, rels);
  }

  // ------------------------------------------------------------------ the image in the file

  /** The payloads encode this catalog and these tables, in some order. */
  ghost predicate Encodes(c: Codecs, p: Payloads, cat: Catalog, ts: Tables) {
    && p.catalog == c.encCatalog(cat)
    && (exists list :: p.tables == c.encNodes(list) && ListsNodes(list, ts.nodes))
    && (exists list :: p.rels == c.encRels(list) && ListsRels(list, ts.rels))
  }

  /** The file alone holds this catalog and these tables. */
  ghost predicate OnDisk(c: Codecs, file: seq<Page>, cat: Catalog, ts: Tables) {
    exists h, p :: Holds(c.header, file, h, p) && GoodHeader(h, |file|) && Encodes(c, p, cat, ts)
  }

  ghost predicate GoodHeader(h: DatabaseHeader, filePages: nat) {
    RangesOk(h, filePages) && h.magicOk && h.version <= CURRENT_VERSION
  }

  method EncodeTables(c: Codecs, cat: Catalog, ts: Tables) returns (p: Payloads)
    requires TablesOk(cat, ts)
    ensures Encodes(c, p, cat, ts)
  {
    var nodes := ListNodes(ts.nodes);
    var rels := ListRels(ts.rels);
    p := Payloads(c.encCatalog(cat), c.encNodes(nodes), c.encRels(rels));
  }

  /** Nothing is cached that the disk does not hold, so everything reads from the file. */
  ghost predicate FreshPool(pool: B.BufferPool, file: seq<Page>)
    reads pool, pool.disk, pool.evictionQueue
  {
    && Quiet(pool) && pool.AllClean() && pool.disk.file == file
    && forall q: nat :: pool.View(q) == PageAt(file, q)
  }

  /** `read_multi_page` on a fresh pool reads the blob of the file. */
  method ReadBlob(pool: B.BufferPool, range: PageRange, ghost file: seq<Page>) returns (r: Result<seq<byte>>)
    requires FreshPool(pool, file) && range.EndPage() <= pool.disk.nextPageIdx
    modifies pool, pool.disk`file, pool.evictionQueue
    ensures FreshPool(pool, file) && r == LoadBlob(file, range)
  {
    assert Views(pool, range.startPage, range.numPages) == FilePages(file, range.startPage, range.numPages);
    r := ReadMultiPage(pool, range);
  }

  /** The header test of `load_database`. */
  method LoadFileHeader(c: Codecs, pool: B.BufferPool, ghost file: seq<Page>) returns (r: Result<DatabaseHeader>)
    requires FreshPool(pool, file)
    modifies pool, pool.disk`file, pool.evictionQueue
    ensures (|file| > 0 ==> FreshPool(pool, file)) && r == LoadHeader(c.header, PageAt(file, 0), |file|)
  {
    var page := GetPage(pool, 0);
    if page.Err? {
      return Err(StorageError);
    }
    r := LoadHeader(c.header, page.value, |pool.disk.file|);
  }

  method ReadPayloads(ghost c: Codecs, pool: B.BufferPool, h: DatabaseHeader, ghost file: seq<Page>,
                      ghost p: Payloads) returns (r: Payloads)
    requires FreshPool(pool, file) && Holds(c.header, file, h, p) && RangesOk(h, |file|)
    modifies pool, pool.disk`file, pool.evictionQueue
    ensures FreshPool(pool, file) && r == p
  {
    var catalog := ReadBlob(pool, h.catalogRange, file);
    var tables := ReadBlob(pool, h.metadataRange, file);
    var rels := ReadBlob(pool, h.relMetadataRange, file);
    r := Payloads(catalog.value, tables.value, rels.value);
  }

  /** The header and the payloads of a file that a checkpoint has written. */
  method LoadPages(c: Codecs, pool: B.BufferPool, header: DatabaseHeader, ghost file: seq<Page>,
                   ghost h: DatabaseHeader, ghost p: Payloads)
    returns (payloads: Payloads)
    requires FreshPool(pool, file) && Holds(c.header, file, h, p) && RangesOk(h, |file|)
    requires LoadHeader(c.header, PageAt(file, 0), |file|) == Ok(header)
    modifies pool, pool.disk`file, pool.evictionQueue
    ensures FreshPool(pool, file) && header == h && payloads == p
  {
    payloads := ReadPayloads(c, pool, header, file, p);
  }

  datatype Loaded = Loaded(header: DatabaseHeader, catalog: Catalog, tables: Tables)

  method DecodeImage(c: Codecs, h: DatabaseHeader, p: Payloads, ghost cat: Catalog, ghost ts: Tables)
    returns (r: Result<Loaded>)
    requires CodecsOk(c) && Encodes(c, p, cat, ts) && CatalogOk(cat) && TablesOk(cat, ts)
    ensures r == Ok(Loaded(h, cat, ts))
  {
    ghost var nodeList :| p.tables == c.encNodes(nodeList) && ListsNodes(nodeList, ts.nodes);
    ghost var relList :| p.rels == c.encRels(relList) && ListsRels(relList, ts.rels);
    var catalog := c.decCatalog(p.catalog);
    var nodes := c.decNodes(p.tables);
    var rels := c.decRels(p.rels);
    if catalog.Err? || nodes.Err? || rels.Err? {
      return Err(RelTableLoadError);
    }
    CollectAllNodes(cat, nodeList, ts.nodes);
    var tables := LoadNodes(catalog.value, nodes.value);
    CollectAllRels(cat, relList, ts.rels);
    var relTables := LoadRels(catalog.value, rels.value);
    if relTables.Err? {
      return Err(RelTableCorrupted);
    }
    r := Ok(Loaded(h, catalog.value, Tables(tables, relTables.value)));
  }
}
