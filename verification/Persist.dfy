/** Saving the three payloads and the header through the buffer pool, and loading them from disk. */
module Persist {
  import opened Wrappers
  import opened Bytes
  import opened Disk
  import opened BufferPool
  import opened MultiPage
  import opened Header

  /** The range shows the payload of `data` and has room for it. */
  ghost predicate Stored(pool: BufferPool, range: PageRange, data: seq<byte>)
    reads pool, pool.disk
    requires TableOk(pool.frames, pool.pageTable)
  {
    && |data| + 4 <= range.ByteCapacity()
    && forall k: nat :: k < range.numPages ==> pool.View(range.startPage + k) == PageOf(Payload(data), k)
  }

  /** A usable pool: nobody holds a page and everything lies inside the file. */
  ghost predicate Quiet(pool: BufferPool)
    reads pool, pool.disk, pool.evictionQueue
  {
    pool.Valid() && pool.InBounds() && pool.handles == multiset{}
  }

  /** The old range if the data still fits it, otherwise fresh pages at the end of the file. */
  method ChooseRange(pool: BufferPool, current: PageRange, dataLen: nat) returns (r: Result<PageRange>)
    requires Quiet(pool)
    modifies pool.disk
    ensures Quiet(pool) && pool.disk.nextPageIdx >= old(pool.disk.nextPageIdx)
    ensures forall p: nat :: pool.View(p) == old(pool.View(p))
    ensures dataLen <= LongestPayload() ==> r.Ok? && dataLen + 4 <= r.value.ByteCapacity()
    ensures r.Ok? ==>
              r.value == current
              || (r.value.startPage == old(pool.disk.nextPageIdx) && r.value.numPages >= 1
                  && r.value.EndPage() == pool.disk.nextPageIdx)
    ensures dataLen + 4 <= current.ByteCapacity() && dataLen <= LongestPayload()
        ==> r == Ok(current) && unchanged(pool.disk)
  {
    var pagesNeeded := CalculatePagesNeeded(dataLen);
    if dataLen <= LongestPayload() {
      PagesNeededIsLeast(dataLen, current.numPages);
      PagesNeededIsLeast(dataLen, pagesNeeded);
    }
    if pagesNeeded <= current.numPages {
      return Ok(current);
    }
    r := pool.AllocatePageRange(pagesNeeded);
  }

  /** A blob and where it is stored. */
  datatype Blob = Blob(range: PageRange, data: seq<byte>)

  /** Saves one blob; the blobs in `others` stay stored and stay apart from it. */
  method SaveBlob(pool: BufferPool, current: PageRange, data: seq<byte>, ghost others: seq<Blob>)
    returns (r: Result<PageRange>)
    requires Quiet(pool) && current.numPages >= 1 && current.EndPage() <= pool.disk.nextPageIdx
    requires forall i ::
               0 <= i < |others| ==> Stored(pool, others[i].range, others[i].data) && Apart(current, others[i].range)
    requires forall i :: 0 <= i < |others| ==> others[i].range.EndPage() <= pool.disk.nextPageIdx
    modifies pool, pool.disk, pool.evictionQueue
    ensures Quiet(pool) && pool.disk.nextPageIdx >= old(pool.disk.nextPageIdx)
    ensures |data| <= LongestPayload() ==> r.Ok?
    ensures r.Ok? ==> r.value == current || r.value.startPage == old(pool.disk.nextPageIdx)
    ensures r.Ok? ==> r.value.numPages >= 1 && r.value.EndPage() <= pool.disk.nextPageIdx
    ensures r.Ok? ==> Stored(pool, r.value, data)
    ensures r.Ok? ==> forall i :: 0 <= i < |others| ==> Stored(pool, others[i].range, others[i].data)
  {
    r := ChooseRange(pool, current, |data|);
    if r.Err? {
      return;
    }
    forall i | 0 <= i < |others| ensures Apart(r.value, others[i].range) {
      FreshIsApart(r.value, current, others[i].range, old(pool.disk.nextPageIdx));
    }
    var w := StoreBlob(pool, r.value, data, others);
    if w.Err? {
      r := Err(w.error);
    }
  }

  method StoreBlob(pool: BufferPool, range: PageRange, data: seq<byte>, ghost others: seq<Blob>) returns (r: Result<()>)
    requires Quiet(pool) && range.EndPage() <= pool.disk.nextPageIdx
    requires forall i ::
               0 <= i < |others| ==> Stored(pool, others[i].range, others[i].data) && Apart(range, others[i].range)
    modifies pool, pool.disk`file, pool.evictionQueue
    ensures Quiet(pool)
    ensures r.Ok? <==> |data| + 4 <= range.ByteCapacity()
    ensures r.Ok? ==> Stored(pool, range, data)
    ensures forall i :: 0 <= i < |others| ==> Stored(pool, others[i].range, others[i].data)
  {
    r := WriteMultiPage(pool, range, data);
    assert r.Ok? ==> forall k: nat ::
             k < range.numPages ==> Views(pool, range.startPage, range.numPages)[k] == PageOf(Payload(data), k);
    forall i, k: nat | 0 <= i < |others| && k < others[i].range.numPages
      ensures pool.View(others[i].range.startPage + k) == PageOf(Payload(others[i].data), k)
    {
      assert others[i].range.ContainsPage(others[i].range.startPage + k);
    }
  }

  /** A fresh range behind the old end of the file meets no range inside it. */
  lemma FreshIsApart(range: PageRange, current: PageRange, other: PageRange, end: nat)
    requires range == current || range.startPage == end
    requires other.EndPage() <= end && Apart(current, other)
    ensures Apart(range, other)
  {}

  datatype Payloads = Payloads(catalog: seq<byte>, tables: seq<byte>, rels: seq<byte>)

  function LongestPayload(): nat { (U32_RANGE - 1) * PAGE_SIZE - 4 }

  predicate PayloadsFit(p: Payloads) {
    |p.catalog| <= LongestPayload() && |p.tables| <= LongestPayload() && |p.rels| <= LongestPayload()
  }

  ghost predicate AllStored(pool: BufferPool, h: DatabaseHeader, p: Payloads)
    reads pool, pool.disk
    requires TableOk(pool.frames, pool.pageTable)
  {
    Stored(pool, h.catalogRange, p.catalog) && Stored(pool, h.metadataRange, p.tables)
      && Stored(pool, h.relMetadataRange, p.rels)
  }

  method SaveAllData(pool: BufferPool, h: DatabaseHeader, p: Payloads) returns (r: Result<DatabaseHeader>)
    requires Quiet(pool) && RangesOk(h, pool.disk.nextPageIdx)
    modifies pool, pool.disk, pool.evictionQueue
    ensures Quiet(pool) && pool.disk.nextPageIdx >= old(pool.disk.nextPageIdx)
    ensures r.Err? ==> !PayloadsFit(p)
    ensures r.Ok? ==> r.value == h.(catalogRange := r.value.catalogRange, metadataRange := r.value.metadataRange,
                                    relMetadataRange := r.value.relMetadataRange)
    ensures r.Ok? ==> RangesOk(r.value, pool.disk.nextPageIdx) && AllStored(pool, r.value, p)
  {
    ghost var end := pool.disk.nextPageIdx;
    var saved := SaveBlob(pool, h.catalogRange, p.catalog, []);
    if saved.Err? { return Err(saved.error); }
    var h1 := h.(catalogRange := saved.value);
    NewRangesOk(h, h1, end, pool.disk.nextPageIdx);

    end := pool.disk.nextPageIdx;
    ghost var first := Blob(h1.catalogRange, p.catalog);
    ghost var others := [first];
    saved := SaveBlob(pool, h1.metadataRange, p.tables, others);
    if saved.Err? { return Err(saved.error); }
    assert others[0] == first;
    var h2 := h1.(metadataRange := saved.value);
    NewRangesOk(h1, h2, end, pool.disk.nextPageIdx);

    r := SaveRels(pool, h2, p);
  }

  /** The last of the three: catalog and node tables are stored already. */
  method SaveRels(pool: BufferPool, h: DatabaseHeader, p: Payloads) returns (r: Result<DatabaseHeader>)
    requires Quiet(pool) && RangesOk(h, pool.disk.nextPageIdx)
    requires Apart(h.relMetadataRange, h.catalogRange) && Apart(h.relMetadataRange, h.metadataRange)
    requires Stored(pool, h.catalogRange, p.catalog) && Stored(pool, h.metadataRange, p.tables)
    modifies pool, pool.disk, pool.evictionQueue
    ensures Quiet(pool) && pool.disk.nextPageIdx >= old(pool.disk.nextPageIdx)
    ensures r.Err? ==> |p.rels| > LongestPayload()
    ensures r.Ok? ==> r.value == h.(relMetadataRange := r.value.relMetadataRange)
    ensures r.Ok? ==> RangesOk(r.value, pool.disk.nextPageIdx) && AllStored(pool, r.value, p)
  {
    ghost var end := pool.disk.nextPageIdx;
    ghost var first, second := Blob(h.catalogRange, p.catalog), Blob(h.metadataRange, p.tables);
    ghost var others := [first, second];
    var saved := SaveBlob(pool, h.relMetadataRange, p.rels, others);
    if saved.Err? { return Err(saved.error); }
    assert others[0] == first && others[1] == second;
    var h' := h.(relMetadataRange := saved.value);
    NewRangesOk(h, h', end, pool.disk.nextPageIdx);
    r := Ok(h');
  }

  /** Replacing one range by itself or by fresh pages keeps the ranges disjoint and inside the file. */
  lemma NewRangesOk(h: DatabaseHeader, h': DatabaseHeader, end: nat, end': nat)
    requires RangesOk(h, end) && end <= end'
    requires h' == h.(catalogRange := h'.catalogRange) || h' == h.(metadataRange := h'.metadataRange)
          || h' == h.(relMetadataRange := h'.relMetadataRange)
    requires forall i :: 0 <= i < 3 ==> Ranges(h')[i] == Ranges(h)[i] || Ranges(h')[i].startPage == end
    requires InFile(h'.catalogRange, end') && InFile(h'.metadataRange, end') && InFile(h'.relMetadataRange, end')
    ensures RangesOk(h', end')
    ensures Apart(h'.metadataRange, h'.catalogRange)
    ensures Apart(h'.relMetadataRange, h'.catalogRange) && Apart(h'.relMetadataRange, h'.metadataRange)
  {
    ThreeRanges(h);
    ThreeRanges(h');
    assert Ranges(h)[0] == h.catalogRange && Ranges(h)[1] == h.metadataRange && Ranges(h)[2] == h.relMetadataRange;
    assert Ranges(h')[0] == h'.catalogRange && Ranges(h')[1] == h'.metadataRange
        && Ranges(h')[2] == h'.relMetadataRange;
    forall a, b | Apart(a, b) ensures Apart(b, a) {}
  }

  /** Puts the checksummed header over the start of page 0, which no range touches. */
  method SaveHeader(c: HeaderCodec, pool: BufferPool, h: DatabaseHeader, ghost p: Payloads) returns (r: DatabaseHeader)
    requires Quiet(pool) && RangesOk(h, pool.disk.nextPageIdx) && HeaderCodecOk(c) && AllStored(pool, h, p)
    modifies pool, pool.disk`file, pool.evictionQueue
    ensures Quiet(pool)
    ensures r == h.(checksum := ComputeChecksum(c, h))
    ensures |c.enc(r)| <= PAGE_SIZE && pool.View(0) == c.enc(r) + old(pool.View(0))[|c.enc(r)|..]
    ensures AllStored(pool, r, p)
  {
    r := h.(checksum := ComputeChecksum(c, h));
    var bytes := c.enc(r);
    NotPageZero(h);
    var page := GetPage(pool, 0);
    var w := PutPage(pool, 0, bytes + page.value[|bytes|..]);
  }

  lemma NotPageZero(h: DatabaseHeader)
    requires RangesDisjoint(Ranges(h))
    ensures forall i :: 0 <= i < 3 && Ranges(h)[i].numPages >= 1 ==> Ranges(h)[i].startPage > 0
    ensures h.catalogRange == Ranges(h)[0] && h.metadataRange == Ranges(h)[1] && h.relMetadataRange == Ranges(h)[2]
  {
    forall i | 0 <= i < 3 && Ranges(h)[i].numPages >= 1 ensures Ranges(h)[i].startPage > 0 {
      assert !Ranges(h)[i].ContainsPage(0);
    }
  }

  // ------------------------------------------------------------------ what the disk alone says

  function FilePages(file: seq<Page>, start: nat, n: nat): (pages: seq<Page>)
    ensures |pages| == n && forall i :: 0 <= i < n ==> pages[i] == PageAt(file, start + i)
  {
    if n == 0 then [] else FilePages(file, start, n - 1) + [PageAt(file, start + n - 1)]
  }

  /** `read_multi_page` on a range of the file. */
  function LoadBlob(file: seq<Page>, range: PageRange): Result<seq<byte>> {
    DecodePages(FilePages(file, range.startPage, range.numPages))
  }

  /** Reading the header and its three ranges from the file gives back these payloads. */
  ghost predicate Holds(c: HeaderCodec, file: seq<Page>, h: DatabaseHeader, p: Payloads) {
    && LoadHeader(c, PageAt(file, 0), |file|) == Ok(h)
    && LoadBlob(file, h.catalogRange) == Ok(p.catalog)
    && LoadBlob(file, h.metadataRange) == Ok(p.tables)
    && LoadBlob(file, h.relMetadataRange) == Ok(p.rels)
  }

  /** On disk every payload comes back cut to its length modulo 2^32: whole exactly when shorter than that. */
  lemma StoredLoads(pool: BufferPool, range: PageRange, data: seq<byte>)
    requires TableOk(pool.frames, pool.pageTable) && Stored(pool, range, data)
    requires forall p: nat :: pool.disk.Read(p) == pool.View(p)
    ensures LoadBlob(pool.disk.file, range) == Ok(Cut(data))
    ensures LoadBlob(pool.disk.file, range) == Ok(data) <==> |data| < U32_RANGE
  {
    var pages := FilePages(pool.disk.file, range.startPage, range.numPages);
    forall i | 0 <= i < |pages| ensures pages[i] == PageOf(Payload(data), i) {
      assert pool.disk.Read(range.startPage + i) == pool.View(range.startPage + i);
    }
    RoundTrip(pages, data);
  }

  /** The page part of a checkpoint: save, write the header, flush. The disk alone then holds the payloads. */
  method CheckpointPages(c: HeaderCodec, pool: BufferPool, h: DatabaseHeader, p: Payloads)
    returns (r: Result<DatabaseHeader>)
    requires Quiet(pool) && RangesOk(h, pool.disk.nextPageIdx) && HeaderCodecOk(c)
    requires h.magicOk && h.version <= CURRENT_VERSION
    modifies pool, pool.disk, pool.evictionQueue
    ensures Quiet(pool) && pool.disk.nextPageIdx >= old(pool.disk.nextPageIdx)
    ensures r.Err? ==> !PayloadsFit(p)
    ensures r.Ok? ==> RangesOk(r.value, pool.disk.nextPageIdx)
    ensures r.Ok? ==> r.value.magicOk && r.value.version == h.version && r.value.databaseId == h.databaseId
    ensures r.Ok? && pool.disk.nextPageIdx <= U32_RANGE ==>
              Holds(c, pool.disk.file, r.value, Payloads(Cut(p.catalog), Cut(p.tables), Cut(p.rels)))
  {
    r := SaveAllData(pool, h, p);
    if r.Err? {
      return;
    }
    var h' := SaveHeader(c, pool, r.value, p);
    FlushAndLoad(pool, h', p);
    if pool.disk.nextPageIdx <= U32_RANGE {
      RangesFit32(h', pool.disk.nextPageIdx);
      SavedHeaderLoads(c, h', PageAt(pool.disk.file, 0)[|c.enc(h')|..], |pool.disk.file|);
    }
    r := Ok(h');
  }

  /** Flushes; the three ranges then load from the file. */
  method FlushAndLoad(pool: BufferPool, ghost h: DatabaseHeader, ghost p: Payloads)
    requires Quiet(pool) && AllStored(pool, h, p)
    modifies pool`frames, pool.disk`file
    ensures Quiet(pool) && PageAt(pool.disk.file, 0) == old(pool.View(0))
    ensures LoadBlob(pool.disk.file, h.catalogRange) == Ok(Cut(p.catalog))
    ensures LoadBlob(pool.disk.file, h.metadataRange) == Ok(Cut(p.tables))
    ensures LoadBlob(pool.disk.file, h.relMetadataRange) == Ok(Cut(p.rels))
  {
    FlushStored(pool, h, p);
    StoredLoads(pool, h.catalogRange, p.catalog);
    StoredLoads(pool, h.metadataRange, p.tables);
    StoredLoads(pool, h.relMetadataRange, p.rels);
    assert pool.disk.Read(0) == pool.View(0);
  }

  method FlushStored(pool: BufferPool, ghost h: DatabaseHeader, ghost p: Payloads)
    requires Quiet(pool) && AllStored(pool, h, p)
    modifies pool`frames, pool.disk`file
    ensures Quiet(pool) && AllStored(pool, h, p)
    ensures pool.View(0) == old(pool.View(0))
    ensures forall q: nat :: pool.disk.Read(q) == pool.View(q)
  {
    pool.FlushAll();
  }
}
