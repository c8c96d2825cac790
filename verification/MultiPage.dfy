/** Byte strings of any length stored over a contiguous page range, behind a 4-byte length prefix. */
module MultiPage {
  import opened Wrappers
  import opened Bytes
  import opened Disk
  import opened BufferPool

  /** `(data_len + 4).div_ceil(PAGE_SIZE) as u32` */
  function CalculatePagesNeeded(dataLen: nat): nat {
    (dataLen + 4 + PAGE_SIZE - 1) / PAGE_SIZE % U32_RANGE
  }

  /** The page count is the least that holds the data and its prefix, as long as it fits 32 bits. */
  lemma PagesNeededIsLeast(dataLen: nat, n: nat)
    requires dataLen + 4 <= (U32_RANGE - 1) * PAGE_SIZE
    ensures CalculatePagesNeeded(dataLen) <= n <==> dataLen + 4 <= n * PAGE_SIZE
    ensures CalculatePagesNeeded(dataLen) >= 1
  {}

  function Payload(data: seq<byte>): seq<byte> { ToLe32(|data|) + data }

  /** The bytes cut off or filled up with zeros to a given length. */
  function Padded(bytes: seq<byte>, len: nat): (r: seq<byte>)
    ensures |r| == len
    ensures forall j :: 0 <= j < len ==> r[j] == if j < |bytes| then bytes[j] else 0
  {
    seq(len, j requires 0 <= j => if j < |bytes| then bytes[j] else 0)
  }

  /** The i-th page of the padded bytes. */
  function PageOf(bytes: seq<byte>, i: nat): Page {
    Padded(bytes[if i * PAGE_SIZE <= |bytes| then i * PAGE_SIZE else |bytes|..], PAGE_SIZE)
  }

  function Concat(pages: seq<Page>): (r: seq<byte>)
    ensures |r| == |pages| * PAGE_SIZE
  {
    if pages == [] then [] else Concat(pages[..|pages| - 1]) + pages[|pages| - 1]
  }

  /** What `read_multi_page` makes of the pages of a range. */
  function DecodePages(pages: seq<Page>): Result<seq<byte>> {
    if pages == [] then Err(StorageError)
    else
      var raw := Concat(pages);
      var len := FromLe32(raw[..4]);
      if len + 4 > |raw| then Err(MultiPageDataCorrupted) else Ok(raw[4..4 + len])
  }

  ghost predicate HoldsPages(pages: seq<Page>, bytes: seq<byte>) {
    forall i :: 0 <= i < |pages| ==> pages[i] == PageOf(bytes, i)
  }

  lemma {:induction false} ConcatOfPages(pages: seq<Page>, bytes: seq<byte>)
    requires HoldsPages(pages, bytes)
    ensures Concat(pages) == Padded(bytes, |pages| * PAGE_SIZE)
  {
    if pages != [] {
      var n := |pages| - 1;
      ConcatOfPages(pages[..n], bytes);
      assert Padded(bytes, (n + 1) * PAGE_SIZE) == Padded(bytes, n * PAGE_SIZE) + PageOf(bytes, n);
    }
  }

  /** What is left of data whose length is taken modulo 2^32. */
  function Cut(data: seq<byte>): seq<byte> { data[..|data| % U32_RANGE] }

  lemma CutIsWhole(data: seq<byte>)
    ensures |Cut(data)| == |data| % U32_RANGE && (Cut(data) == data <==> |data| < U32_RANGE)
  {}

  /** Behind its prefix the payload starts with the data. */
  lemma PrefixAndData(raw: seq<byte>, data: seq<byte>, n: nat)
    requires raw == Padded(Payload(data), n) && |data| + 4 <= n
    ensures |raw| == n && raw[..4] == ToLe32(|data|) && raw[4..4 + |data|] == data
  {}

  /**
   Reading a range back gives exactly what was written if and only if the length
   fits the 32-bit prefix; longer data is written without an error and comes back
   cut to its length modulo 2^32.
   */
  lemma RoundTrip(pages: seq<Page>, data: seq<byte>)
    requires |data| + 4 <= |pages| * PAGE_SIZE && HoldsPages(pages, Payload(data))
    ensures DecodePages(pages) == Ok(data) <==> |data| < U32_RANGE
    ensures DecodePages(pages) == Ok(Cut(data))
  {
    ConcatOfPages(pages, Payload(data));
    var raw := Concat(pages);
    PrefixAndData(raw, data, |pages| * PAGE_SIZE);
    Le32RoundTrip(|data|);
    CutIsWhole(data);
    assert raw[4..4 + |Cut(data)|] == raw[4..4 + |data|][..|Cut(data)|];
  }

  /** The length prefix is at the start of the first page, and the data follow byte by byte. */
  ghost predicate LiesIn(pages: seq<Page>, data: seq<byte>)
    requires |data| + 4 <= |pages| * PAGE_SIZE
  {
    && (forall j :: 0 <= j < 4 ==> pages[0][j] == ToLe32(|data|)[j])
    && forall j :: 0 <= j < |data| ==> pages[(4 + j) / PAGE_SIZE][(4 + j) % PAGE_SIZE] == data[j]
  }

  lemma PayloadLies(pages: seq<Page>, data: seq<byte>)
    requires |data| + 4 <= |pages| * PAGE_SIZE && HoldsPages(pages, Payload(data))
    ensures LiesIn(pages, data)
  {
    forall j | 0 <= j < |data| ensures pages[(4 + j) / PAGE_SIZE][(4 + j) % PAGE_SIZE] == data[j] {
      var i := (4 + j) / PAGE_SIZE;
      assert pages[i] == PageOf(Payload(data), i) && Payload(data)[4 + j] == data[j];
    }
    assert pages[0] == PageOf(Payload(data), 0);
  }

  /** The pages of a range as the pool shows them. */
  function Views(pool: BufferPool, start: nat, n: nat): (pages: seq<Page>)
    reads pool, pool.disk
    requires TableOk(pool.frames, pool.pageTable)
    ensures |pages| == n && forall i :: 0 <= i < n ==> pages[i] == pool.View(start + i)
  {
    if n == 0 then [] else Views(pool, start, n - 1) + [pool.View(start + n - 1)]
  }

  /** Without live handles some frame is always free to take a page. */
  lemma NoHandleNoPin(pool: BufferPool)
    requires pool.Valid() && pool.handles == multiset{}
    ensures pool.frames[0].pins == 0
  {}

  /** The page written at a byte offset: the chunk that starts there and zeros behind it. */
  function ChunkAt(payload: seq<byte>, offset: nat): Page {
    var chunkEnd := if offset + PAGE_SIZE < |payload| then offset + PAGE_SIZE else |payload|;
    if offset < |payload| then payload[offset..chunkEnd] + seq(PAGE_SIZE - (chunkEnd - offset), j => 0)
    else ZeroPage()
  }

  lemma ChunkIsPage(payload: seq<byte>, i: nat)
    ensures ChunkAt(payload, i * PAGE_SIZE) == PageOf(payload, i)
  {}

  /** Pins a page, overwrites it and drops the handle. */
  method PutPage(pool: BufferPool, p: nat, data: Page) returns (r: Result<()>)
    requires pool.Valid()
    modifies pool, pool.disk`file, pool.evictionQueue
    ensures pool.Valid() && pool.handles == old(pool.handles)
    ensures forall q: nat :: pool.View(q) == if r.Ok? && q == p then data else old(pool.View(q))
    ensures pool.handles == multiset{} ==> r.Ok?
    ensures old(pool.InBounds()) && p < pool.disk.nextPageIdx ==> pool.InBounds()
  {
    if pool.handles == multiset{} { NoHandleNoPin(pool); }
    var pinned := pool.Pin(p);
    if pinned.Err? {
      return Err(pinned.error);
    }
    WriteAndDrop(pool, pinned.value, data);
    PinAndDrop(old(pool.handles), pinned.value);
    r := Ok(());
  }

  lemma PinAndDrop(handles: multiset<PageHandle>, h: PageHandle)
    ensures (handles + multiset{h}) - multiset{h} == handles
  {}

  method WriteAndDrop(pool: BufferPool, h: PageHandle, data: Page)
    requires pool.Valid() && h in pool.handles
    modifies pool`frames, pool`handles, pool`lastUnpin, pool`clock, pool.evictionQueue
    ensures pool.Valid() && pool.handles == old(pool.handles) - multiset{h}
    ensures forall q: nat :: pool.View(q) == if q == h.page then data else old(pool.View(q))
    ensures old(pool.InBounds()) ==> pool.InBounds()
  {
    pool.WriteData(h, data);
    pool.Unpin(h);
  }

  /** Pins a page, copies its bytes and drops the handle. */
  method GetPage(pool: BufferPool, p: nat) returns (r: Result<Page>)
    requires pool.Valid()
    modifies pool, pool.disk`file, pool.evictionQueue
    ensures pool.Valid() && pool.handles == old(pool.handles)
    ensures forall q: nat :: pool.View(q) == old(pool.View(q))
    ensures r.Ok? ==> r.value == pool.View(p)
    ensures old(pool.AllClean()) ==> pool.AllClean() && pool.disk.file == old(pool.disk.file)
    ensures pool.handles == multiset{} ==> r.Ok?
    ensures old(pool.InBounds()) && p < pool.disk.nextPageIdx ==> pool.InBounds()
  {
    if pool.handles == multiset{} { NoHandleNoPin(pool); }
    var pinned := pool.Pin(p);
    if pinned.Err? {
      return Err(pinned.error);
    }
    var page := CopyAndDrop(pool, pinned.value);
    PinAndDrop(old(pool.handles), pinned.value);
    r := Ok(page);
  }

  method CopyAndDrop(pool: BufferPool, h: PageHandle) returns (page: Page)
    requires pool.Valid() && h in pool.handles
    modifies pool`frames, pool`handles, pool`lastUnpin, pool`clock, pool.evictionQueue
    ensures pool.Valid() && pool.handles == old(pool.handles) - multiset{h}
    ensures forall q: nat :: pool.View(q) == old(pool.View(q))
    ensures page == pool.View(h.page)
    ensures (old(pool.InBounds()) ==> pool.InBounds()) && (old(pool.AllClean()) ==> pool.AllClean())
  {
    page := pool.Data(h);
    pool.Unpin(h);
  }

  method WriteMultiPage(pool: BufferPool, range: PageRange, data: seq<byte>) returns (r: Result<()>)
    requires pool.Valid()
    modifies pool, pool.disk`file, pool.evictionQueue
    ensures pool.Valid() && pool.handles == old(pool.handles)
    ensures |data| + 4 > range.ByteCapacity() ==> r == Err(StorageError) && unchanged(pool) && unchanged(pool.disk)
    ensures forall p: nat :: !range.ContainsPage(p) ==> pool.View(p) == old(pool.View(p))
    ensures r.Ok? ==> HoldsPages(Views(pool, range.startPage, range.numPages), Payload(data))
    ensures r.Ok? ==> |data| + 4 <= range.ByteCapacity() && LiesIn(Views(pool, range.startPage, range.numPages), data)
    ensures |data| + 4 <= range.ByteCapacity() && pool.handles == multiset{} ==> r.Ok?
    ensures old(pool.InBounds()) && range.EndPage() <= pool.disk.nextPageIdx ==> pool.InBounds()
  {
    if |data| + 4 > range.ByteCapacity() {
      return Err(StorageError);
    }
    r := WritePages(pool, range, Payload(data));
    if r.Ok? { PayloadLies(Views(pool, range.startPage, range.numPages), data); }
  }

  method WritePages(pool: BufferPool, range: PageRange, payload: seq<byte>) returns (r: Result<()>)
    requires pool.Valid()
    modifies pool, pool.disk`file, pool.evictionQueue
    ensures pool.Valid() && pool.handles == old(pool.handles)
    ensures forall p: nat :: !range.ContainsPage(p) ==> pool.View(p) == old(pool.View(p))
    ensures r.Ok? ==> forall k: nat :: k < range.numPages ==> pool.View(range.startPage + k) == PageOf(payload, k)
    ensures pool.handles == multiset{} ==> r.Ok?
    ensures old(pool.InBounds()) && range.EndPage() <= pool.disk.nextPageIdx ==> pool.InBounds()
  {
    var offset := 0;
    for i := 0 to range.numPages
      invariant offset == i * PAGE_SIZE
      invariant pool.Valid() && pool.handles == old(pool.handles)
      invariant forall p: nat :: !range.ContainsPage(p) ==> pool.View(p) == old(pool.View(p))
      invariant forall k: nat :: k < i ==> pool.View(range.startPage + k) == PageOf(payload, k)
      invariant old(pool.InBounds()) && range.EndPage() <= pool.disk.nextPageIdx ==> pool.InBounds()
    {
      ChunkIsPage(payload, i);
      r := PutPage(pool, range.startPage + i, ChunkAt(payload, offset));
      if r.Err? {
        return;
      }
      offset := offset + PAGE_SIZE;
    }
    r := Ok(());
  }

  /** Reads the pages of a range into one buffer. */
  method ReadRaw(pool: BufferPool, range: PageRange) returns (r: Result<seq<byte>>)
    requires pool.Valid()
    modifies pool, pool.disk`file, pool.evictionQueue
    ensures pool.Valid() && pool.handles == old(pool.handles)
    ensures forall p: nat :: pool.View(p) == old(pool.View(p))
    ensures r.Ok? ==> r.value == Concat(old(Views(pool, range.startPage, range.numPages)))
    ensures old(pool.AllClean()) ==> pool.AllClean() && pool.disk.file == old(pool.disk.file)
    ensures pool.handles == multiset{} ==> r.Ok?
    ensures old(pool.InBounds()) && range.EndPage() <= pool.disk.nextPageIdx ==> pool.InBounds()
  {
    ghost var pages := Views(pool, range.startPage, range.numPages);
    var raw := [];
    for i := 0 to range.numPages
      invariant pool.Valid() && pool.handles == old(pool.handles)
      invariant forall p: nat :: pool.View(p) == old(pool.View(p))
      invariant raw == Concat(pages[..i])
      invariant old(pool.AllClean()) ==> pool.AllClean() && pool.disk.file == old(pool.disk.file)
      invariant old(pool.InBounds()) && range.EndPage() <= pool.disk.nextPageIdx ==> pool.InBounds()
    {
      var page := GetPage(pool, range.startPage + i);
      if page.Err? {
        return Err(page.error);
      }
      assert page.value == pages[i];
      ConcatStep(pages, i);
      raw := raw + page.value;
    }
    assert pages[..range.numPages] == pages;
    r := Ok(raw);
  }

  lemma ConcatStep(pages: seq<Page>, i: nat)
    requires i < |pages|
    ensures Concat(pages[..i + 1]) == Concat(pages[..i]) + pages[i]
  {
    assert pages[..i + 1][..i] == pages[..i];
  }

  method ReadMultiPage(pool: BufferPool, range: PageRange) returns (r: Result<seq<byte>>)
    requires pool.Valid()
    modifies pool, pool.disk`file, pool.evictionQueue
    ensures pool.Valid() && pool.handles == old(pool.handles)
    ensures forall p: nat :: pool.View(p) == old(pool.View(p))
    ensures r.Ok? || pool.handles == multiset{} ==> r == DecodePages(old(Views(pool, range.startPage, range.numPages)))
    ensures old(pool.AllClean()) ==> pool.AllClean() && pool.disk.file == old(pool.disk.file)
    ensures old(pool.InBounds()) && range.EndPage() <= pool.disk.nextPageIdx ==> pool.InBounds()
  {
    if range.numPages == 0 {
      return Err(StorageError);
    }
    r := ReadRaw(pool, range);
    if r.Ok? {
      var raw := r.value;
      var len := FromLe32(raw[..4]);
      r := if len + 4 > |raw| then Err(MultiPageDataCorrupted) else Ok(raw[4..4 + len]);
    }
  }
}
