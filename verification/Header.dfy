/** The database header: three page ranges behind a checksum. */
module Header {
  import opened Wrappers
  import opened Bytes
  import opened Disk

  const CURRENT_VERSION: nat := 3

  type Uuid = n: nat | n < 0x1_0000_0000_0000_0000_0000_0000_0000_0000

  datatype DatabaseHeader = DatabaseHeader(
    magicOk: bool, version: nat, databaseId: Uuid,
    catalogRange: PageRange, metadataRange: PageRange, relMetadataRange: PageRange,
    checksum: nat)

  function Ranges(h: DatabaseHeader): seq<PageRange> { [h.catalogRange, h.metadataRange, h.relMetadataRange] }

  ghost predicate Apart(a: PageRange, b: PageRange) {
    forall p: nat :: !(a.ContainsPage(p) && b.ContainsPage(p))
  }

  ghost predicate ApartFromLater(ranges: seq<PageRange>, i: nat)
    requires i < |ranges|
  {
    forall j :: i < j < |ranges| ==> Apart(ranges[i], ranges[j])
  }

  /** No page is the header page or belongs to two ranges. */
  ghost predicate RangesDisjoint(ranges: seq<PageRange>) {
    && (forall i :: 0 <= i < |ranges| ==> !ranges[i].ContainsPage(0))
    && (forall i, j :: 0 <= i < j < |ranges| ==> Apart(ranges[i], ranges[j]))
  }

  /** `validate_ranges` accepts exactly the headers whose ranges share no page with each other or page 0. */
  method ValidateRanges(h: DatabaseHeader) returns (r: Result<()>)
    ensures r.Ok? <==> RangesDisjoint(Ranges(h))
    ensures r.Err? ==> r.error == PageRangeOverlap
  {
    var ranges := Ranges(h);
    EachApartFromLater(ranges);
    var off := OffPageZero(ranges);
    if !off {
      return Err(PageRangeOverlap);
    }
    for i := 0 to |ranges|
      invariant forall a :: 0 <= a < i ==> ApartFromLater(ranges, a)
    {
      var apart := ApartFromRest(ranges, i);
      if !apart {
        return Err(PageRangeOverlap);
      }
    }
    r := Ok(());
  }

  /** The first loop: no range starts at page 0, and none overlaps it. */
  method OffPageZero(ranges: seq<PageRange>) returns (ok: bool)
    ensures ok <==> forall k :: 0 <= k < |ranges| ==> !ranges[k].ContainsPage(0)
  {
    var headerPage := PageRange(0, 1);
    for i := 0 to |ranges|
      invariant forall k :: 0 <= k < i ==> !ranges[k].ContainsPage(0)
    {
      if ranges[i].numPages != 0 {
        if ranges[i].startPage == 0 {
          assert ranges[i].ContainsPage(0);
          return false;
        }
        if ranges[i].Overlaps(headerPage) {
          assert false;
        }
      }
    }
    ok := true;
  }

  lemma EachApartFromLater(ranges: seq<PageRange>)
    ensures (forall i :: 0 <= i < |ranges| ==> ApartFromLater(ranges, i))
       <==> forall i, j :: 0 <= i < j < |ranges| ==> Apart(ranges[i], ranges[j])
  {
    if forall i :: 0 <= i < |ranges| ==> ApartFromLater(ranges, i) {
      forall i, j | 0 <= i < j < |ranges| ensures Apart(ranges[i], ranges[j]) {
        assert ApartFromLater(ranges, i);
      }
    }
  }

  /** The inner loop: a range against the later ones. */
  method ApartFromRest(ranges: seq<PageRange>, i: nat) returns (ok: bool)
    requires i < |ranges|
    ensures ok <==> ApartFromLater(ranges, i)
  {
    for j := i + 1 to |ranges|
      invariant forall k :: i < k < j ==> Apart(ranges[i], ranges[k])
    {
      OverlapsMeansSharedPage(ranges[i], ranges[j]);
      if ranges[i].Overlaps(ranges[j]) {
        assert !Apart(ranges[i], ranges[j]);
        return false;
      }
    }
    ok := true;
  }

  /** Three ranges, written out. */
  lemma ThreeRanges(h: DatabaseHeader)
    ensures RangesDisjoint(Ranges(h)) <==>
              && !h.catalogRange.ContainsPage(0) && !h.metadataRange.ContainsPage(0)
                   && !h.relMetadataRange.ContainsPage(0)
              && Apart(h.catalogRange, h.metadataRange) && Apart(h.catalogRange, h.relMetadataRange)
                   && Apart(h.metadataRange, h.relMetadataRange)
  {
    var r := Ranges(h);
    assert r[0] == h.catalogRange && r[1] == h.metadataRange && r[2] == h.relMetadataRange;
    if RangesDisjoint(r) {
      assert !r[0].ContainsPage(0) && !r[1].ContainsPage(0) && !r[2].ContainsPage(0);
      assert Apart(r[0], r[1]) && Apart(r[0], r[2]) && Apart(r[1], r[2]);
    }
  }

  /** What every checkpoint keeps: the ranges are disjoint, not empty and inside the file. */
  ghost predicate RangesOk(h: DatabaseHeader, numPages: nat) {
    && RangesDisjoint(Ranges(h))
    && InFile(h.catalogRange, numPages) && InFile(h.metadataRange, numPages) && InFile(h.relMetadataRange, numPages)
  }

  predicate InFile(range: PageRange, numPages: nat) { range.numPages >= 1 && range.EndPage() <= numPages }

  /** bincode and crc32 as far as the header uses them. */
  datatype HeaderCodec = HeaderCodec(
    enc: DatabaseHeader -> seq<byte>,
    dec: seq<byte> -> Result<DatabaseHeader>,
    crc: seq<byte> -> nat)

  /** Every number fits its 32-bit field. */
  predicate Fits32(h: DatabaseHeader) {
    && h.version < U32_RANGE && h.checksum < U32_RANGE
    && forall i :: 0 <= i < 3 ==> Ranges(h)[i].startPage < U32_RANGE && Ranges(h)[i].numPages < U32_RANGE
  }

  /** The header fits its page and decodes from it whatever bytes follow. */
  ghost predicate HeaderCodecOk(c: HeaderCodec) {
    && (forall h :: |c.enc(h)| <= PAGE_SIZE)
    && (forall h, rest :: Fits32(h) ==> c.dec(c.enc(h) + rest) == Ok(h))
    && (forall bytes :: c.crc(bytes) < U32_RANGE)
  }

  /** Ranges inside a file of at most 2^32 pages fit their fields: page 0 belongs to none of them. */
  lemma RangesFit32(h: DatabaseHeader, numPages: nat)
    requires RangesOk(h, numPages) && numPages <= U32_RANGE && h.version <= CURRENT_VERSION && h.checksum < U32_RANGE
    ensures Fits32(h)
  {
    forall i | 0 <= i < 3 ensures Ranges(h)[i].startPage < U32_RANGE && Ranges(h)[i].numPages < U32_RANGE {
      assert !Ranges(h)[i].ContainsPage(0);
    }
  }

  function ComputeChecksum(c: HeaderCodec, h: DatabaseHeader): nat { c.crc(c.enc(h.(checksum := 0))) }

  /** The header tests of `load_database`: magic, version, checksum, ranges inside the file. */
  function CheckHeader(c: HeaderCodec, h: DatabaseHeader, filePages: nat): Result<DatabaseHeader> {
    if !h.magicOk || h.version > CURRENT_VERSION then Err(StorageError)
    else if h.checksum != ComputeChecksum(c, h) then Err(ChecksumError)
    else if exists i ::
           0 <= i < 3 && Ranges(h)[i].numPages > 0 && Ranges(h)[i].EndPage() > filePages then Err(StorageError)
    else Ok(h)
  }

  function LoadHeader(c: HeaderCodec, page: Page, filePages: nat): Result<DatabaseHeader> {
    match c.dec(page)
    case Err(e) => Err(e)
    case Ok(h) => CheckHeader(c, h, filePages)
  }

  /**
   A header is loaded exactly if page 0 decodes to it, magic and version are good, the checksum is that
   of the header with a zero in its place, and no range that is not empty reaches behind the file.
   */
  lemma LoadedHeaderMeans(c: HeaderCodec, page: Page, filePages: nat, h: DatabaseHeader)
    ensures LoadHeader(c, page, filePages) == Ok(h)
       <==> && c.dec(page) == Ok(h) && h.magicOk && h.version <= CURRENT_VERSION
            && h.checksum == c.crc(c.enc(h.(checksum := 0)))
            && (h.catalogRange.numPages == 0 || h.catalogRange.startPage + h.catalogRange.numPages <= filePages)
            && (h.metadataRange.numPages == 0 || h.metadataRange.startPage + h.metadataRange.numPages <= filePages)
            && (h.relMetadataRange.numPages == 0
                || h.relMetadataRange.startPage + h.relMetadataRange.numPages <= filePages)
  {
    var r := Ranges(h);
    assert r[0] == h.catalogRange && r[1] == h.metadataRange && r[2] == h.relMetadataRange;
  }

  /** A header written over the start of page 0 passes every test of the loader. */
  lemma SavedHeaderLoads(c: HeaderCodec, h: DatabaseHeader, rest: seq<byte>, filePages: nat)
    requires HeaderCodecOk(c) && h.magicOk && h.version <= CURRENT_VERSION && RangesOk(h, filePages)
    requires h.checksum == ComputeChecksum(c, h) && |c.enc(h) + rest| == PAGE_SIZE && Fits32(h)
    ensures LoadHeader(c, c.enc(h) + rest, filePages) == Ok(h)
  {}
}
