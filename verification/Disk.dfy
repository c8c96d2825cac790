/** Page ranges and the disk manager: a file of pages that grows when pages are allocated. */
module Disk {
  import opened Wrappers
  import opened Bytes

  datatype PageRange = PageRange(startPage: nat, numPages: nat) {
    function EndPage(): nat { startPage + numPages }

    function ByteCapacity(): nat { numPages * PAGE_SIZE }

    predicate Overlaps(other: PageRange) {
      if numPages == 0 || other.numPages == 0 then false
      else startPage < other.EndPage() && other.startPage < EndPage()
    }

    predicate ContainsPage(page: nat) {
      if numPages == 0 then false else startPage <= page < EndPage()
    }
  }

  /** `overlaps` is what its name says: some page lies in both ranges. */
  lemma OverlapsMeansSharedPage(a: PageRange, b: PageRange)
    ensures a.Overlaps(b) <==> exists p: nat :: a.ContainsPage(p) && b.ContainsPage(p)
  {
    if a.Overlaps(b) {
      var p := if a.startPage <= b.startPage then b.startPage else a.startPage;
      assert a.ContainsPage(p) && b.ContainsPage(p);
    }
  }

  /** Reading past the end of the file gives a page of zeros. */
  function PageAt(file: seq<Page>, p: nat): Page {
    if p < |file| then file[p] else ZeroPage()
  }

  /** `File::set_len`, in pages: cuts the file off or fills it up with zeros. */
  function SetLen(file: seq<Page>, n: nat): (r: seq<Page>)
    ensures |r| == n
    ensures forall p: nat :: p < n ==> PageAt(r, p) == PageAt(file, p)
  {
    if n <= |file| then file[..n] else file + seq(n - |file|, i => ZeroPage())
  }

  /** Writing past the end of the file fills the gap with zeros. */
  function WriteAt(file: seq<Page>, p: nat, data: Page): (r: seq<Page>)
    ensures |r| == if p < |file| then |file| else p + 1
    ensures forall q: nat :: PageAt(r, q) == if q == p then data else PageAt(file, q)
  {
    (if p < |file| then file else SetLen(file, p + 1))[p := data]
  }

  class DiskManager {
    var file: seq<Page>
    var nextPageIdx: nat

    /** Opens a file; the next page is the first one behind its end. */
    constructor (f: seq<Page>)
      ensures file == f && nextPageIdx == |f|
    {
      file := f;
      nextPageIdx := |f|;
    }

    function Read(p: nat): Page
      reads this
    {
      PageAt(file, p)
    }

    method WritePage(p: nat, data: Page)
      modifies `file
      ensures file == WriteAt(old(file), p, data)
    {
      file := WriteAt(file, p, data);
    }

    method AllocatePageRange(n: nat) returns (r: Result<PageRange>)
      modifies this
      ensures n == 0 ==> r.Err? && unchanged(this)
      ensures n > 0 ==> r == Ok(PageRange(old(nextPageIdx), n))
      ensures n > 0 ==> nextPageIdx == old(nextPageIdx) + n && file == SetLen(old(file), nextPageIdx)
    {
      if n == 0 {
        return Err(StorageError);
      }
      r := Ok(PageRange(nextPageIdx, n));
      nextPageIdx := nextPageIdx + n;
      file := SetLen(file, nextPageIdx);
    }
  }

  /**
   Allocation is `set_len` to the new end, so it keeps what every page reads as
   unless something was written behind the new end: exactly then pages are lost.
   */
  lemma AllocationLosesOnlyPagesBehindTheEnd(file: seq<Page>, n: nat)
    ensures (forall p: nat :: PageAt(SetLen(file, n), p) == PageAt(file, p))
       <==> (forall p: nat :: n <= p < |file| ==> file[p] == ZeroPage())
  {
    if forall p: nat :: PageAt(SetLen(file, n), p) == PageAt(file, p) {
      forall p: nat | n <= p < |file| ensures file[p] == ZeroPage() {
        assert PageAt(SetLen(file, n), p) == PageAt(file, p);
      }
    }
  }
}
