/**
 The buffer pool: a fixed set of frames that cache pages of the disk manager,
 with dirty bits, pin counts and an eviction queue that keeps stale entries.
 Seen through `View`, the pool is nothing but a map from page index to bytes.
 */
module BufferPool {
  import opened Wrappers
  import opened Bytes
  import opened Disk
  import opened Eviction

  datatype Frame = Frame(page: Option<nat>, data: Page, pins: nat, dirty: bool)

  /** The RAII guard of a pinned page; dropping it is `Unpin`. */
  datatype PageHandle = PageHandle(frame: nat, page: nat)

  /** The page table and the frames are inverse to each other. */
  ghost predicate TableOk(frames: seq<Frame>, table: map<nat, nat>) {
    && (forall p :: p in table ==> table[p] < |frames| && frames[table[p]].page == Some(p))
    && (forall f :: 0 <= f < |frames| && frames[f].page.Some? ==>
          frames[f].page.value in table && table[frames[f].page.value] == f)
  }

  /** Every clean frame equals its page on disk. */
  ghost predicate CleanOk(frames: seq<Frame>, file: seq<Page>) {
    forall f :: 0 <= f < |frames| && frames[f].page.Some? && !frames[f].dirty ==>
      frames[f].data == PageAt(file, frames[f].page.value)
  }

  /** A frame's pin count is the number of live handles on it. */
  ghost predicate PinsOk(frames: seq<Frame>, handles: multiset<PageHandle>) {
    && (forall f :: 0 <= f < |frames| && frames[f].page.None? ==> frames[f].pins == 0)
    && (forall f :: 0 <= f < |frames| && frames[f].page.Some? ==>
          frames[f].pins == handles[PageHandle(f, frames[f].page.value)])
    && (forall h :: h in handles ==> h.frame < |frames| && frames[h.frame].page == Some(h.page))
  }

  predicate Unpinned(f: Frame) { f.page.Some? && f.pins == 0 }

  /** The queue lists frames by the time of their last unpin and misses no unpinned one. */
  ghost predicate QueueOk(frames: seq<Frame>, queue: seq<nat>, lastUnpin: seq<nat>, clock: nat) {
    && |lastUnpin| == |frames|
    && Ranked(queue, lastUnpin)
    && (forall f :: 0 <= f < |lastUnpin| ==> lastUnpin[f] < clock)
    && (forall f :: 0 <= f < |frames| && Unpinned(frames[f]) ==> f in queue)
  }

  /** What a page reads as: the frame's bytes if it is cached, the disk's bytes otherwise. */
  function ViewOf(frames: seq<Frame>, table: map<nat, nat>, file: seq<Page>, p: nat): Page
    requires p in table ==> table[p] < |frames|
  {
    if p in table then frames[table[p]].data else PageAt(file, p)
  }

  /** The unpinned frame whose last unpin is oldest. */
  ghost predicate IsVictim(frames: seq<Frame>, lastUnpin: seq<nat>, v: nat)
    requires |lastUnpin| == |frames|
  {
    && v < |frames| && Unpinned(frames[v])
    && forall f :: 0 <= f < |frames| && f != v && Unpinned(frames[f]) ==> lastUnpin[v] < lastUnpin[f]
  }

  /** The frame that makes room for a page: the first empty one, else the victim. */
  ghost predicate IsFreed(frames: seq<Frame>, lastUnpin: seq<nat>, f: nat)
    requires |lastUnpin| == |frames|
  {
    && f < |frames|
    && if frames[f].page.None? then forall g :: 0 <= g < f ==> frames[g].page.Some?
       else (forall g :: 0 <= g < |frames| ==> frames[g].page.Some?) && IsVictim(frames, lastUnpin, f)
  }

  /** The file ends there, and no page behind it is cached. */
  ghost predicate EndsAt(table: map<nat, nat>, file: seq<Page>, end: nat) {
    |file| == end && forall p :: p in table ==> p < end
  }

  /** One frame was made empty, and no page reads differently. */
  ghost predicate MadeRoom(frames: seq<Frame>, table: map<nat, nat>, file: seq<Page>,
                           frames': seq<Frame>, table': map<nat, nat>, file': seq<Page>, f: nat)
  {
    && f < |frames| == |frames'| && frames' == frames[f := frames'[f]] && frames'[f].page.None?
    && TableOk(frames, table) && TableOk(frames', table') && SameViews(frames, table, file, frames', table', file')
  }

  /** The page table without the page of a frame that is given away. */
  function FreedTable(frames: seq<Frame>, table: map<nat, nat>, f: nat): map<nat, nat>
    requires f < |frames|
  {
    if frames[f].page.None? then table else table - {frames[f].page.value}
  }

  /** A page that is loaded adds one entry to the page table; while a frame is empty it drops none. */
  lemma PinnedKeys(frames: seq<Frame>, table: map<nat, nat>, lastUnpin: seq<nat>, f: nat, p: nat)
    requires |lastUnpin| == |frames| && IsFreed(frames, lastUnpin, f)
    ensures var table' := FreedTable(frames, table, f)[p := f];
            && table'.Keys <= table.Keys + {p}
            && ((exists g :: 0 <= g < |frames| && frames[g].page.None?) ==> table.Keys <= table'.Keys)
  {}

  /** The first queue entry that is not pinned is the oldest unpinned frame. */
  lemma FirstUnpinnedIsVictim(frames: seq<Frame>, queue: seq<nat>, lastUnpin: seq<nat>)
    requires |lastUnpin| == |frames| && Ranked(queue, lastUnpin) && queue != []
    requires forall f :: 0 <= f < |frames| && Unpinned(frames[f]) ==> f in queue
    requires Unpinned(frames[queue[0]])
    ensures IsVictim(frames, lastUnpin, queue[0])
  {
    forall f | 0 <= f < |frames| && f != queue[0] && Unpinned(frames[f])
      ensures lastUnpin[queue[0]] < lastUnpin[f]
    {
      var j :| 0 <= j < |queue| && queue[j] == f;
    }
  }

  /** The capacity trim of a push never drops an entry. */
  lemma PushKeepsAll(queue: seq<nat>, lastUnpin: seq<nat>, clock: nat, x: nat)
    requires Ranked(queue, lastUnpin) && x < |lastUnpin|
    requires forall f :: 0 <= f < |lastUnpin| ==> lastUnpin[f] < clock
    ensures Ranked(Pushed(queue, x), lastUnpin[x := clock])
    ensures LastN(Pushed(queue, x), |lastUnpin|) == Pushed(queue, x)
  {
    WithoutIsRanked(queue, x, lastUnpin);
    var r := Without(queue, x);
    forall i | 0 <= i < |r| ensures r[i] != x { assert r[i] in r; }
    QueueFits(Pushed(queue, x), |lastUnpin|);
  }

  // ------------------------------------------------------------------ one lemma per state change

  ghost predicate CoreOk(frames: seq<Frame>, table: map<nat, nat>, file: seq<Page>, handles: multiset<PageHandle>) {
    TableOk(frames, table) && CleanOk(frames, file) && PinsOk(frames, handles)
  }

  ghost predicate SameViews(frames: seq<Frame>, table: map<nat, nat>, file: seq<Page>,
                            frames': seq<Frame>, table': map<nat, nat>, file': seq<Page>)
    requires TableOk(frames, table) && TableOk(frames', table')
  {
    forall p: nat :: ViewOf(frames', table', file', p) == ViewOf(frames, table, file, p)
  }

  /** The disk after an eviction or a flush of frame `f`: written only if the frame is dirty. */
  function Saved(f: Frame, file: seq<Page>): seq<Page>
    requires f.page.Some?
  {
    if f.dirty then WriteAt(file, f.page.value, f.data) else file
  }

  lemma AfterEvict(frames: seq<Frame>, table: map<nat, nat>, file: seq<Page>, handles: multiset<PageHandle>, v: nat)
    requires CoreOk(frames, table, file, handles) && v < |frames| && Unpinned(frames[v])
    ensures var p := frames[v].page.value;
            var frames', table', file' :=
              frames[v := frames[v].(page := None, dirty := false)], table - {p}, Saved(frames[v], file);
            && CoreOk(frames', table', file', handles)
            && SameViews(frames, table, file, frames', table', file')
  {
    var p := frames[v].page.value;
    assert handles[PageHandle(v, p)] == 0;
  }

  lemma AfterInstall(frames: seq<Frame>, table: map<nat, nat>, file: seq<Page>, handles: multiset<PageHandle>,
                     v: nat, p: nat, data: Page, dirty: bool)
    requires CoreOk(frames, table, file, handles) && v < |frames| && frames[v].page.None? && p !in table
    requires data == PageAt(file, p)
    ensures var frames', table' := frames[v := Frame(Some(p), data, 1, dirty)], table[p := v];
            && CoreOk(frames', table', file, handles + multiset{PageHandle(v, p)})
            && SameViews(frames, table, file, frames', table', file)
  {
    assert PageHandle(v, p) !in handles;
  }

  // ------------------------------------------------------------------ pages behind the allocated end

  /** What page `end` and later pages read as is zeros, or waits in a dirty frame to be written back. */
  ghost predicate Backed(frames: seq<Frame>, table: map<nat, nat>, file: seq<Page>, end: nat)
    requires TableOk(frames, table)
  {
    forall q: nat :: q >= end && ViewOf(frames, table, file, q) != ZeroPage() ==> q in table && frames[table[q]].dirty
  }

  /** The same once frame `f` is given away, and no other frame holds page `end`. */
  ghost predicate FreshEnd(frames: seq<Frame>, table: map<nat, nat>, file: seq<Page>, end: nat, f: nat)
    requires TableOk(frames, table)
  {
    && (end in table ==> table[end] == f)
    && forall q: nat :: q >= end && ViewOf(frames, table, file, q) != ZeroPage() ==>
         q in table && table[q] != f && frames[table[q]].dirty
  }

  /** Resizing the file cuts off what was written behind its new end: exactly the dirty frames outlive that. */
  lemma AfterResize(frames: seq<Frame>, table: map<nat, nat>, file: seq<Page>, handles: multiset<PageHandle>, n: nat)
    requires CoreOk(frames, table, file, handles)
    ensures CoreOk(frames, table, SetLen(file, n), handles)
         && SameViews(frames, table, file, frames, table, SetLen(file, n))
       <==> Backed(frames, table, file, n)
  {
    var file' := SetLen(file, n);
    forall q: nat | q >= n ensures PageAt(file', q) == ZeroPage() {}
    if CoreOk(frames, table, file', handles) && SameViews(frames, table, file, frames, table, file') {
      forall q: nat | q >= n && ViewOf(frames, table, file, q) != ZeroPage()
        ensures q in table && frames[table[q]].dirty
      {
        assert ViewOf(frames, table, file', q) == ViewOf(frames, table, file, q);
      }
    }
    if Backed(frames, table, file, n) {
      forall f | 0 <= f < |frames| && frames[f].page.Some? && !frames[f].dirty
        ensures frames[f].data == PageAt(file', frames[f].page.value)
      {
        var q := frames[f].page.value;
        assert ViewOf(frames, table, file, q) == frames[f].data;
      }
      forall q: nat ensures ViewOf(frames, table, file', q) == ViewOf(frames, table, file, q) {}
    }
  }

  /** A frame table stays one exactly if the page put into an empty frame is in no other frame. */
  lemma PlacedTableOk(frames: seq<Frame>, table: map<nat, nat>, v: nat, p: nat, frame: Frame)
    requires TableOk(frames, table) && v < |frames| && frames[v].page.None? && frame.page == Some(p)
    ensures TableOk(frames[v := frame], table[p := v]) <==> p !in table
    ensures p in table ==> frames[v := frame][table[p]].page == Some(p) && table[p] != v
  {
    var frames', table' := frames[v := frame], table[p := v];
    if p in table {
      assert frames'[table[p]].page == Some(p) && table'[p] != table[p];
    }
  }

  /** A zeroed page `p` in the empty frame `v` of a file that now ends behind it. */
  lemma AfterNewPage(frames: seq<Frame>, table: map<nat, nat>, file: seq<Page>, handles: multiset<PageHandle>, v: nat,
                     p: nat)
    requires CoreOk(frames, table, file, handles) && v < |frames| && frames[v].page.None?
    ensures var frames', table', file' :=
              frames[v := Frame(Some(p), ZeroPage(), 1, true)], table[p := v], SetLen(file, p + 1);
            && (TableOk(frames', table') <==> p !in table)
            && (CoreOk(frames', table', file', handles + multiset{PageHandle(v, p)})
                && SameViews(frames, table, file, frames', table', file')
                <==> p !in table && Backed(frames, table, file, p))
  {
    var frames', table', file' := frames[v := Frame(Some(p), ZeroPage(), 1, true)], table[p := v], SetLen(file, p + 1);
    PlacedTableOk(frames, table, v, p, frames'[v]);
    if p !in table {
      NewPageViews(frames, table, file, v, p);
      if Backed(frames, table, file, p) {
        AfterResize(frames, table, file, handles, p + 1);
        assert PageAt(file', p) == ViewOf(frames, table, file, p) == ZeroPage();
        AfterInstall(frames, table, file', handles, v, p, ZeroPage(), true);
      }
    }
  }

  lemma NewPageViews(frames: seq<Frame>, table: map<nat, nat>, file: seq<Page>, v: nat, p: nat)
    requires TableOk(frames, table) && v < |frames| && frames[v].page.None? && p !in table
    ensures var frames', table', file' :=
              frames[v := Frame(Some(p), ZeroPage(), 1, true)], table[p := v], SetLen(file, p + 1);
            && TableOk(frames', table')
            && (forall q: nat :: q > p && q !in table ==> ViewOf(frames', table', file', q) == ZeroPage())
            && ViewOf(frames', table', file', p) == ZeroPage()
            && forall q: nat ::
                 q in table ==>
                   frames'[table'[q]] == frames[table[q]]
                     && ViewOf(frames', table', file', q) == ViewOf(frames, table, file, q)
  {}

  lemma SameViewsFrom(frames: seq<Frame>, table: map<nat, nat>, file: seq<Page>,
                      frames': seq<Frame>, table': map<nat, nat>, file': seq<Page>,
                      frames'': seq<Frame>, table'': map<nat, nat>, file'': seq<Page>)
    requires TableOk(frames, table) && TableOk(frames', table') && TableOk(frames'', table'')
    requires SameViews(frames, table, file, frames', table', file')
    ensures SameViews(frames, table, file, frames'', table'', file'')
       <==> SameViews(frames', table', file', frames'', table'', file'')
  {
    forall p: nat ensures ViewOf(frames', table', file', p) == ViewOf(frames, table, file, p) {}
  }

  lemma NewPageFrom(frames: seq<Frame>, table: map<nat, nat>, file: seq<Page>,
                    frames': seq<Frame>, table': map<nat, nat>, file': seq<Page>,
                    frames'': seq<Frame>, table'': map<nat, nat>, file'': seq<Page>, p: nat, f: nat)
    requires TableOk(frames, table) && TableOk(frames', table')
          && SameViews(frames, table, file, frames', table', file')
    requires f < |frames| == |frames'| && frames' == frames[f := frames'[f]] && frames'[f].page.None?
    ensures p !in table' <==> (p in table ==> table[p] == f)
    ensures p !in table' && Backed(frames', table', file', p) <==> FreshEnd(frames, table, file, p, f)
    ensures TableOk(frames'', table'') ==>
              (SameViews(frames, table, file, frames'', table'', file'')
               <==> SameViews(frames', table', file', frames'', table'', file''))
    ensures p == |file| && (forall q :: q in table ==> q < |file|) ==> FreshEnd(frames, table, file, p, f)
  {
    FreshWhenFreed(frames, table, file, frames', table', file', p, f);
    if TableOk(frames'', table'') {
      SameViewsFrom(frames, table, file, frames', table', file', frames'', table'', file'');
    }
    if p == |file| && forall q :: q in table ==> q < |file| {
      NothingBehind(frames, table, file, f);
    }
  }

  lemma UpdateTwice<T>(s: seq<T>, s': seq<T>, i: nat, x: T)
    requires i < |s| == |s'| && s' == s[i := s'[i]]
    ensures s'[i := x] == s[i := x]
  {}

  /** While everything cached or written lies before the end, nothing stands in the way of a new page. */
  lemma NothingBehind(frames: seq<Frame>, table: map<nat, nat>, file: seq<Page>, f: nat)
    requires TableOk(frames, table) && forall p :: p in table ==> p < |file|
    ensures FreshEnd(frames, table, file, |file|, f)
  {}

  /** Which pages are backed does not depend on whether the frame has been given away yet. */
  lemma FreshWhenFreed(frames: seq<Frame>, table: map<nat, nat>, file: seq<Page>,
                       frames': seq<Frame>, table': map<nat, nat>, file': seq<Page>, end: nat, f: nat)
    requires TableOk(frames, table) && TableOk(frames', table')
          && SameViews(frames, table, file, frames', table', file')
    requires f < |frames| == |frames'| && frames' == frames[f := frames'[f]] && frames'[f].page.None?
    ensures end !in table' <==> (end in table ==> table[end] == f)
    ensures end !in table' && Backed(frames', table', file', end) <==> FreshEnd(frames, table, file, end, f)
  {
    forall q: nat
      ensures q in table' <==> q in table && table[q] != f
      ensures q in table' ==> table'[q] == table[q]
      ensures ViewOf(frames', table', file', q) == ViewOf(frames, table, file, q)
    {
      if q in table && table[q] != f { assert frames'[table[q]].page == Some(q); }
      if q in table' { assert frames[table'[q]].page == Some(q); }
    }
    if end !in table' && Backed(frames', table', file', end) {
      forall q: nat | q >= end && ViewOf(frames, table, file, q) != ZeroPage()
        ensures q in table && table[q] != f && frames[table[q]].dirty
      {
        assert ViewOf(frames', table', file', q) != ZeroPage();
      }
    }
    if FreshEnd(frames, table, file, end, f) {
      forall q: nat | q >= end && ViewOf(frames', table', file', q) != ZeroPage()
        ensures q in table' && frames'[table'[q]].dirty
      {
        assert ViewOf(frames, table, file, q) != ZeroPage();
      }
    }
  }

  // ------------------------------------------------------------------ pins

  lemma AfterRepin(frames: seq<Frame>, table: map<nat, nat>, file: seq<Page>,
                   handles: multiset<PageHandle>, handles': multiset<PageHandle>, h: PageHandle, pins: nat)
    requires CoreOk(frames, table, file, handles) && h.frame < |frames| && frames[h.frame].page == Some(h.page)
    requires handles' == handles[h := pins]
    ensures var frames' := frames[h.frame := frames[h.frame].(pins := pins)];
            && CoreOk(frames', table, file, handles')
            && SameViews(frames, table, file, frames', table, file)
  {}

  lemma AfterWrite(frames: seq<Frame>, table: map<nat, nat>, file: seq<Page>, handles: multiset<PageHandle>,
                   h: PageHandle, data: Page)
    requires CoreOk(frames, table, file, handles) && h in handles
    ensures var frames' := frames[h.frame := frames[h.frame].(data := data, dirty := true)];
            && CoreOk(frames', table, file, handles)
            && forall q: nat ::
                 ViewOf(frames', table, file, q) == if q == h.page then data else ViewOf(frames, table, file, q)
  {}

  lemma AfterFlush(frames: seq<Frame>, table: map<nat, nat>, file: seq<Page>, handles: multiset<PageHandle>, p: nat)
    requires CoreOk(frames, table, file, handles) && p in table
    ensures var frames', file' := frames[table[p] := frames[table[p]].(dirty := false)], Saved(frames[table[p]], file);
            && CoreOk(frames', table, file', handles)
            && SameViews(frames, table, file, frames', table, file')
  {}

  /** A frame that is not left unpinned needs no queue entry. */
  lemma QueueStays(frames: seq<Frame>, frames': seq<Frame>, queue: seq<nat>, lastUnpin: seq<nat>, clock: nat, v: nat)
    requires QueueOk(frames, queue, lastUnpin, clock) && v < |frames| == |frames'| && frames' == frames[v := frames'[v]]
    requires !Unpinned(frames'[v]) || Unpinned(frames[v])
    ensures QueueOk(frames', queue, lastUnpin, clock)
  {
    forall f | 0 <= f < |frames'| && Unpinned(frames'[f]) ensures f in queue {
      assert Unpinned(frames[f]);
    }
  }

  lemma QueueAfterEvict(frames: seq<Frame>, queue: seq<nat>, lastUnpin: seq<nat>, clock: nat, v: nat)
    requires |lastUnpin| == |frames| && Ranked(queue, lastUnpin) && v < |frames|
    requires forall f :: 0 <= f < |lastUnpin| ==> lastUnpin[f] < clock
    requires forall f :: 0 <= f < |frames| && Unpinned(frames[f]) && f != v ==> f in queue
    ensures QueueOk(frames[v := frames[v].(page := None, dirty := false)], queue, lastUnpin, clock)
  {}

  function Released(frames: seq<Frame>, f: nat): seq<Frame>
    requires f < |frames| && frames[f].pins > 0
  {
    frames[f := frames[f].(pins := frames[f].pins - 1)]
  }

  lemma AfterUnpin(frames: seq<Frame>, table: map<nat, nat>, file: seq<Page>, handles: multiset<PageHandle>,
                   h: PageHandle)
    requires CoreOk(frames, table, file, handles) && h in handles
    ensures frames[h.frame].pins > 0
    ensures CoreOk(Released(frames, h.frame), table, file, handles - multiset{h})
    ensures SameViews(frames, table, file, Released(frames, h.frame), table, file)
  {
    assert handles - multiset{h} == handles[h := handles[h] - 1];
    AfterRepin(frames, table, file, handles, handles - multiset{h}, h, handles[h] - 1);
  }

  lemma UnpinQueue(frames: seq<Frame>, handles: multiset<PageHandle>, queue: seq<nat>,
                   lastUnpin: seq<nat>, clock: nat, h: PageHandle)
    requires PinsOk(frames, handles) && QueueOk(frames, queue, lastUnpin, clock)
    requires h in handles && frames[h.frame].pins > 0
    ensures var frames' := Released(frames, h.frame);
            if frames'[h.frame].pins > 0 then QueueOk(frames', queue, lastUnpin, clock)
            else
              && QueueOk(frames', LastN(Pushed(queue, h.frame), |frames|), lastUnpin[h.frame := clock], clock + 1)
              && LastN(Pushed(queue, h.frame), |frames|) == Pushed(queue, h.frame)
  {
    var x, frames' := h.frame, Released(frames, h.frame);
    PushKeepsAll(queue, lastUnpin, clock, x);
    forall f | 0 <= f < |frames'| && Unpinned(frames'[f]) ensures f in Pushed(queue, x) {
      if f != x {
        assert Unpinned(frames[f]);
        assert f in Without(queue, x);
      }
    }
  }

  // ------------------------------------------------------------------ last unpin and last access

  /** Unpinned frames were last accessed in the order in which they were last unpinned. */
  ghost predicate AccessOrdered(frames: seq<Frame>, lastUnpin: seq<nat>, lastAccess: seq<nat>)
    requires |lastUnpin| == |lastAccess| == |frames|
  {
    forall f, g :: 0 <= f < |frames| && 0 <= g < |frames| && Unpinned(frames[f]) && Unpinned(frames[g])
             && lastUnpin[f] < lastUnpin[g]
      ==> lastAccess[f] < lastAccess[g]
  }

  /** A frame that ends up pinned or empty can be accessed without spoiling the order. */
  lemma StaysInOrder(frames: seq<Frame>, frames': seq<Frame>, lastUnpin: seq<nat>, lastAccess: seq<nat>,
                     lastAccess': seq<nat>, x: nat)
    requires |lastUnpin| == |lastAccess| == |lastAccess'| == |frames| == |frames'| && x < |frames|
    requires frames' == frames[x := frames'[x]] && lastAccess' == lastAccess[x := lastAccess'[x]]
    requires Unpinned(frames'[x]) ==> Unpinned(frames[x]) && lastAccess'[x] == lastAccess[x]
    requires AccessOrdered(frames, lastUnpin, lastAccess)
    ensures AccessOrdered(frames', lastUnpin, lastAccess')
  {
    forall f | 0 <= f < |frames'| && Unpinned(frames'[f])
      ensures Unpinned(frames[f]) && lastAccess'[f] == lastAccess[f] {}
  }

  /** One frame took the next access number. */
  ghost predicate Accessed(lastAccess: seq<nat>, counter: nat, lastAccess': seq<nat>, counter': nat, x: nat) {
    x < |lastAccess| && lastAccess' == lastAccess[x := counter] && counter' == counter + 1
  }

  /** One frame was pinned, and no other changed. */
  ghost predicate Taken(frames: seq<Frame>, frames': seq<Frame>, x: nat) {
    x < |frames| == |frames'| && frames' == frames[x := frames'[x]] && frames'[x].pins > 0
  }

  /** While that order holds, the victim is the least recently accessed frame. */
  lemma VictimIsLeastRecentlyAccessed(frames: seq<Frame>, lastUnpin: seq<nat>, lastAccess: seq<nat>, v: nat)
    requires |lastUnpin| == |lastAccess| == |frames| && IsVictim(frames, lastUnpin, v)
    requires AccessOrdered(frames, lastUnpin, lastAccess)
    ensures IsVictim(frames, lastAccess, v)
  {}

  /** The frame was accessed after every unpinned one. */
  ghost predicate AccessedLast(frames: seq<Frame>, lastAccess: seq<nat>, x: nat)
    requires |lastAccess| == |frames| && x < |frames|
  {
    forall f :: 0 <= f < |frames| && Unpinned(frames[f]) ==> lastAccess[f] < lastAccess[x]
  }

  /**
   The queue knows unpins only. Releasing a frame for the last time keeps it in the
   order of accesses exactly if the frame was accessed after every unpinned one.
   */
  lemma UnpinKeepsAccessOrder(frames: seq<Frame>, lastUnpin: seq<nat>, lastAccess: seq<nat>, clock: nat, x: nat)
    requires |lastUnpin| == |lastAccess| == |frames| && x < |frames| && frames[x].page.Some? && frames[x].pins == 1
    requires AccessOrdered(frames, lastUnpin, lastAccess) && forall f :: 0 <= f < |frames| ==> lastUnpin[f] < clock
    ensures AccessOrdered(Released(frames, x), lastUnpin[x := clock], lastAccess)
       <==> AccessedLast(frames, lastAccess, x)
  {
    var frames', lastUnpin' := Released(frames, x), lastUnpin[x := clock];
    if AccessOrdered(frames', lastUnpin', lastAccess) {
      forall f | 0 <= f < |frames| && Unpinned(frames[f]) ensures lastAccess[f] < lastAccess[x] {
        assert Unpinned(frames'[f]) && Unpinned(frames'[x]) && lastUnpin'[f] < lastUnpin'[x];
      }
    }
  }

  lemma ReleasedOrder(frames: seq<Frame>, lastUnpin: seq<nat>, lastAccess: seq<nat>, clock: nat, lastUnpin': seq<nat>,
                      x: nat)
    requires |lastUnpin| == |lastAccess| == |frames| && x < |frames| && frames[x].page.Some? && frames[x].pins > 0
    requires AccessOrdered(frames, lastUnpin, lastAccess) && forall f :: 0 <= f < |frames| ==> lastUnpin[f] < clock
    requires lastUnpin' == if frames[x].pins > 1 then lastUnpin else lastUnpin[x := clock]
    ensures AccessOrdered(Released(frames, x), lastUnpin', lastAccess)
       <==> frames[x].pins > 1 || AccessedLast(frames, lastAccess, x)
  {
    if frames[x].pins > 1 {
      StaysInOrder(frames, Released(frames, x), lastUnpin, lastAccess, lastAccess, x);
    } else {
      UnpinKeepsAccessOrder(frames, lastUnpin, lastAccess, clock, x);
    }
  }

  class BufferPool {
    const capacity: nat
    const disk: DiskManager
    const evictionQueue: LruEvictionQueue
    var frames: seq<Frame>
    var pageTable: map<nat, nat>
    /** When each frame was last pinned; nothing but the statistics reads it. */
    var lastAccess: seq<nat>
    var accessCounter: nat
    ghost var handles: multiset<PageHandle>
    ghost var lastUnpin: seq<nat>
    ghost var clock: nat

    ghost predicate Valid()
      reads this, disk, evictionQueue
    {
      && |frames| == |lastAccess| == capacity > 0 && evictionQueue.capacity == capacity
      && CoreOk(frames, pageTable, disk.file, handles)
      && QueueOk(frames, evictionQueue.queue, lastUnpin, clock)
    }

    function View(p: nat): Page
      reads this, disk
      requires TableOk(frames, pageTable)
    {
      ViewOf(frames, pageTable, disk.file, p)
    }

    /** Nothing was cached or written behind the last allocated page. */
    ghost predicate InBounds()
      reads this, disk
    {
      EndsAt(pageTable, disk.file, disk.nextPageIdx)
    }

    /** The queue is in the order of accesses, as an eviction by least recent access would have it. */
    ghost predicate InAccessOrder()
      reads this`frames, this`lastUnpin, this`lastAccess
    {
      |lastUnpin| == |lastAccess| == |frames| && AccessOrdered(frames, lastUnpin, lastAccess)
    }

    /** Nothing waits to be written back. */
    predicate AllClean()
      reads this
    {
      forall f :: 0 <= f < |frames| ==> !frames[f].dirty
    }

    constructor Create(capacity: nat, disk: DiskManager)
      requires capacity > 0
      ensures Valid() && this.disk == disk && this.capacity == capacity && fresh(evictionQueue)
      ensures pageTable == map[] && handles == multiset{} && AllClean()
      ensures forall f :: 0 <= f < capacity ==> frames[f].page.None? && frames[f].pins == 0
      ensures InAccessOrder()
    {
      this.capacity := capacity;
      this.disk := disk;
      evictionQueue := new LruEvictionQueue(capacity);
      frames := seq(capacity, i => Frame(None, ZeroPage(), 0, false));
      pageTable := map[];
      lastAccess := seq(capacity, i => 0);
      accessCounter := 0;
      handles := multiset{};
      lastUnpin := seq(capacity, i => 0);
      clock := 1;
    }

    static method New(capacity: nat, disk: DiskManager) returns (r: Result<BufferPool>)
      ensures r.Err? <==> capacity == 0
      ensures r.Ok? ==> fresh(r.value) && fresh(r.value.evictionQueue) && r.value.Valid() && r.value.disk == disk
      ensures r.Ok? ==>
                r.value.pageTable == map[] && r.value.handles == multiset{} && r.value.capacity == capacity
                && r.value.AllClean()
    {
      if capacity == 0 {
        return Err(StorageError);
      }
      var pool := new BufferPool.Create(capacity, disk);
      r := Ok(pool);
    }

    /** Finds a frame for a new page: the first empty one, else the least recently unpinned one. */
    method FindOrEvictFrame() returns (r: Result<nat>)
      requires Valid()
      modifies this`frames, this`pageTable, disk`file, evictionQueue
      ensures Valid()
      ensures SameViews(old(frames), old(pageTable), old(disk.file), frames, pageTable, disk.file)
      ensures old(InBounds()) ==> InBounds()
      ensures old(AllClean()) ==> AllClean() && disk.file == old(disk.file)
      ensures r.Err? <==> forall f :: 0 <= f < capacity ==> old(frames)[f].pins > 0
      ensures r.Err? ==> frames == old(frames) && pageTable == old(pageTable) && disk.file == old(disk.file)
      ensures r.Ok? ==> r.value < capacity && frames[r.value].page == None && IsFreed(old(frames), lastUnpin, r.value)
      ensures r.Ok? ==> MadeRoom(old(frames), old(pageTable), old(disk.file), frames, pageTable, disk.file, r.value)
      ensures r.Ok? ==> pageTable == FreedTable(old(frames), old(pageTable), r.value)
      ensures r.Ok? ==>
                disk.file == if old(frames)[r.value].page.None? then old(disk.file)
                             else Saved(old(frames)[r.value], old(disk.file))
    {
      for idx := 0 to capacity
        invariant forall f :: 0 <= f < idx ==> frames[f].page.Some?
      {
        if frames[idx].page.None? {
          return Ok(idx);
        }
      }
      r := EvictFrame();
    }

    method EvictFrame() returns (r: Result<nat>)
      requires Valid()
      requires forall f :: 0 <= f < capacity ==> frames[f].page.Some?
      modifies this`frames, this`pageTable, disk`file, evictionQueue
      ensures Valid()
      ensures SameViews(old(frames), old(pageTable), old(disk.file), frames, pageTable, disk.file)
      ensures old(InBounds()) ==> InBounds()
      ensures r.Err? <==> forall f :: 0 <= f < capacity ==> old(frames)[f].pins > 0
      ensures r.Err? ==> frames == old(frames) && pageTable == old(pageTable)
      ensures r.Ok? ==> IsVictim(old(frames), lastUnpin, r.value)
      ensures r.Ok? ==> frames == old(frames)[r.value := old(frames)[r.value].(page := None, dirty := false)]
      ensures r.Ok? ==> pageTable == old(pageTable) - {old(frames)[r.value].page.value}
      ensures disk.file == if r.Err? then old(disk.file) else Saved(old(frames)[r.value], old(disk.file))
    {
      var victim := PopVictim();
      if victim.None? {
        return Err(StorageError);
      }
      var idx := victim.value;
      AfterEvict(frames, pageTable, disk.file, handles, idx);
      QueueAfterEvict(frames, evictionQueue.queue, lastUnpin, clock, idx);
      Forget(idx);
      r := Ok(idx);
    }

    /** A dirty frame goes to disk before its page is forgotten. */
    method Forget(idx: nat)
      requires idx < |frames| && Unpinned(frames[idx])
      modifies this`frames, this`pageTable, disk`file
      ensures frames == old(frames)[idx := old(frames)[idx].(page := None, dirty := false)]
      ensures pageTable == old(pageTable) - {old(frames)[idx].page.value}
      ensures disk.file == Saved(old(frames)[idx], old(disk.file))
    {
      var frame := frames[idx];
      var page := frame.page.value;
      if frame.dirty {
        disk.WritePage(page, frame.data);
      }
      pageTable := pageTable - {page};
      frames := frames[idx := frame.(page := None, dirty := false, pins := 0)];
    }

    /** Pops stale entries of pinned frames until an evictable frame turns up. */
    method PopVictim() returns (r: Option<nat>)
      requires Valid()
      requires forall f :: 0 <= f < capacity ==> frames[f].page.Some?
      modifies evictionQueue
      ensures |lastUnpin| == capacity && Ranked(evictionQueue.queue, lastUnpin)
      ensures r.None? <==> forall f :: 0 <= f < capacity ==> frames[f].pins > 0
      ensures r.Some? ==> IsVictim(frames, lastUnpin, r.value)
      ensures forall f :: 0 <= f < capacity && Unpinned(frames[f]) && r != Some(f) ==> f in evictionQueue.queue
    {
      while true
        invariant QueueOk(frames, evictionQueue.queue, lastUnpin, clock)
        decreases |evictionQueue.queue|
      {
        ghost var queue := evictionQueue.queue;
        r := evictionQueue.Pop();
        if r.None? {
          return;
        }
        if frames[r.value].pins > 0 {
          continue;
        }
        FirstUnpinnedIsVictim(frames, queue, lastUnpin);
        return;
      }
    }

    method Pin(p: nat) returns (r: Result<PageHandle>)
      requires Valid()
      modifies this, disk`file, evictionQueue
      ensures Valid()
      ensures forall q: nat :: View(q) == old(View(q))
      ensures lastUnpin == old(lastUnpin) && clock == old(clock)
      ensures r.Err? <==> p !in old(pageTable) && forall f :: 0 <= f < capacity ==> old(frames)[f].pins > 0
      ensures r.Err? ==> handles == old(handles) && pageTable == old(pageTable)
      ensures r.Ok? ==> r.value.page == p && handles == old(handles) + multiset{r.value}
      ensures r.Ok? ==> Accessed(old(lastAccess), old(accessCounter), lastAccess, accessCounter, r.value.frame)
      ensures p in old(pageTable) ==> pageTable == old(pageTable) && unchanged(disk) && unchanged(evictionQueue)
      ensures old(InAccessOrder()) ==> InAccessOrder()
      ensures pageTable.Keys <= old(pageTable.Keys) + {p}
      ensures (exists f :: 0 <= f < capacity && old(frames)[f].page.None?) ==> old(pageTable.Keys) <= pageTable.Keys
      ensures old(InBounds()) && p < disk.nextPageIdx ==> InBounds()
      ensures old(AllClean()) ==> AllClean() && disk.file == old(disk.file)
    {
      if p in pageTable {
        var h := PinHit(p);
        r := Ok(h);
      } else {
        r := PinMiss(p);
        if r.Ok? { PinnedKeys(old(frames), old(pageTable), lastUnpin, r.value.frame, p); }
      }
      if r.Ok? && old(InAccessOrder()) {
        StaysInOrder(old(frames), frames, lastUnpin, old(lastAccess), lastAccess, r.value.frame);
      }
    }

    method PinHit(p: nat) returns (h: PageHandle)
      requires Valid() && p in pageTable
      modifies this`frames, this`handles, this`lastAccess, this`accessCounter
      ensures Valid()
      ensures SameViews(old(frames), pageTable, disk.file, frames, pageTable, disk.file)
      ensures h == PageHandle(pageTable[p], p) && handles == old(handles) + multiset{h}
      ensures Accessed(old(lastAccess), old(accessCounter), lastAccess, accessCounter, h.frame)
      ensures Taken(old(frames), frames, h.frame)
      ensures old(AllClean()) ==> AllClean()
    {
      h := PageHandle(pageTable[p], p);
      ghost var frame := frames[h.frame].(pins := frames[h.frame].pins + 1);
      AfterRepin(frames, pageTable, disk.file, handles, handles + multiset{h}, h, frame.pins);
      QueueStays(frames, frames[h.frame := frame], evictionQueue.queue, lastUnpin, clock, h.frame);
      PinAgain(h);
    }

    method PinAgain(h: PageHandle)
      requires h.frame < |frames| == |lastAccess|
      modifies this`frames, this`handles, this`lastAccess, this`accessCounter
      ensures frames == old(frames)[h.frame := old(frames)[h.frame].(pins := old(frames)[h.frame].pins + 1)]
      ensures handles == old(handles) + multiset{h}
      ensures Accessed(old(lastAccess), old(accessCounter), lastAccess, accessCounter, h.frame)
    {
      frames := frames[h.frame := frames[h.frame].(pins := frames[h.frame].pins + 1)];
      handles := handles + multiset{h};
      Access(h.frame);
    }

    /** `last_access` takes the next number. */
    method Access(idx: nat)
      requires idx < |lastAccess|
      modifies this`lastAccess, this`accessCounter
      ensures Accessed(old(lastAccess), old(accessCounter), lastAccess, accessCounter, idx)
    {
      lastAccess := lastAccess[idx := accessCounter];
      accessCounter := accessCounter + 1;
    }

    /** Loads a page that is not cached into an empty or evicted frame. */
    method PinMiss(p: nat) returns (r: Result<PageHandle>)
      requires Valid() && p !in pageTable
      modifies this`frames, this`pageTable, this`handles, this`lastAccess, this`accessCounter, disk`file, evictionQueue
      ensures Valid()
      ensures SameViews(old(frames), old(pageTable), old(disk.file), frames, pageTable, disk.file)
      ensures r.Err? <==> forall f :: 0 <= f < capacity ==> old(frames)[f].pins > 0
      ensures r.Err? ==> handles == old(handles) && pageTable == old(pageTable)
      ensures r.Ok? ==> r.value.page == p && handles == old(handles) + multiset{r.value}
      ensures r.Ok? ==> Accessed(old(lastAccess), old(accessCounter), lastAccess, accessCounter, r.value.frame)
      ensures r.Ok? ==> Taken(old(frames), frames, r.value.frame)
      ensures r.Err? ==> frames == old(frames)
      ensures r.Ok? ==> IsFreed(old(frames), lastUnpin, r.value.frame)
      ensures r.Ok? ==> pageTable == FreedTable(old(frames), old(pageTable), r.value.frame)[p := r.value.frame]
      ensures old(InBounds()) && p < disk.nextPageIdx ==> InBounds()
      ensures old(AllClean()) ==> AllClean() && disk.file == old(disk.file)
    {
      var found := FindOrEvictFrame();
      if found.Err? {
        return Err(found.error);
      }
      LoadInto(found.value, p, old(frames), old(pageTable), old(disk.file));
      r := Ok(PageHandle(found.value, p));
    }

    /** Loads a page into an empty frame, seen from before the frame was freed. */
    method LoadInto(idx: nat, p: nat, ghost frames': seq<Frame>, ghost table': map<nat, nat>, ghost file': seq<Page>)
      requires Valid() && idx < capacity && frames[idx].page.None? && p !in pageTable
      requires MadeRoom(frames', table', file', frames, pageTable, disk.file, idx)
      modifies this`frames, this`pageTable, this`handles, this`lastAccess, this`accessCounter
      ensures Valid() && SameViews(frames', table', file', frames, pageTable, disk.file) && Taken(frames', frames, idx)
      ensures pageTable == old(pageTable)[p := idx] && handles == old(handles) + multiset{PageHandle(idx, p)}
      ensures Accessed(old(lastAccess), old(accessCounter), lastAccess, accessCounter, idx)
      ensures (old(AllClean()) ==> AllClean()) && (old(InBounds()) && p < disk.nextPageIdx ==> InBounds())
    {
      ghost var frames1, table1 := frames, pageTable;
      var data := disk.Read(p);
      Install(idx, p, data, false);
      SameViewsFrom(frames', table', file', frames1, table1, disk.file, frames, pageTable, disk.file);
      UpdateTwice(frames', frames1, idx, frames[idx]);
    }

    /** Puts a page into an empty frame and hands out the first handle on it. */
    method Install(idx: nat, p: nat, data: Page, dirty: bool)
      requires Valid() && idx < capacity && frames[idx].page.None? && p !in pageTable
      requires data == disk.Read(p)
      modifies this`frames, this`pageTable, this`handles, this`lastAccess, this`accessCounter
      ensures Valid()
      ensures SameViews(old(frames), old(pageTable), old(disk.file), frames, pageTable, disk.file)
      ensures frames == old(frames)[idx := Frame(Some(p), data, 1, dirty)]
      ensures pageTable == old(pageTable)[p := idx]
      ensures handles == old(handles) + multiset{PageHandle(idx, p)}
      ensures Accessed(old(lastAccess), old(accessCounter), lastAccess, accessCounter, idx)
    {
      AfterInstall(frames, pageTable, disk.file, handles, idx, p, data, dirty);
      QueueStays(frames, frames[idx := Frame(Some(p), data, 1, dirty)], evictionQueue.queue, lastUnpin, clock, idx);
      Place(idx, p, data, dirty);
    }

    /** Fills a frame and points the page table at it, whatever the table said of that page before. */
    method Place(idx: nat, p: nat, data: Page, dirty: bool)
      requires idx < |frames| == |lastAccess| && frames[idx].pins == 0
      modifies this`frames, this`pageTable, this`handles, this`lastAccess, this`accessCounter
      ensures frames == old(frames)[idx := Frame(Some(p), data, 1, dirty)] && pageTable == old(pageTable)[p := idx]
      ensures handles == old(handles) + multiset{PageHandle(idx, p)}
      ensures Accessed(old(lastAccess), old(accessCounter), lastAccess, accessCounter, idx)
    {
      frames := frames[idx := Frame(Some(p), data, frames[idx].pins + 1, dirty)];
      Access(idx);
      pageTable := pageTable[p := idx];
      handles := handles + multiset{PageHandle(idx, p)};
    }

    /**
     Allocates a page of zeros at the end of the file and pins it. Pages behind that end
     can have been pinned and written before: the pool stays a pool, and every page reads
     as before, exactly if no other frame holds the new page and what lies behind the end
     is zeros or waits in a dirty frame.
     */
    method NewPage() returns (r: Result<PageHandle>)
      requires Valid()
      modifies this`frames, this`pageTable, this`handles, this`lastAccess, this`accessCounter, disk, evictionQueue
      ensures r.Err? <==> forall f :: 0 <= f < capacity ==> old(frames)[f].pins > 0
      ensures r.Err? ==>
                Valid() && unchanged(disk) && frames == old(frames) && pageTable == old(pageTable)
                && handles == old(handles)
      ensures r.Ok? ==> r.value.page == old(disk.nextPageIdx) && disk.nextPageIdx == old(disk.nextPageIdx) + 1
      ensures r.Ok? ==>
                handles == old(handles) + multiset{r.value}
                && IsFreed(old(frames), old(lastUnpin), r.value.frame)
      ensures r.Ok? ==> frames == old(frames)[r.value.frame := Frame(Some(r.value.page), ZeroPage(), 1, true)]
      ensures r.Ok? ==> (TableOk(frames, pageTable)
                         <==> (r.value.page in old(pageTable) ==> old(pageTable)[r.value.page] == r.value.frame))
      ensures r.Ok? ==> (Valid() && SameViews(old(frames), old(pageTable), old(disk.file), frames, pageTable, disk.file)
                         <==> FreshEnd(old(frames), old(pageTable), old(disk.file), r.value.page, r.value.frame))
      ensures old(InBounds())
          ==> Valid() && InBounds()
                && SameViews(old(frames), old(pageTable), old(disk.file), frames, pageTable, disk.file)
      ensures r.Ok? ==> Accessed(old(lastAccess), old(accessCounter), lastAccess, accessCounter, r.value.frame)
      ensures old(InAccessOrder()) ==> InAccessOrder()
    {
      var found := FindOrEvictFrame();
      if found.Err? {
        return Err(found.error);
      }
      var p := InstallFrom(found.value, old(frames), old(pageTable), old(disk.file), old(InBounds()),
                           old(InAccessOrder()));
      r := Ok(PageHandle(found.value, p));
    }

    /** The same seen from before the frame was freed. */
    method InstallFrom(idx: nat, ghost frames': seq<Frame>, ghost table': map<nat, nat>, ghost file': seq<Page>,
                       ghost inBounds: bool, ghost inOrder: bool)
      returns (p: nat)
      requires Valid() && idx < capacity && frames[idx].page.None?
      requires MadeRoom(frames', table', file', frames, pageTable, disk.file, idx)
      requires inOrder ==> AccessOrdered(frames', lastUnpin, lastAccess)
      requires inBounds ==> InBounds() && EndsAt(table', file', disk.nextPageIdx)
      modifies this`frames, this`pageTable, this`handles, this`lastAccess, this`accessCounter, disk
      ensures p == old(disk.nextPageIdx) && disk.nextPageIdx == p + 1
           && handles == old(handles) + multiset{PageHandle(idx, p)}
      ensures frames == frames'[idx := Frame(Some(p), ZeroPage(), 1, true)] && pageTable == old(pageTable)[p := idx]
           && |disk.file| == disk.nextPageIdx
      ensures TableOk(frames, pageTable) <==> (p in table' ==> table'[p] == idx)
      ensures Valid() && SameViews(frames', table', file', frames, pageTable, disk.file)
         <==> FreshEnd(frames', table', file', p, idx)
      ensures inBounds ==> Valid() && InBounds() && SameViews(frames', table', file', frames, pageTable, disk.file)
      ensures inOrder ==> InAccessOrder()
      ensures Accessed(old(lastAccess), old(accessCounter), lastAccess, accessCounter, idx)
    {
      ghost var frames1, table1, file1 := frames, pageTable, disk.file;
      p := InstallNewPage(idx);
      UpdateTwice(frames', frames1, idx, Frame(Some(p), ZeroPage(), 1, true));
      if inOrder { StaysInOrder(frames', frames, lastUnpin, old(lastAccess), lastAccess, idx); }
      NewPageFrom(frames', table', file', frames1, table1, file1, frames, pageTable, disk.file, p, idx);
    }

    method InstallNewPage(idx: nat) returns (p: nat)
      requires Valid() && idx < capacity && frames[idx].page.None?
      modifies this`frames, this`pageTable, this`handles, this`lastAccess, this`accessCounter, disk
      ensures p == old(disk.nextPageIdx) && disk.nextPageIdx == p + 1
           && handles == old(handles) + multiset{PageHandle(idx, p)}
      ensures frames == old(frames)[idx := Frame(Some(p), ZeroPage(), 1, true)] && pageTable == old(pageTable)[p := idx]
      ensures TableOk(frames, pageTable) <==> p !in old(pageTable)
      ensures Valid() && SameViews(old(frames), old(pageTable), old(disk.file), frames, pageTable, disk.file)
         <==> p !in old(pageTable) && Backed(old(frames), old(pageTable), old(disk.file), p)
      ensures |disk.file| == disk.nextPageIdx
      ensures Accessed(old(lastAccess), old(accessCounter), lastAccess, accessCounter, idx)
    {
      AfterNewPage(frames, pageTable, disk.file, handles, idx, disk.nextPageIdx);
      QueueStays(frames, frames[idx := Frame(Some(disk.nextPageIdx), ZeroPage(), 1, true)], evictionQueue.queue,
                 lastUnpin, clock, idx);
      p := PlaceNewPage(idx);
    }

    method PlaceNewPage(idx: nat) returns (p: nat)
      requires idx < |frames| == |lastAccess| && frames[idx].pins == 0
      modifies this`frames, this`pageTable, this`handles, this`lastAccess, this`accessCounter, disk
      ensures p == old(disk.nextPageIdx) && disk.nextPageIdx == p + 1 && disk.file == SetLen(old(disk.file), p + 1)
      ensures frames == old(frames)[idx := Frame(Some(p), ZeroPage(), 1, true)] && pageTable == old(pageTable)[p := idx]
      ensures handles == old(handles) + multiset{PageHandle(idx, p)}
      ensures Accessed(old(lastAccess), old(accessCounter), lastAccess, accessCounter, idx)
    {
      var range := disk.AllocatePageRange(1);
      p := range.value.startPage;
      Place(idx, p, ZeroPage(), true);
    }

    /** Reserves pages; the pool and its views survive exactly if what lies behind the new end is zeros or dirty. */
    method AllocatePageRange(n: nat) returns (r: Result<PageRange>)
      requires Valid()
      modifies disk
      ensures n == 0 ==> r.Err? && unchanged(disk)
      ensures n > 0 ==> r == Ok(PageRange(old(disk.nextPageIdx), n))
      ensures n > 0 ==> disk.nextPageIdx == old(disk.nextPageIdx) + n
      ensures n > 0 ==> disk.file == SetLen(old(disk.file), disk.nextPageIdx)
      ensures n > 0 ==> (Valid() && SameViews(old(frames), old(pageTable), old(disk.file), frames, pageTable, disk.file)
                         <==> Backed(frames, pageTable, old(disk.file), disk.nextPageIdx))
      ensures old(InBounds()) ==> Valid() && InBounds() && forall q: nat :: View(q) == old(View(q))
    {
      r := disk.AllocatePageRange(n);
      if r.Ok? {
        AfterResize(frames, pageTable, old(disk.file), handles, disk.nextPageIdx);
      }
    }

    function Data(h: PageHandle): Page
      reads this, disk, evictionQueue
      requires Valid() && h in handles
      ensures Data(h) == View(h.page)
    {
      frames[h.frame].data
    }

    /** Writes through a handle; `data_mut` marks the frame dirty. */
    method WriteData(h: PageHandle, data: Page)
      requires Valid() && h in handles
      modifies this`frames
      ensures Valid()
      ensures forall q: nat :: View(q) == if q == h.page then data else old(View(q))
      ensures frames[h.frame].dirty && (old(InBounds()) ==> InBounds())
      ensures old(InAccessOrder()) ==> InAccessOrder()
    {
      AfterWrite(frames, pageTable, disk.file, handles, h, data);
      SetData(h.frame, data, true);
    }

    method SetData(idx: nat, data: Page, dirty: bool)
      requires idx < |frames|
      modifies this`frames
      ensures frames == old(frames)[idx := old(frames)[idx].(data := data, dirty := dirty)]
      ensures old(InAccessOrder()) ==> InAccessOrder()
    {
      frames := frames[idx := frames[idx].(data := data, dirty := dirty)];
      if old(InAccessOrder()) { StaysInOrder(old(frames), frames, lastUnpin, lastAccess, lastAccess, idx); }
    }

    /** Drops a handle; a frame nobody holds any more goes to the back of the eviction queue. */
    method Unpin(h: PageHandle)
      requires Valid() && h in handles
      modifies this`frames, this`handles, this`lastUnpin, this`clock, evictionQueue
      ensures Valid()
      ensures forall q: nat :: View(q) == old(View(q))
      ensures handles == old(handles) - multiset{h} && (old(InBounds()) ==> InBounds())
      ensures old(frames)[h.frame].pins > 0 && frames == Released(old(frames), h.frame)
      ensures old(frames)[h.frame].pins > 1 ==> unchanged(evictionQueue) && lastUnpin == old(lastUnpin)
      ensures old(frames)[h.frame].pins == 1 ==>
                && evictionQueue.queue == Pushed(old(evictionQueue.queue), h.frame)
                && lastUnpin == old(lastUnpin)[h.frame := old(clock)] && clock == old(clock) + 1
      ensures old(InAccessOrder()) ==>
                (InAccessOrder() <==> old(frames)[h.frame].pins > 1 || AccessedLast(old(frames), lastAccess, h.frame))
    {
      AfterUnpin(frames, pageTable, disk.file, handles, h);
      UnpinQueue(frames, handles, evictionQueue.queue, lastUnpin, clock, h);
      Release(h);
    }

    method Release(h: PageHandle)
      requires h.frame < |frames| == |lastUnpin| == |lastAccess| && frames[h.frame].page.Some?
            && frames[h.frame].pins > 0
      requires forall f :: 0 <= f < |frames| ==> lastUnpin[f] < clock
      modifies this`frames, this`handles, this`lastUnpin, this`clock, evictionQueue
      ensures frames == Released(old(frames), h.frame) && handles == old(handles) - multiset{h}
      ensures old(frames)[h.frame].pins > 1
          ==> unchanged(evictionQueue) && lastUnpin == old(lastUnpin) && clock == old(clock)
      ensures old(frames)[h.frame].pins == 1 ==>
                && evictionQueue.queue == LastN(Pushed(old(evictionQueue.queue), h.frame), evictionQueue.capacity)
                && lastUnpin == old(lastUnpin)[h.frame := old(clock)] && clock == old(clock) + 1
      ensures old(InAccessOrder()) ==>
                (InAccessOrder() <==> old(frames)[h.frame].pins > 1 || AccessedLast(old(frames), lastAccess, h.frame))
    {
      DropPin(h);
      if frames[h.frame].pins == 0 {
        Enqueue(h.frame);
      }
      if old(InAccessOrder()) {
        ReleasedOrder(old(frames), old(lastUnpin), lastAccess, old(clock), lastUnpin, h.frame);
      }
    }

    method DropPin(h: PageHandle)
      requires h.frame < |frames| && frames[h.frame].pins > 0
      modifies this`frames, this`handles
      ensures frames == Released(old(frames), h.frame) && handles == old(handles) - multiset{h}
    {
      frames := frames[h.frame := frames[h.frame].(pins := frames[h.frame].pins - 1)];
      handles := handles - multiset{h};
    }

    method Enqueue(idx: nat)
      requires idx < |lastUnpin|
      modifies this`lastUnpin, this`clock, evictionQueue
      ensures evictionQueue.queue == LastN(Pushed(old(evictionQueue.queue), idx), evictionQueue.capacity)
      ensures lastUnpin == old(lastUnpin)[idx := old(clock)] && clock == old(clock) + 1
    {
      evictionQueue.Push(idx);
      lastUnpin := lastUnpin[idx := clock];
      clock := clock + 1;
    }

    method FlushPage(p: nat)
      requires Valid()
      modifies this`frames, disk`file
      ensures Valid() && (old(InBounds()) ==> InBounds())
      ensures forall q: nat :: View(q) == old(View(q))
      ensures disk.Read(p) == View(p)
      ensures forall q: nat :: q != p ==> disk.Read(q) == old(disk.Read(q))
      ensures p !in pageTable ==> unchanged(this) && unchanged(disk)
      ensures p in pageTable ==> frames == old(frames)[pageTable[p] := old(frames)[pageTable[p]].(dirty := false)]
      ensures old(InAccessOrder()) ==> InAccessOrder()
    {
      if p !in pageTable {
        return;
      }
      AfterFlush(frames, pageTable, disk.file, handles, p);
      var idx := pageTable[p];
      if frames[idx].dirty {
        disk.WritePage(p, frames[idx].data);
        SetData(idx, frames[idx].data, false);
      }
    }

    /** Afterwards the disk alone reads as the pool does, whatever order the pages are flushed in. */
    method FlushAll()
      requires Valid()
      modifies this`frames, disk`file
      ensures Valid() && (old(InBounds()) ==> InBounds())
      ensures forall q: nat :: View(q) == old(View(q))
      ensures forall q: nat :: disk.Read(q) == View(q)
    {
      var pending := pageTable.Keys;
      while pending != {}
        invariant Valid() && (old(InBounds()) ==> InBounds())
        invariant forall q: nat :: View(q) == old(View(q))
        invariant forall q: nat :: q in pageTable && q !in pending ==> !frames[pageTable[q]].dirty
        decreases |pending|
      {
        var p :| p in pending;
        FlushPage(p);
        pending := pending - {p};
      }
    }
  }

  /** A pool of two frames over an empty file, and one pinned page. */
  method PoolOfTwo(p: nat) returns (pool: BufferPool, h: PageHandle)
    ensures fresh(pool) && fresh(pool.disk) && fresh(pool.evictionQueue) && pool.Valid() && pool.capacity == 2
    ensures h.page == p && h.frame < 2 && pool.handles == multiset{h} && pool.disk.nextPageIdx == 0
    ensures p in pool.pageTable && pool.pageTable[p] == h.frame && pool.frames[h.frame].pins == 1
    ensures pool.frames[1 - h.frame].page.None? && pool.frames[1 - h.frame].pins == 0
    ensures pool.lastAccess[h.frame] < pool.accessCounter
  {
    var disk := new DiskManager([]);
    pool := new BufferPool.Create(2, disk);
    assert pool.frames[0].pins == 0;
    var pinned := pool.Pin(p);
    h := pinned.value;
    assert h in pool.handles;
  }

  /**
   Reading past the end of the file pins a page that the next allocation hands out
   again: one page in two frames, and the page table knows only the newer.
   */
  method OnePageTwice() returns (pool: BufferPool, first: PageHandle, second: PageHandle)
    ensures fresh(pool) && first in pool.handles && second in pool.handles
    ensures first.page == second.page == 0 && first.frame != second.frame && !TableOk(pool.frames, pool.pageTable)
  {
    pool, first := PoolOfTwo(0);
    var made := pool.NewPage();
    second := made.value;
  }

  /** The first page is accessed before the second and released after it: the second is evicted first. */
  method ReleasedFirstEvictedFirst() returns (pool: BufferPool, first: nat, second: nat)
    ensures fresh(pool) && pool.Valid() && first < pool.capacity && second < pool.capacity
    ensures pool.lastAccess[first] < pool.lastAccess[second]
    ensures IsVictim(pool.frames, pool.lastUnpin, second) && IsVictim(pool.frames, pool.lastAccess, first)
  {
    var one, two;
    pool, one, two := TwoPinned();
    ReleaseOrderDecides(pool.frames, pool.lastUnpin, pool.lastAccess, pool.clock, one.frame, two.frame);
    ReleaseBoth(pool, one, two);
    first, second := one.frame, two.frame;
  }

  method ReleaseBoth(pool: BufferPool, one: PageHandle, two: PageHandle)
    requires pool.Valid() && one in pool.handles && two in pool.handles && one.frame != two.frame
    requires one.frame < |pool.frames| && two.frame < |pool.frames|
    requires pool.frames[one.frame].pins == pool.frames[two.frame].pins == 1
    modifies pool, pool.evictionQueue
    ensures pool.Valid() && pool.lastAccess == old(pool.lastAccess)
    ensures pool.frames == Released(Released(old(pool.frames), two.frame), one.frame)
    ensures |pool.lastUnpin| == |old(pool.lastUnpin)| == |pool.frames|
    ensures pool.lastUnpin == old(pool.lastUnpin)[two.frame := old(pool.clock)][one.frame := old(pool.clock) + 1]
  {
    pool.Unpin(two);
    assert one in pool.handles;
    pool.Unpin(one);
  }

  lemma PinnedOnce(frames: seq<Frame>, handles: multiset<PageHandle>, one: PageHandle, two: PageHandle)
    requires PinsOk(frames, handles) && handles == multiset{one, two} && one.page != two.page
    ensures one.frame < |frames| && two.frame < |frames| && one.frame != two.frame
    ensures frames[one.frame].page == Some(one.page) && frames[two.frame].page == Some(two.page)
    ensures frames[one.frame].pins == frames[two.frame].pins == 1
  {
    assert one in handles && two in handles;
  }

  /** Two pages in two frames: whatever the order of access, the one released first is the victim. */
  lemma ReleaseOrderDecides(frames: seq<Frame>, lastUnpin: seq<nat>, lastAccess: seq<nat>, clock: nat, one: nat,
                            two: nat)
    requires |frames| == |lastUnpin| == |lastAccess| == 2 && one < 2 && two == 1 - one
    requires frames[one].page.Some? && frames[two].page.Some? && frames[one].pins == frames[two].pins == 1
    requires lastAccess[one] < lastAccess[two]
    ensures var frames', lastUnpin' := Released(Released(frames, two), one), lastUnpin[two := clock][one := clock + 1];
            IsVictim(frames', lastUnpin', two) && IsVictim(frames', lastAccess, one)
  {}

  method TwoPinned() returns (pool: BufferPool, one: PageHandle, two: PageHandle)
    ensures fresh(pool) && fresh(pool.disk) && fresh(pool.evictionQueue) && pool.Valid() && pool.capacity == 2
    ensures one.frame < 2 && two.frame == 1 - one.frame && pool.handles == multiset{one, two}
    ensures pool.frames[one.frame].page == Some(1) && pool.frames[two.frame].page == Some(2)
    ensures pool.frames[one.frame].pins == pool.frames[two.frame].pins == 1
    ensures pool.lastAccess[one.frame] < pool.lastAccess[two.frame]
  {
    pool, one := PoolOfTwo(1);
    two := PinNext(pool, one, 2);
    PinnedOnce(pool.frames, pool.handles, one, two);
  }

  method PinNext(pool: BufferPool, one: PageHandle, p: nat) returns (two: PageHandle)
    requires pool.Valid() && pool.capacity == 2 && one.frame < 2 && pool.frames[1 - one.frame].pins == 0
          && pool.handles == multiset{one}
    requires pool.lastAccess[one.frame] < pool.accessCounter && p != one.page
    modifies pool, pool.disk`file, pool.evictionQueue
    ensures pool.Valid() && pool.handles == multiset{one, two} && two.page == p
    ensures one.frame != two.frame && two.frame < 2 && pool.lastAccess[one.frame] < pool.lastAccess[two.frame]
  {
    var pinned := pool.Pin(p);
    two := pinned.value;
    PinnedOnce(pool.frames, pool.handles, one, two);
  }
}
