/**
 Variable-length path matching: a breadth-first search over a queue of paths,
 proved to list the bounded simple walks, each exactly once and shortest first.
 */
module PathSearch {
  import opened Wrappers
  import opened Values
  import opened NodeTable
  import C = CsrGroups

  /** The steps of a walk after its source: next node and relationship id. */
  type Walk = seq<(nat, nat)>

  /** Forward edges of a node, as the relationship table returns them. */
  type Edges = nat -> seq<(nat, nat)>

  function Nodes(src: nat, w: Walk): (r: seq<nat>)
    ensures |r| == |w| + 1
    ensures forall i :: 0 <= i < |r| ==> r[i] == if i == 0 then src else w[i - 1].0
  {
    seq(|w| + 1, i requires 0 <= i <= |w| => if i == 0 then src else w[i - 1].0)
  }

  function Last(src: nat, w: Walk): nat { if w == [] then src else w[|w| - 1].0 }

  /** No edge is listed twice; relationship ids are unique, so this always holds. */
  ghost predicate ListedOnce(edges: Edges) { forall n :: NoDup(edges(n)) }

  /** The forward edges of a relationship table are listed once each, because ids are places in its log. */
  lemma TableListsOnce(log: seq<C.Edge>, edges: Edges)
    requires forall n :: edges(n) == C.OutEdges(log, n)
    ensures ListedOnce(edges)
  {
    forall n ensures NoDup(edges(n)) {
      C.OutEdgesIncrease(log, n);
    }
  }

  /** Every step is an edge that leaves the node reached so far. */
  ghost predicate IsWalk(edges: Edges, src: nat, w: Walk) {
    w != [] ==> IsWalk(edges, src, w[..|w| - 1]) && w[|w| - 1] in edges(Last(src, w[..|w| - 1]))
  }

  /** A walk whose nodes are pairwise distinct. */
  ghost predicate IsSimpleWalk(edges: Edges, src: nat, w: Walk) {
    IsWalk(edges, src, w) && NoDup(Nodes(src, w))
  }

  lemma NoDupSnoc<T(!new)>(s: seq<T>, x: T)
    ensures NoDup(s + [x]) <==> NoDup(s) && x !in s
  {
    var s' := s + [x];
    if NoDup(s') {
      forall i, j | 0 <= i < j < |s| ensures s[i] != s[j] { assert s'[i] != s'[j]; }
      forall i | 0 <= i < |s| ensures s[i] != x { assert s'[i] != s'[|s|]; }
    }
  }

  lemma NoDupConcat<T(!new)>(a: seq<T>, b: seq<T>)
    requires NoDup(a) && NoDup(b) && forall x :: x in a ==> x !in b
    ensures NoDup(a + b)
  {
    forall i, j | 0 <= i < j < |a + b| ensures (a + b)[i] != (a + b)[j] {
      if i < |a| <= j { assert a[i] in a && b[j - |a|] in b; }
    }
  }

  lemma SimpleStep(edges: Edges, src: nat, w: Walk, e: (nat, nat))
    ensures IsSimpleWalk(edges, src, w + [e])
       <==> IsSimpleWalk(edges, src, w) && e in edges(Last(src, w)) && e.0 !in Nodes(src, w)
  {
    assert (w + [e])[..|w|] == w;
    assert Nodes(src, w + [e]) == Nodes(src, w) + [e.0];
    NoDupSnoc(Nodes(src, w), e.0);
  }

  // ------------------------------------------------------------------ the levels of the search

  /** The one-step extensions of a walk that do not come back to one of its nodes. */
  function ExtendWith(src: nat, w: Walk, es: seq<(nat, nat)>): seq<Walk> {
    if es == [] then []
    else (if es[0].0 in Nodes(src, w) then [] else [w + [es[0]]]) + ExtendWith(src, w, es[1..])
  }

  function Extend(edges: Edges, src: nat, w: Walk): seq<Walk> { ExtendWith(src, w, edges(Last(src, w))) }

  function ExtendAll(edges: Edges, src: nat, ws: seq<Walk>): seq<Walk> {
    if ws == [] then [] else Extend(edges, src, ws[0]) + ExtendAll(edges, src, ws[1..])
  }

  /** All simple walks of length k. */
  function Level(edges: Edges, src: nat, k: nat): seq<Walk> {
    if k == 0 then [[]] else ExtendAll(edges, src, Level(edges, src, k - 1))
  }

  lemma {:induction false} ExtendWithIsExact(src: nat, w: Walk, es: seq<(nat, nat)>)
    ensures forall x: Walk :: x in ExtendWith(src, w, es) <==>
              |x| == |w| + 1 && x[..|w|] == w && x[|w|] in es && x[|w|].0 !in Nodes(src, w)
    ensures NoDup(es) ==> NoDup(ExtendWith(src, w, es))
  {
    if es != [] {
      ExtendWithIsExact(src, w, es[1..]);
      var x := w + [es[0]];
      assert x[..|w|] == w && x[|w|] == es[0];
      forall y: Walk | |y| == |w| + 1 && y[..|w|] == w && y[|w|] == es[0] ensures y == x {
        assert y == y[..|w|] + [y[|w|]];
      }
      if NoDup(es) {
        assert es[0] !in es[1..];
        assert x !in ExtendWith(src, w, es[1..]);
      }
    }
  }

  lemma {:induction false} ExtendAllIsExact(edges: Edges, src: nat, ws: seq<Walk>, k: nat)
    requires forall w :: w in ws ==> |w| == k
    ensures forall x: Walk :: x in ExtendAll(edges, src, ws) <==>
              |x| == k + 1 && x[..k] in ws && x in Extend(edges, src, x[..k])
    ensures NoDup(ws) && ListedOnce(edges) ==> NoDup(ExtendAll(edges, src, ws))
  {
    if ws != [] {
      var here, rest := Extend(edges, src, ws[0]), ExtendAll(edges, src, ws[1..]);
      assert |ws[0]| == k by { assert ws[0] in ws; }
      ExtendWithIsExact(src, ws[0], edges(Last(src, ws[0])));
      ExtendAllIsExact(edges, src, ws[1..], k);
      forall x: Walk ensures x in here + rest <==> |x| == k + 1 && x[..k] in ws && x in Extend(edges, src, x[..k]) {
        if x in here { assert x[..k] == ws[0]; }
        if |x| == k + 1 && x[..k] in ws && x[..k] != ws[0] { assert x[..k] in ws[1..]; }
      }
      if NoDup(ws) && ListedOnce(edges) {
        assert NoDup(edges(Last(src, ws[0])));
        assert ws[0] !in ws[1..];
        NoDupConcat(here, rest);
      }
    }
  }

  lemma {:induction false} LevelLength(edges: Edges, src: nat, k: nat)
    ensures forall w :: w in Level(edges, src, k) ==> |w| == k
  {
    if k > 0 {
      LevelLength(edges, src, k - 1);
      ExtendAllIsExact(edges, src, Level(edges, src, k - 1), k - 1);
    }
  }

  lemma {:induction false} LevelNoDup(edges: Edges, src: nat, k: nat)
    requires ListedOnce(edges)
    ensures NoDup(Level(edges, src, k))
  {
    if k > 0 {
      LevelLength(edges, src, k - 1);
      LevelNoDup(edges, src, k - 1);
      ExtendAllNoDup(edges, src, Level(edges, src, k - 1), k - 1);
    }
  }

  lemma ExtendAllNoDup(edges: Edges, src: nat, ws: seq<Walk>, k: nat)
    requires NoDup(ws) && ListedOnce(edges) && forall w :: w in ws ==> |w| == k
    ensures NoDup(ExtendAll(edges, src, ws))
  {
    ExtendAllIsExact(edges, src, ws, k);
  }

  lemma LevelStep(edges: Edges, src: nat, k: nat, w: Walk)
    requires k > 0 && |w| == k
    ensures w in Level(edges, src, k) <==> w[..k - 1] in Level(edges, src, k - 1) && w in Extend(edges, src, w[..k - 1])
  {
    LevelLength(edges, src, k - 1);
    ExtendedIsExact(edges, src, Level(edges, src, k - 1), k - 1, w);
  }

  lemma ExtendedIsExact(edges: Edges, src: nat, ws: seq<Walk>, k: nat, x: Walk)
    requires (forall w :: w in ws ==> |w| == k) && |x| == k + 1
    ensures x in ExtendAll(edges, src, ws) <==> x[..k] in ws && x in Extend(edges, src, x[..k])
  {
    ExtendAllIsExact(edges, src, ws, k);
  }

  lemma LengthInLevel(edges: Edges, src: nat, k: nat, w: Walk)
    ensures w in Level(edges, src, k) ==> |w| == k
  {
    LevelLength(edges, src, k);
  }

  /** Level k holds exactly the simple walks of length k. */
  lemma {:induction false} LevelIsExact(edges: Edges, src: nat, k: nat, w: Walk)
    ensures w in Level(edges, src, k) <==> |w| == k && IsSimpleWalk(edges, src, w)
  {
    LengthInLevel(edges, src, k, w);
    if k > 0 && |w| == k {
      LevelStep(edges, src, k, w);
      LevelIsExact(edges, src, k - 1, w[..k - 1]);
      ExtendIsExact(edges, src, w);
    }
  }

  lemma ExtendIsExact(edges: Edges, src: nat, w: Walk)
    requires w != []
    ensures IsSimpleWalk(edges, src, w)
       <==> IsSimpleWalk(edges, src, w[..|w| - 1]) && w in Extend(edges, src, w[..|w| - 1])
  {
    var front, e := w[..|w| - 1], w[|w| - 1];
    assert w == front + [e];
    SimpleStep(edges, src, front, e);
    ExtendWithIsExact(src, front, edges(Last(src, front)));
  }

  // ------------------------------------------------------------------ the queue

  /** How many queue entries a walk stands for: itself and everything pushed below it. */
  function TreeSize(edges: Edges, src: nat, w: Walk, budget: nat): nat
    decreases budget, 0
  {
    1 + if budget > 1 then TreeSizes(edges, src, Extend(edges, src, w), budget - 1) else 0
  }

  function TreeSizes(edges: Edges, src: nat, ws: seq<Walk>, budget: nat): nat
    decreases budget, |ws|
  {
    if ws == [] then 0 else TreeSize(edges, src, ws[0], budget) + TreeSizes(edges, src, ws[1..], budget)
  }

  function Budget(w: Walk, max: nat): nat { if |w| <= max then max - |w| else 0 }

  /** The termination measure of the queue loop. */
  function Weight(edges: Edges, src: nat, queue: seq<Walk>, max: nat): nat {
    if queue == [] then 0
    else TreeSize(edges, src, queue[0], Budget(queue[0], max)) + Weight(edges, src, queue[1..], max)
  }

  /** What one queue entry pushes. */
  function Pushed(edges: Edges, src: nat, w: Walk, max: nat): seq<Walk> {
    if |w| + 1 < max then Extend(edges, src, w) else []
  }

  lemma {:induction false} WeightOfAppend(edges: Edges, src: nat, a: seq<Walk>, b: seq<Walk>, max: nat)
    ensures Weight(edges, src, a + b, max) == Weight(edges, src, a, max) + Weight(edges, src, b, max)
  {
    if a == [] {
      assert a + b == b;
    } else {
      assert (a + b)[1..] == a[1..] + b;
      WeightOfAppend(edges, src, a[1..], b, max);
    }
  }

  lemma {:induction false} WeightOfLevel(edges: Edges, src: nat, ws: seq<Walk>, k: nat, max: nat)
    requires k <= max && forall w :: w in ws ==> |w| == k
    ensures Weight(edges, src, ws, max) == TreeSizes(edges, src, ws, max - k)
  {
    if ws != [] {
      assert ws[0] in ws;
      WeightOfLevel(edges, src, ws[1..], k, max);
    }
  }

  /** Each turn of the queue loop makes the weight smaller by exactly one. */
  lemma WeightDecreases(edges: Edges, src: nat, queue: seq<Walk>, max: nat)
    requires queue != []
    ensures Weight(edges, src, queue[1..] + Pushed(edges, src, queue[0], max), max)
         == Weight(edges, src, queue, max) - 1
  {
    var w, pushed := queue[0], Pushed(edges, src, queue[0], max);
    WeightOfAppend(edges, src, queue[1..], pushed, max);
    if |w| + 1 < max {
      ExtendWithIsExact(src, w, edges(Last(src, w)));
      WeightOfLevel(edges, src, pushed, |w| + 1, max);
    }
  }

  /** The walks found from a queue, in the order the loop finds them. */
  function Search(edges: Edges, src: nat, queue: seq<Walk>, max: nat): seq<Walk>
    decreases Weight(edges, src, queue, max)
  {
    if queue == [] then []
    else
      WeightDecreases(edges, src, queue, max);
      (if |queue[0]| < max then Extend(edges, src, queue[0]) else [])
      + Search(edges, src, queue[1..] + Pushed(edges, src, queue[0], max), max)
  }

  /** A whole level at the head of the queue is found as its extensions, which end up behind the rest. */
  lemma {:induction false} SearchLevel(edges: Edges, src: nat, level: seq<Walk>, rest: seq<Walk>, d: nat, max: nat)
    requires d < max && forall w :: w in level ==> |w| == d
    ensures Search(edges, src, level + rest, max)
         == ExtendAll(edges, src, level)
            + Search(edges, src, rest + (if d + 1 < max then ExtendAll(edges, src, level) else []), max)
    decreases |level|
  {
    if level == [] {
      assert level + rest == rest && rest + [] == rest;
    } else {
      var w, below, queue := level[0], level[1..], level + rest;
      assert w in level && queue[0] == w;
      var here, pushed := Extend(edges, src, w), Pushed(edges, src, w, max);
      assert queue[1..] + pushed == below + (rest + pushed);
      SearchLevel(edges, src, below, rest + pushed, d, max);
      var deeper := if d + 1 < max then ExtendAll(edges, src, below) else [];
      Assoc(rest, pushed, deeper);
      Assoc(here, ExtendAll(edges, src, below), Search(edges, src, rest + (pushed + deeper), max));
    }
  }

  /** The levels from k to max one after the other. */
  function Levels(level: nat -> seq<Walk>, k: nat, max: nat): seq<Walk>
    decreases if k <= max then max - k + 1 else 0
  {
    if k > max then [] else level(k) + Levels(level, k + 1, max)
  }

  /** Each level extends the one before it. */
  ghost predicate IsLevels(edges: Edges, src: nat, level: nat -> seq<Walk>) {
    && (forall k: nat {:trigger ExtendAll(edges, src, level(k))} :: level(k + 1) == ExtendAll(edges, src, level(k)))
    && (forall k: nat, w :: w in level(k) ==> |w| == k)
  }

  function LevelsOf(edges: Edges, src: nat): nat -> seq<Walk> { k => Level(edges, src, k) }

  lemma LevelsOfIsLevels(edges: Edges, src: nat)
    ensures IsLevels(edges, src, LevelsOf(edges, src))
  {
    forall k: nat ensures forall w :: w in LevelsOf(edges, src)(k) ==> |w| == k {
      LevelLength(edges, src, k);
    }
  }

  lemma {:induction false} SearchIsLevels(edges: Edges, src: nat, level: nat -> seq<Walk>, k: nat, max: nat)
    requires k < max && IsLevels(edges, src, level)
    ensures Search(edges, src, level(k), max) == Levels(level, k + 1, max)
    decreases max - k
  {
    var here, next := level(k), level(k + 1);
    assert next == ExtendAll(edges, src, here);
    SearchFromLevel(edges, src, here, k, max);
    if k + 1 < max {
      SearchIsLevels(edges, src, level, k + 1, max);
    } else {
      assert Levels(level, k + 2, max) == [];
    }
  }

  lemma SearchFromLevel(edges: Edges, src: nat, level: seq<Walk>, d: nat, max: nat)
    requires d < max && forall w :: w in level ==> |w| == d
    ensures Search(edges, src, level, max)
         == ExtendAll(edges, src, level)
              + (if d + 1 < max then Search(edges, src, ExtendAll(edges, src, level), max) else [])
  {
    SearchLevel(edges, src, level, [], d, max);
    assert level + [] == level;
    var next: seq<Walk> := if d + 1 < max then ExtendAll(edges, src, level) else [];
    assert [] + next == next;
  }

  // ------------------------------------------------------------------ which walks make a row

  /** Long enough, and ending in a node that passes the destination filter. */
  function Keep(src: nat, ws: seq<Walk>, min: nat, passes: nat -> bool): seq<Walk> {
    if ws == [] then []
    else Keep(src, ws[..|ws| - 1], min, passes)
         + (if |ws[|ws| - 1]| >= min && passes(Last(src, ws[|ws| - 1])) then [ws[|ws| - 1]] else [])
  }

  /** The walks a source contributes. */
  function Matches(edges: Edges, src: nat, min: nat, max: nat, passes: nat -> bool): seq<Walk> {
    Keep(src, Levels(LevelsOf(edges, src), 1, max), min, passes)
  }

  ghost predicate ByLength(ws: seq<Walk>) { forall i, j :: 0 <= i < j < |ws| ==> |ws[i]| <= |ws[j]| }

  lemma {:induction false} KeepIsExact(src: nat, ws: seq<Walk>, min: nat, passes: nat -> bool)
    ensures forall w :: w in Keep(src, ws, min, passes) <==> w in ws && |w| >= min && passes(Last(src, w))
    ensures NoDup(ws) ==> NoDup(Keep(src, ws, min, passes))
  {
    if ws != [] {
      var front, last := ws[..|ws| - 1], ws[|ws| - 1];
      assert ws == front + [last];
      KeepIsExact(src, front, min, passes);
      NoDupSnoc(front, last);
      NoDupSnoc(Keep(src, front, min, passes), last);
    }
  }

  lemma ByLengthSnoc(ws: seq<Walk>, w: Walk)
    ensures ByLength(ws + [w]) <==> ByLength(ws) && forall v :: v in ws ==> |v| <= |w|
  {
    assert forall v :: v in ws <==> exists i :: 0 <= i < |ws| && ws[i] == v;
    forall i | 0 <= i < |ws| ensures (ws + [w])[i] == ws[i] {}
    assert (ws + [w])[|ws|] == w;
  }

  lemma {:induction false} KeepByLength(src: nat, ws: seq<Walk>, min: nat, passes: nat -> bool)
    requires ByLength(ws)
    ensures ByLength(Keep(src, ws, min, passes))
  {
    if ws != [] {
      var front, last := ws[..|ws| - 1], ws[|ws| - 1];
      assert ws == front + [last];
      ByLengthSnoc(front, last);
      KeepByLength(src, front, min, passes);
      KeepIsExact(src, front, min, passes);
      ByLengthSnoc(Keep(src, front, min, passes), last);
    }
  }

  lemma LevelOrDeeper(level: nat -> seq<Walk>, k: nat, max: nat, w: Walk)
    ensures w in Levels(level, k, max) <==> k <= max && (w in level(k) || w in Levels(level, k + 1, max))
  {}

  lemma {:induction false} LevelsLength(level: nat -> seq<Walk>, k: nat, max: nat)
    requires forall i: nat, w :: w in level(i) ==> |w| == i
    ensures forall w :: w in Levels(level, k, max) <==> k <= |w| <= max && w in level(|w|)
    decreases if k <= max then max - k + 1 else 0
  {
    if k <= max {
      LevelsLength(level, k + 1, max);
      forall w: Walk ensures w in Levels(level, k, max) <==> k <= |w| <= max && w in level(|w|) {
        LevelOrDeeper(level, k, max, w);
        if w in level(k) { assert |w| == k; }
      }
    }
  }

  lemma DeeperIsLonger(level: nat -> seq<Walk>, k: nat, max: nat)
    requires forall i: nat, w :: w in level(i) ==> |w| == i
    ensures forall w :: w in Levels(level, k + 1, max) ==> |w| > k
  {
    LevelsLength(level, k + 1, max);
  }

  lemma {:induction false} LevelsInOrder(level: nat -> seq<Walk>, k: nat, max: nat)
    requires forall i: nat, w :: w in level(i) ==> |w| == i
    ensures ByLength(Levels(level, k, max))
    decreases if k <= max then max - k + 1 else 0
  {
    if k <= max {
      DeeperIsLonger(level, k, max);
      LevelsInOrder(level, k + 1, max);
      ByLengthConcat(level(k), Levels(level, k + 1, max), k);
    }
  }

  lemma {:induction false} LevelsNoDup(level: nat -> seq<Walk>, k: nat, max: nat)
    requires forall i: nat, w :: w in level(i) ==> |w| == i
    requires forall i: nat :: NoDup(level(i))
    ensures NoDup(Levels(level, k, max))
    decreases if k <= max then max - k + 1 else 0
  {
    if k <= max {
      DeeperIsLonger(level, k, max);
      LevelsNoDup(level, k + 1, max);
      NoDupByLength(level(k), Levels(level, k + 1, max), k);
    }
  }

  lemma NoDupByLength(a: seq<Walk>, b: seq<Walk>, k: nat)
    requires (forall w :: w in a ==> |w| == k) && (forall w :: w in b ==> |w| > k) && NoDup(a) && NoDup(b)
    ensures NoDup(a + b)
  {
    NoDupConcat(a, b);
  }

  lemma ByLengthConcat(a: seq<Walk>, b: seq<Walk>, k: nat)
    requires (forall w :: w in a ==> |w| == k) && (forall w :: w in b ==> |w| > k) && ByLength(b)
    ensures ByLength(a + b)
  {
    var all: seq<Walk> := a + b;
    forall i, j | 0 <= i < j < |all| ensures |all[i]| <= |all[j]| {
      if i < |a| { assert a[i] in a; }
      if j < |a| { assert a[j] in a; } else { assert b[j - |a|] in b; }
    }
  }

  /**
   A source contributes exactly one row per simple walk whose length lies between
   max(1, min) and max and whose end passes the filter, and shorter walks come first.
   Parallel edges have different ids, so they count separately.
   */
  lemma MatchesAreExact(edges: Edges, src: nat, min: nat, max: nat, passes: nat -> bool)
    requires ListedOnce(edges)
    ensures var m := Matches(edges, src, min, max, passes);
            && (forall w: Walk :: w in m <==>
                  && IsSimpleWalk(edges, src, w) && passes(Last(src, w))
                  && 1 <= |w| && min <= |w| <= max)
            && NoDup(m) && ByLength(m)
  {
    var level := LevelsOf(edges, src);
    LevelsOfIsLevels(edges, src);
    LevelsLength(level, 1, max);
    LevelsInOrder(level, 1, max);
    forall k: nat ensures NoDup(level(k)) { LevelNoDup(edges, src, k); }
    LevelsNoDup(level, 1, max);
    forall w: Walk ensures w in Levels(level, 1, max) <==> 1 <= |w| <= max && IsSimpleWalk(edges, src, w) {
      LevelIsExact(edges, src, |w|, w);
    }
    KeepIsExact(src, Levels(level, 1, max), min, passes);
    KeepByLength(src, Levels(level, 1, max), min, passes);
  }

  // ------------------------------------------------------------------ the query

  /** What `collect_multi_hop_rows` is given besides the sources, the edges and the bounds. */
  datatype Pattern = Pattern(srcVar: string, dstVar: string, projections: seq<(string, string)>,
                             srcTable: Table, dstTable: Table, dstFilter: Option<(string, Value)>)

  /** `NodeTable::get` */
  function Get(t: Table, row: nat, column: string): Option<Value> {
    match Position(Names(t.schema), column)
    case None => None
    case Some(c) => if c < |t.data.columns| && row < |t.data.columns[c]| then Some(t.data.columns[c][row]) else None
  }

  predicate Passes(p: Pattern, node: nat) {
    match p.dstFilter
    case None => true
    case Some((key, expected)) => Get(p.dstTable, node, key) == Some(expected)
  }

  function Filter(p: Pattern): nat -> bool { (node: nat) => Passes(p, node) }

  /** The projected columns of a source and a destination; later projections win. */
  function BuildRow(p: Pattern, projections: seq<(string, string)>, src: nat, dst: nat): map<string, Value> {
    if projections == [] then map[]
    else
      var (v, prop) := projections[|projections| - 1];
      var row := BuildRow(p, projections[..|projections| - 1], src, dst);
      var value := if v == p.srcVar then Get(p.srcTable, src, prop)
                   else if v == p.dstVar then Get(p.dstTable, dst, prop)
                   else None;
      if value.Some? then row[v + "." + prop := value.value] else row
  }

  function MakeRow(p: Pattern, src: nat, dst: nat): map<string, Value> { BuildRow(p, p.projections, src, dst) }

  function RowsOf(p: Pattern, src: nat, ws: seq<Walk>): (rows: seq<map<string, Value>>)
    ensures |rows| == |ws|
  {
    seq(|ws|, i requires 0 <= i < |ws| => MakeRow(p, src, Last(src, ws[i])))
  }

  function MatchesFor(p: Pattern, edges: Edges, src: nat, min: nat, max: nat): seq<Walk> {
    Matches(edges, src, min, max, Filter(p))
  }

  /** One row per match, source by source. */
  function ExpectedRows(p: Pattern, edges: Edges, srcs: seq<nat>, min: nat, max: nat): seq<map<string, Value>> {
    if srcs == [] then []
    else ExpectedRows(p, edges, srcs[..|srcs| - 1], min, max)
         + RowsOf(p, srcs[|srcs| - 1], MatchesFor(p, edges, srcs[|srcs| - 1], min, max))
  }

  method CollectMultiHopRows(srcs: seq<nat>, edges: Edges, p: Pattern, min: nat, max: nat)
    returns (rows: seq<map<string, Value>>)
    ensures rows == ExpectedRows(p, edges, srcs, min, max)
    ensures ListedOnce(edges) ==> exists ms :: AnswersQuery(srcs, edges, p, min, max, rows, ms)
  {
    rows := [];
    for i := 0 to |srcs|
      invariant rows == ExpectedRows(p, edges, srcs[..i], min, max)
    {
      var more := CollectFrom(srcs[i], edges, p, min, max);
      assert srcs[..i + 1][..i] == srcs[..i];
      rows := rows + more;
    }
    assert srcs[..|srcs|] == srcs;
    if ListedOnce(edges) {
      ghost var ms := ExpectedAnswers(srcs, edges, p, min, max);
    }
  }

  // ------------------------------------------------------------------ what the rows say

  lemma GetIsCell(t: Table, row: nat, column: string)
    ensures forall v :: Get(t, row, column) == Some(v) <==> HasCell(t, row, column, v)
  {
    var names := Names(t.schema);
    var c := Position(names, column);
    if c.Some? {
      assert t.schema.columns[c.value].name == column;
      forall b | 0 <= b < c.value ensures t.schema.columns[b].name != column {
        assert names[..c.value][b] == names[b];
      }
      forall v | HasCell(t, row, column, v) ensures Get(t, row, column) == Some(v) {
        var d :| 0 <= d < |t.schema.columns| && t.schema.columns[d].name == column
          && (forall b :: 0 <= b < d ==> t.schema.columns[b].name != column)
          && d < |t.data.columns| && row < |t.data.columns[d]| && t.data.columns[d][row] == v;
        assert d == c.value;
      }
    } else {
      assert forall d :: 0 <= d < |names| ==> names[d] == t.schema.columns[d].name;
    }
  }

  /** What a projection shows of a source and the end of a walk: a cell of the table its variable stands for. */
  ghost predicate Shows(p: Pattern, j: nat, src: nat, end: nat, column: string, v: Value) {
    j < |p.projections|
    && var (variable, prop) := p.projections[j];
       && column == variable + "." + prop
       && if variable == p.srcVar then HasCell(p.srcTable, src, prop, v)
          else variable == p.dstVar && HasCell(p.dstTable, end, prop, v)
  }

  /** The last of the first n projections that show this column at all shows it so. */
  ghost predicate ShownLast(p: Pattern, n: nat, src: nat, end: nat, column: string, v: Value) {
    exists j: nat ::
      && j < n && Shows(p, j, src, end, column, v)
      && forall k: nat, w :: k < n && Shows(p, k, src, end, column, w) ==> k <= j
  }

  /** The column is there if one of the first n projections shows it, and then as the last of them does. */
  ghost predicate ColumnShows(p: Pattern, n: nat, src: nat, end: nat, row: map<string, Value>, column: string) {
    && (column in row <==> exists j: nat, v :: j < n && Shows(p, j, src, end, column, v))
    && (column in row ==> ShownLast(p, n, src, end, column, row[column]))
  }

  /** A row has exactly the columns that some projection shows, each as the last such projection shows it. */
  ghost predicate RowShows(p: Pattern, src: nat, end: nat, row: map<string, Value>) {
    forall column :: ColumnShows(p, |p.projections|, src, end, row, column)
  }

  lemma ShowsNew(p: Pattern, n: nat, src: nat, end: nat, row: map<string, Value>, column: string)
    requires column in row && Shows(p, n, src, end, column, row[column])
    ensures ColumnShows(p, n + 1, src, end, row, column)
  {
    assert forall k: nat, w :: k < n + 1 && Shows(p, k, src, end, column, w) ==> k <= n;
  }

  ghost predicate SameIn(row: map<string, Value>, row': map<string, Value>, column: string) {
    (column in row <==> column in row') && (column in row ==> row[column] == row'[column])
  }

  lemma ShowsSame(p: Pattern, n: nat, src: nat, end: nat, row: map<string, Value>, row': map<string, Value>,
                  column: string)
    requires ColumnShows(p, n, src, end, row, column) && forall v :: !Shows(p, n, src, end, column, v)
    requires SameIn(row, row', column)
    ensures ColumnShows(p, n + 1, src, end, row', column)
  {
    if column in row { LastStays(p, n, src, end, column, row[column]); }
  }

  lemma LastStays(p: Pattern, n: nat, src: nat, end: nat, column: string, v: Value)
    requires ShownLast(p, n, src, end, column, v) && forall w :: !Shows(p, n, src, end, column, w)
    ensures ShownLast(p, n + 1, src, end, column, v)
  {
    var j: nat :| j < n && Shows(p, j, src, end, column, v)
      && forall k: nat, w :: k < n && Shows(p, k, src, end, column, w) ==> k <= j;
    forall k: nat, w | k < n + 1 && Shows(p, k, src, end, column, w) ensures k <= j {}
  }

  /** What one more projection does to one column. */
  lemma OneProjection(p: Pattern, n: nat, src: nat, end: nat, column: string)
    requires n < |p.projections|
    ensures var row := BuildRow(p, p.projections[..n], src, end);
            var row' := BuildRow(p, p.projections[..n + 1], src, end);
            && (forall v :: Shows(p, n, src, end, column, v) ==> column in row' && row'[column] == v)
            && ((forall v :: !Shows(p, n, src, end, column, v)) ==> SameIn(row, row', column))
  {
    assert p.projections[..n + 1][..n] == p.projections[..n];
    var (variable, prop) := p.projections[n];
    GetIsCell(p.srcTable, src, prop);
    GetIsCell(p.dstTable, end, prop);
    var cell := if variable == p.srcVar then Get(p.srcTable, src, prop)
                else if variable == p.dstVar then Get(p.dstTable, end, prop)
                else None;
    assert forall v :: Shows(p, n, src, end, column, v) <==> column == variable + "." + prop && cell == Some(v);
    if column == variable + "." + prop && cell.Some? { assert Shows(p, n, src, end, column, cell.value); }
  }

  lemma {:induction false} BuiltColumn(p: Pattern, n: nat, src: nat, end: nat, column: string)
    requires n <= |p.projections|
    ensures ColumnShows(p, n, src, end, BuildRow(p, p.projections[..n], src, end), column)
  {
    if n > 0 {
      var last := n - 1;
      BuiltColumn(p, last, src, end, column);
      OneProjection(p, last, src, end, column);
      var row' := BuildRow(p, p.projections[..n], src, end);
      if exists v :: Shows(p, last, src, end, column, v) {
        ShowsNew(p, last, src, end, row', column);
      } else {
        ShowsSame(p, last, src, end, BuildRow(p, p.projections[..last], src, end), row', column);
      }
    }
  }

  lemma MadeRowShows(p: Pattern, src: nat, end: nat)
    ensures RowShows(p, src, end, MakeRow(p, src, end))
  {
    assert p.projections[..|p.projections|] == p.projections;
    forall column ensures ColumnShows(p, |p.projections|, src, end, MakeRow(p, src, end), column) {
      BuiltColumn(p, |p.projections|, src, end, column);
    }
  }

  /** The filter's column holds the expected value in the row the walk ends at. */
  ghost predicate EndPasses(p: Pattern, end: nat) {
    p.dstFilter.Some? ==> HasCell(p.dstTable, end, p.dstFilter.value.0, p.dstFilter.value.1)
  }

  /** Step k follows an edge of the node reached before it. */
  ghost predicate IsStep(edges: Edges, src: nat, w: Walk, k: nat)
    requires k < |w|
  {
    w[k] in edges(if k == 0 then src else w[k - 1].0)
  }

  /**
   Between one and max steps and not fewer than min, each along an edge of the node reached so
   far and to a node the walk has not seen; and the end passes the filter.
   */
  ghost predicate IsMatch(p: Pattern, edges: Edges, src: nat, min: nat, max: nat, w: Walk) {
    && 1 <= |w| && min <= |w| <= max
    && (forall k :: 0 <= k < |w| ==> IsStep(edges, src, w, k) && w[k].0 != src)
    && (forall i, k :: 0 <= i < k < |w| ==> w[i].0 != w[k].0)
    && EndPasses(p, w[|w| - 1].0)
  }

  lemma {:induction false} WalkSteps(edges: Edges, src: nat, w: Walk)
    ensures IsWalk(edges, src, w) <==> forall k :: 0 <= k < |w| ==> IsStep(edges, src, w, k)
  {
    if w != [] {
      var n := |w| - 1;
      WalkSteps(edges, src, w[..n]);
      forall k | 0 <= k < n ensures IsStep(edges, src, w, k) <==> IsStep(edges, src, w[..n], k) {}
      assert IsStep(edges, src, w, n) <==> w[n] in edges(Last(src, w[..n]));
    }
  }

  lemma MatchIsSimpleWalk(p: Pattern, edges: Edges, src: nat, min: nat, max: nat, w: Walk)
    ensures IsMatch(p, edges, src, min, max, w)
       <==> IsSimpleWalk(edges, src, w) && Passes(p, Last(src, w)) && 1 <= |w| && min <= |w| <= max
  {
    WalkSteps(edges, src, w);
    if w != [] && p.dstFilter.Some? { GetIsCell(p.dstTable, w[|w| - 1].0, p.dstFilter.value.0); }
    var nodes := Nodes(src, w);
    if NoDup(nodes) {
      forall k | 0 <= k < |w| ensures w[k].0 != src { assert nodes[0] != nodes[k + 1]; }
      forall i, k | 0 <= i < k < |w| ensures w[i].0 != w[k].0 { assert nodes[i + 1] != nodes[k + 1]; }
    }
  }

  /** The row shows the source and the end of this match. */
  ghost predicate IsRowOf(srcs: seq<nat>, edges: Edges, p: Pattern, min: nat, max: nat, m: (nat, Walk),
                          row: map<string, Value>)
  {
    && m.0 < |srcs| && IsMatch(p, edges, srcs[m.0], min, max, m.1)
    && RowShows(p, srcs[m.0], m.1[|m.1| - 1].0, row)
  }

  ghost predicate RowsOfMatches(srcs: seq<nat>, edges: Edges, p: Pattern, min: nat, max: nat,
                                rows: seq<map<string, Value>>, ms: seq<(nat, Walk)>)
  {
    |ms| == |rows| && forall i :: 0 <= i < |ms| ==> IsRowOf(srcs, edges, p, min, max, ms[i], rows[i])
  }

  ghost predicate AllMatches(srcs: seq<nat>, edges: Edges, p: Pattern, min: nat, max: nat, ms: seq<(nat, Walk)>) {
    forall k: nat, w: Walk :: k < |srcs| && IsMatch(p, edges, srcs[k], min, max, w) ==> (k, w) in ms
  }

  /** No match twice, source by source and shorter walks first. */
  ghost predicate InOrder(ms: seq<(nat, Walk)>) {
    && NoDup(ms)
    && (forall i, j :: 0 <= i < j < |ms| ==> ms[i].0 < ms[j].0 || (ms[i].0 == ms[j].0 && |ms[i].1| <= |ms[j].1|))
  }

  /** The rows answer the query: one row for each match of each source and no other, in this order. */
  ghost predicate AnswersQuery(srcs: seq<nat>, edges: Edges, p: Pattern, min: nat, max: nat,
                               rows: seq<map<string, Value>>, ms: seq<(nat, Walk)>)
  {
    RowsOfMatches(srcs, edges, p, min, max, rows, ms) && AllMatches(srcs, edges, p, min, max, ms) && InOrder(ms)
  }

  function Tagged(k: nat, ws: seq<Walk>): (ms: seq<(nat, Walk)>)
    ensures |ms| == |ws|
  {
    seq(|ws|, i requires 0 <= i < |ws| => (k, ws[i]))
  }

  /** The matches of one source, and its rows. */
  lemma OneSource(srcs: seq<nat>, src: nat, edges: Edges, p: Pattern, min: nat, max: nat)
    requires ListedOnce(edges)
    ensures var ws := MatchesFor(p, edges, src, min, max);
            && (forall w: Walk :: w in ws <==> IsMatch(p, edges, src, min, max, w)) && NoDup(ws) && ByLength(ws)
            && RowsOfMatches(srcs + [src], edges, p, min, max, RowsOf(p, src, ws), Tagged(|srcs|, ws))
  {
    MatchesAreExact(edges, src, min, max, Filter(p));
    var ws := MatchesFor(p, edges, src, min, max);
    forall w: Walk ensures w in ws <==> IsMatch(p, edges, src, min, max, w) {
      MatchIsSimpleWalk(p, edges, src, min, max, w);
    }
    forall i | 0 <= i < |ws|
      ensures IsRowOf(srcs + [src], edges, p, min, max, (|srcs|, ws[i]), RowsOf(p, src, ws)[i])
    {
      assert ws[i] in ws;
      MadeRowShows(p, src, Last(src, ws[i]));
    }
  }

  lemma MoreRows(all: seq<nat>, edges: Edges, p: Pattern, min: nat, max: nat,
                 rows: seq<map<string, Value>>, ms: seq<(nat, Walk)>, more: seq<map<string, Value>>,
                 moreMs: seq<(nat, Walk)>)
    requires RowsOfMatches(all, edges, p, min, max, rows, ms) && RowsOfMatches(all, edges, p, min, max, more, moreMs)
    ensures RowsOfMatches(all, edges, p, min, max, rows + more, ms + moreMs)
  {}

  lemma SameRows(srcs: seq<nat>, src: nat, edges: Edges, p: Pattern, min: nat, max: nat,
                 rows: seq<map<string, Value>>, ms: seq<(nat, Walk)>)
    requires RowsOfMatches(srcs, edges, p, min, max, rows, ms)
    ensures RowsOfMatches(srcs + [src], edges, p, min, max, rows, ms)
  {
    forall i | 0 <= i < |ms| ensures IsRowOf(srcs + [src], edges, p, min, max, ms[i], rows[i]) {
      SameRow(srcs, src, edges, p, min, max, ms[i], rows[i]);
    }
  }

  lemma SameRow(srcs: seq<nat>, src: nat, edges: Edges, p: Pattern, min: nat, max: nat, m: (nat, Walk),
                row: map<string, Value>)
    requires IsRowOf(srcs, edges, p, min, max, m, row)
    ensures IsRowOf(srcs + [src], edges, p, min, max, m, row)
  {
    assert (srcs + [src])[m.0] == srcs[m.0];
  }

  lemma MoreMatches(srcs: seq<nat>, src: nat, edges: Edges, p: Pattern, min: nat, max: nat, ms: seq<(nat, Walk)>,
                    ws: seq<Walk>)
    requires AllMatches(srcs, edges, p, min, max, ms)
    requires forall w: Walk :: IsMatch(p, edges, src, min, max, w) ==> w in ws
    ensures AllMatches(srcs + [src], edges, p, min, max, ms + Tagged(|srcs|, ws))
  {
    var n, all, tagged := |srcs|, srcs + [src], Tagged(|srcs|, ws);
    forall k: nat, w: Walk | k < |all| && IsMatch(p, edges, all[k], min, max, w) ensures (k, w) in ms + tagged {
      if k == n {
        assert w in ws;
        var i :| 0 <= i < |ws| && ws[i] == w;
        assert tagged[i] == (k, w);
      } else {
        assert all[k] == srcs[k];
      }
    }
  }

  lemma MoreInOrder(ms: seq<(nat, Walk)>, n: nat, ws: seq<Walk>)
    requires InOrder(ms) && NoDup(ws) && ByLength(ws) && forall i :: 0 <= i < |ms| ==> ms[i].0 < n
    ensures InOrder(ms + Tagged(n, ws))
  {}

  /** The rows that the loops produce answer the query. */
  lemma {:induction false} ExpectedAnswers(srcs: seq<nat>, edges: Edges, p: Pattern, min: nat, max: nat)
    returns (ms: seq<(nat, Walk)>)
    requires ListedOnce(edges)
    ensures AnswersQuery(srcs, edges, p, min, max, ExpectedRows(p, edges, srcs, min, max), ms)
  {
    if srcs == [] {
      ms := [];
    } else {
      var front, src := srcs[..|srcs| - 1], srcs[|srcs| - 1];
      var ws := MatchesFor(p, edges, src, min, max);
      ms := ExpectedAnswers(front, edges, p, min, max);
      OneSource(front, src, edges, p, min, max);
      SameRows(front, src, edges, p, min, max, ExpectedRows(p, edges, front, min, max), ms);
      MoreRows(front + [src], edges, p, min, max, ExpectedRows(p, edges, front, min, max), ms,
               RowsOf(p, src, ws), Tagged(|front|, ws));
      MoreMatches(front, src, edges, p, min, max, ms, ws);
      MoreInOrder(ms, |front|, ws);
      ms := ms + Tagged(|front|, ws);
      assert front + [src] == srcs;
    }
  }

  /** A queue entry: the node reached, its depth, and the nodes on the way. */
  datatype Item = Item(node: nat, depth: nat, path: seq<nat>)

  function ItemOf(src: nat, w: Walk): Item { Item(Last(src, w), |w|, Nodes(src, w)) }

  ghost predicate Represents(queue: seq<Item>, src: nat, walks: seq<Walk>) {
    |queue| == |walks| && forall i :: 0 <= i < |queue| ==> queue[i] == ItemOf(src, walks[i])
  }

  function Kept(p: Pattern, src: nat, ws: seq<Walk>, min: nat): seq<map<string, Value>> {
    RowsOf(p, src, Keep(src, ws, min, Filter(p)))
  }

  lemma {:induction false} KeepConcat(src: nat, a: seq<Walk>, b: seq<Walk>, min: nat, passes: nat -> bool)
    ensures Keep(src, a + b, min, passes) == Keep(src, a, min, passes) + Keep(src, b, min, passes)
  {
    if b == [] {
      assert a + b == a;
    } else {
      var all: seq<Walk> := a + b;
      assert all[..|all| - 1] == a + b[..|b| - 1] && all[|all| - 1] == b[|b| - 1];
      KeepConcat(src, a, b[..|b| - 1], min, passes);
    }
  }

  lemma KeptConcat(p: Pattern, src: nat, a: seq<Walk>, b: seq<Walk>, min: nat)
    ensures Kept(p, src, a + b, min) == Kept(p, src, a, min) + Kept(p, src, b, min)
  {
    KeepConcat(src, a, b, min, Filter(p));
  }

  lemma {:induction false} ExtendWithSnoc(src: nat, w: Walk, es: seq<(nat, nat)>, e: (nat, nat))
    ensures ExtendWith(src, w, es + [e]) == ExtendWith(src, w, es) + if e.0 in Nodes(src, w) then [] else [w + [e]]
  {
    if es == [] {
      assert (es + [e])[1..] == [];
    } else {
      assert (es + [e])[1..] == es[1..] + [e];
      ExtendWithSnoc(src, w, es[1..], e);
    }
  }

  /** The search from one source. */
  method CollectFrom(src: nat, edges: Edges, p: Pattern, min: nat, max: nat) returns (rows: seq<map<string, Value>>)
    ensures rows == RowsOf(p, src, MatchesFor(p, edges, src, min, max))
  {
    assert Nodes(src, []) == [src];
    rows := RunQueue(src, [Item(src, 0, [src])], [[]], edges, p, min, max);
    StartToFinish(edges, src, max);
  }

  method RunQueue(src: nat, start: seq<Item>, ghost from: seq<Walk>, edges: Edges, p: Pattern, min: nat, max: nat)
    returns (rows: seq<map<string, Value>>)
    requires Represents(start, src, from)
    ensures rows == Kept(p, src, Search(edges, src, from, max), min)
  {
    rows := [];
    var queue := start;
    ghost var walks, left := from, Kept(p, src, Search(edges, src, from, max), min);
    while queue != []
      invariant Represents(queue, src, walks)
      invariant left == Kept(p, src, Search(edges, src, walks, max), min)
      invariant rows + left == Kept(p, src, Search(edges, src, from, max), min)
      decreases Weight(edges, src, walks, max)
    {
      var found;
      ghost var before := left;
      found, queue, walks := Turn(src, queue, walks, edges, p, min, max);
      left := Kept(p, src, Search(edges, src, walks, max), min);
      assert rows + before == (rows + found) + left;
      rows := rows + found;
    }
    assert left == [] && rows + [] == rows;
  }

  /** One turn of the queue loop. */
  method Turn(src: nat, queue: seq<Item>, ghost walks: seq<Walk>, edges: Edges, p: Pattern, min: nat, max: nat)
    returns (found: seq<map<string, Value>>, queue': seq<Item>, ghost walks': seq<Walk>)
    requires queue != [] && Represents(queue, src, walks)
    ensures Represents(queue', src, walks')
    ensures Kept(p, src, Search(edges, src, walks, max), min)
         == found + Kept(p, src, Search(edges, src, walks', max), min)
    ensures Weight(edges, src, walks', max) < Weight(edges, src, walks, max)
  {
    var item := queue[0];
    WeightDecreases(edges, src, walks, max);
    TurnOfSearch(p, edges, src, walks, min, max);
    walks' := walks[1..] + Pushed(edges, src, walks[0], max);
    if item.depth >= max {
      return [], queue[1..], walks';
    }
    var pushed;
    found, pushed := Expand(src, item, walks[0], edges, p, min, max);
    queue' := queue[1..] + pushed;
    RepresentsConcat(queue[1..], pushed, src, walks[1..], Pushed(edges, src, walks[0], max));
  }

  lemma RepresentsConcat(a: seq<Item>, b: seq<Item>, src: nat, ws: seq<Walk>, vs: seq<Walk>)
    requires Represents(a, src, ws) && Represents(b, src, vs)
    ensures Represents(a + b, src, ws + vs)
  {}

  /** One turn keeps the extensions of the first walk, and the rest of the search comes behind them. */
  lemma TurnOfSearch(p: Pattern, edges: Edges, src: nat, walks: seq<Walk>, min: nat, max: nat)
    requires walks != []
    ensures Kept(p, src, Search(edges, src, walks, max), min)
         == (if |walks[0]| < max then Kept(p, src, Extend(edges, src, walks[0]), min) else [])
            + Kept(p, src, Search(edges, src, walks[1..] + Pushed(edges, src, walks[0], max), max), min)
    ensures |walks[0]| >= max
        ==> Pushed(edges, src, walks[0], max) == [] && walks[1..] + Pushed(edges, src, walks[0], max) == walks[1..]
  {
    var rest := walks[1..] + Pushed(edges, src, walks[0], max);
    KeptConcat(p, src, if |walks[0]| < max then Extend(edges, src, walks[0]) else [],
               Search(edges, src, rest, max), min);
  }

  lemma StartToFinish(edges: Edges, src: nat, max: nat)
    ensures Search(edges, src, [[]], max) == Levels(LevelsOf(edges, src), 1, max)
  {
    if max > 0 {
      LevelsOfIsLevels(edges, src);
      assert LevelsOf(edges, src)(0) == [[]];
      SearchIsLevels(edges, src, LevelsOf(edges, src), 0, max);
    }
  }

  /** One turn of the queue loop: the rows it adds and the entries it pushes. */
  method Expand(src: nat, item: Item, ghost w: Walk, edges: Edges, p: Pattern, min: nat, max: nat)
    returns (found: seq<map<string, Value>>, pushed: seq<Item>)
    requires item == ItemOf(src, w) && item.depth < max
    ensures found == Kept(p, src, Extend(edges, src, w), min)
    ensures Represents(pushed, src, Pushed(edges, src, w, max))
  {
    found := [];
    pushed := [];
    var es := edges(item.node);
    ghost var seen: seq<Walk> := [];
    for j := 0 to |es|
      invariant seen == ExtendWith(src, w, es[..j]) && found == Kept(p, src, seen, min)
      invariant Represents(pushed, src, if item.depth + 1 < max then seen else [])
    {
      ghost var before := seen;
      found, pushed, seen := Visit(src, item, w, es[j], p, min, max, found, pushed, seen);
      SeenNext(src, w, es, j, before, seen);
    }
    assert es[..|es|] == es;
  }

  lemma SeenNext(src: nat, w: Walk, es: seq<(nat, nat)>, j: nat, seen: seq<Walk>, seen': seq<Walk>)
    requires j < |es| && seen == ExtendWith(src, w, es[..j])
    requires seen' == seen + if es[j].0 in Nodes(src, w) then [] else [w + [es[j]]]
    ensures seen' == ExtendWith(src, w, es[..j + 1])
  {
    assert es[..j + 1] == es[..j] + [es[j]];
    ExtendWithSnoc(src, w, es[..j], es[j]);
  }

  /** One edge: a row if the walk is long enough and its end passes, an entry if it can go on. */
  method Visit(src: nat, item: Item, ghost w: Walk, e: (nat, nat), p: Pattern, min: nat, max: nat,
               found: seq<map<string, Value>>, pushed: seq<Item>, ghost seen: seq<Walk>)
    returns (found': seq<map<string, Value>>, pushed': seq<Item>, ghost seen': seq<Walk>)
    requires item == ItemOf(src, w) && item.depth < max && found == Kept(p, src, seen, min)
    requires Represents(pushed, src, if item.depth + 1 < max then seen else [])
    ensures seen' == seen + if e.0 in Nodes(src, w) then [] else [w + [e]]
    ensures found' == Kept(p, src, seen', min)
    ensures Represents(pushed', src, if item.depth + 1 < max then seen' else [])
  {
    found', pushed', seen' := found, pushed, seen;
    if e.0 in item.path {
      return;
    }
    NextKept(p, src, w, seen, e, min);
    seen' := seen + [w + [e]];
    var depth := item.depth + 1;
    if depth >= min && depth <= max && Passes(p, e.0) {
      found' := found + [MakeRow(p, src, e.0)];
    }
    if depth < max {
      pushed' := pushed + [Item(e.0, depth, item.path + [e.0])];
    }
  }

  /** What one more walk adds to the rows. */
  lemma NextKept(p: Pattern, src: nat, w: Walk, seen: seq<Walk>, e: (nat, nat), min: nat)
    ensures ItemOf(src, w + [e]) == Item(e.0, |w| + 1, Nodes(src, w) + [e.0])
    ensures Kept(p, src, seen + [w + [e]], min)
         == Kept(p, src, seen, min) + if |w| + 1 >= min && Passes(p, e.0) then [MakeRow(p, src, e.0)] else []
  {
    var w': Walk := w + [e];
    KeptConcat(p, src, seen, [w'], min);
    KeptOne(p, src, w', min);
  }

  lemma KeptOne(p: Pattern, src: nat, w: Walk, min: nat)
    ensures Kept(p, src, [w], min)
         == if |w| >= min && Passes(p, Last(src, w)) then [MakeRow(p, src, Last(src, w))] else []
  {
    var ws: seq<Walk> := [w];
    assert ws[..|ws| - 1] == [] && ws[|ws| - 1] == w;
    assert Keep(src, [], min, Filter(p)) == [];
    assert Keep(src, ws, min, Filter(p)) == if |w| >= min && Passes(p, Last(src, w)) then [w] else [];
  }

  // ------------------------------------------------------------------ against the single-hop query

  /** `collect_single_hop_rows` without a WHERE clause and without relationship columns. */
  function SingleHop(p: Pattern, src: nat, es: seq<(nat, nat)>): seq<map<string, Value>> {
    if es == [] then []
    else (if Passes(p, es[0].0) then [MakeRow(p, src, es[0].0)] else []) + SingleHop(p, src, es[1..])
  }

  /** `*1..1` finds the one-step extensions that do not return to the source's own offset. */
  lemma OneHopIsExtend(p: Pattern, edges: Edges, src: nat)
    ensures RowsOf(p, src, MatchesFor(p, edges, src, 1, 1)) == Kept(p, src, ExtendWith(src, [], edges(src)), 1)
  {
    var level := LevelsOf(edges, src);
    assert Levels(level, 2, 1) == [];
    var first := ExtendWith(src, [], edges(src));
    var start: seq<Walk> := [[]];
    assert Level(edges, src, 0) == start;
    assert start[1..] == [] && ExtendAll(edges, src, []) == [];
    assert level(1) == ExtendAll(edges, src, start) == first + [];
    assert Levels(level, 1, 1) == first;
  }

  lemma KeptStep(p: Pattern, src: nat, es: seq<(nat, nat)>)
    requires es != []
    ensures Kept(p, src, ExtendWith(src, [], es), 1)
         == (if es[0].0 != src && Passes(p, es[0].0) then [MakeRow(p, src, es[0].0)] else [])
              + Kept(p, src, ExtendWith(src, [], es[1..]), 1)
  {
    var w: Walk := [es[0]];
    assert Nodes(src, []) == [src] && [] + [es[0]] == w;
    KeptConcat(p, src, if es[0].0 == src then [] else [w], ExtendWith(src, [], es[1..]), 1);
    KeptOne(p, src, w, 1);
  }

  /** The path form may list fewer rows than the single hop, never others in their place. */
  lemma {:induction false} FewerThanSingleHop(p: Pattern, src: nat, es: seq<(nat, nat)>)
    ensures |Kept(p, src, ExtendWith(src, [], es), 1)| <= |SingleHop(p, src, es)|
    ensures Kept(p, src, ExtendWith(src, [], es), 1) == SingleHop(p, src, es) <==> !(Passes(p, src) && Returns(src, es))
  {
    if es != [] {
      KeptStep(p, src, es);
      FewerThanSingleHop(p, src, es[1..]);
      SamePrefix(if es[0].0 != src && Passes(p, es[0].0) then [MakeRow(p, src, es[0].0)] else [],
                 Kept(p, src, ExtendWith(src, [], es[1..]), 1), SingleHop(p, src, es[1..]));
    }
  }

  /** Some edge leads back to the source's own offset. */
  predicate Returns(src: nat, es: seq<(nat, nat)>) { es != [] && (es[0].0 == src || Returns(src, es[1..])) }

  lemma SamePrefix<T>(a: seq<T>, b: seq<T>, c: seq<T>)
    ensures a + b == a + c <==> b == c
  {
    assert (a + b)[|a|..] == b && (a + c)[|a|..] == c;
  }

  /**
   `-[*1..1]->` answers as `-[]->` does exactly when no source has an edge to its own
   offset whose end passes the filter. The search compares offsets, so between two
   different tables it loses edges that are no loops at all.
   */
  lemma OneHopAgrees(p: Pattern, edges: Edges, src: nat)
    ensures RowsOf(p, src, MatchesFor(p, edges, src, 1, 1)) == SingleHop(p, src, edges(src))
       <==> !(Passes(p, src) && Returns(src, edges(src)))
  {
    OneHopIsExtend(p, edges, src);
    FewerThanSingleHop(p, src, edges(src));
  }

  /**
   Between two different tables the node at an offset is not the node at the same offset of
   the other one; still the search drops the edge between them, and the single hop does not.
   */
  lemma EqualOffsetsLoseEdge(p: Pattern, edges: Edges, src: nat, id: nat)
    requires edges(src) == [(src, id)] && p.dstFilter.None?
    ensures RowsOf(p, src, MatchesFor(p, edges, src, 1, 1)) == []
         && SingleHop(p, src, edges(src)) == [MakeRow(p, src, src)]
  {
    OneHopIsExtend(p, edges, src);
    KeptStep(p, src, edges(src));
    assert edges(src)[1..] == [] && ExtendWith(src, [], []) == [] && Keep(src, [], 1, Filter(p)) == [];
  }
}
