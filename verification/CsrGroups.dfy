/**
 Compressed adjacency as values: one group of nodes, the groups of a whole
 index, and a relationship table with a forward and a backward index. The main
 theorem is that the table is nothing but a log of edges.
 */
module CsrGroups {
  import opened Wrappers
  import opened Bytes
  import opened Values

  const NODE_GROUP_SIZE: nat := 131072

  // ------------------------------------------------------------------ one group

  datatype Csr = Csr(groupId: nat, numNodes: nat, offsets: seq<nat>, neighbors: seq<nat>, relIds: seq<nat>)

  /** The five invariants of `validate`. */
  ghost predicate CsrOk(c: Csr) {
    && |c.offsets| > 0 && c.offsets[0] == 0
    && |c.offsets| == c.numNodes + 1
    && (forall i :: 0 <= i < c.numNodes ==> c.offsets[i] <= c.offsets[i + 1])
    && c.offsets[c.numNodes] == |c.neighbors|
    && |c.relIds| == |c.neighbors|
  }

  lemma {:induction false} OffsetsMonotone(c: Csr, i: nat, j: nat)
    requires CsrOk(c) && i <= j <= c.numNodes
    ensures c.offsets[i] <= c.offsets[j] <= |c.neighbors|
    decreases c.numNodes - i
  {
    if i < j {
      OffsetsMonotone(c, i + 1, j);
    } else if j < c.numNodes {
      OffsetsMonotone(c, j + 1, c.numNodes);
    }
  }

  function Zip(a: seq<nat>, b: seq<nat>): (r: seq<(nat, nat)>)
    requires |a| == |b|
    ensures |r| == |a|
  {
    seq(|a|, k requires 0 <= k < |a| => (a[k], b[k]))
  }

  /** The edges of a node: its slices of `neighbors` and `relIds` side by side. */
  function EdgesAt(c: Csr, i: nat): seq<(nat, nat)>
    requires CsrOk(c)
  {
    if i < c.numNodes then
      OffsetsMonotone(c, i, i + 1);
      Zip(c.neighbors[c.offsets[i]..c.offsets[i + 1]], c.relIds[c.offsets[i]..c.offsets[i + 1]])
    else []
  }

  function InsertAt(s: seq<nat>, at: nat, x: nat): seq<nat>
    requires at <= |s|
  {
    s[..at] + [x] + s[at..]
  }

  /** One more edge at the end of a node's slice; all later slices move up by one. */
  function WithEdge(c: Csr, i: nat, neighbor: nat, relId: nat): Csr
    requires CsrOk(c) && i < c.numNodes
  {
    OffsetsMonotone(c, i + 1, i + 1);
    var at := c.offsets[i + 1];
    c.(offsets := seq(|c.offsets|, k requires 0 <= k < |c.offsets| => if k > i then c.offsets[k] + 1 else c.offsets[k]),
       neighbors := InsertAt(c.neighbors, at, neighbor),
       relIds := InsertAt(c.relIds, at, relId))
  }

  lemma WithEdgeOk(c: Csr, i: nat, neighbor: nat, relId: nat)
    requires CsrOk(c) && i < c.numNodes
    ensures CsrOk(WithEdge(c, i, neighbor, relId))
  {
    OffsetsMonotone(c, i + 1, i + 1);
  }

  lemma SliceOfInsert(s: seq<nat>, at: nat, x: nat, lo: nat, hi: nat)
    requires lo <= hi <= |s| && at <= |s|
    ensures hi <= at ==> InsertAt(s, at, x)[lo..hi] == s[lo..hi]
    ensures at <= lo ==> InsertAt(s, at, x)[lo + 1..hi + 1] == s[lo..hi]
    ensures hi == at ==> InsertAt(s, at, x)[lo..hi + 1] == s[lo..hi] + [x]
  {}

  /** Slice `j` after an insertion at the end of slice `i`. */
  lemma InsertedSlice(s: seq<nat>, at: nat, x: nat, lo: nat, hi: nat, i: nat, j: nat)
    requires lo <= hi <= |s| && at <= |s| && (j < i ==> hi <= at) && (j > i ==> at <= lo) && (j == i ==> hi == at)
    ensures |InsertAt(s, at, x)| == |s| + 1
    ensures InsertAt(s, at, x)[(if j > i then lo + 1 else lo)..if j >= i then hi + 1 else hi]
         == s[lo..hi] + if j == i then [x] else []
  {
    SliceOfInsert(s, at, x, lo, hi);
  }

  /** Both slices of a node keep what they hold; those of node `i` get one more entry. */
  lemma WithEdgeSlices(c: Csr, i: nat, neighbor: nat, relId: nat, j: nat)
    requires CsrOk(c) && i < c.numNodes && j < c.numNodes
    ensures var c' := WithEdge(c, i, neighbor, relId);
            && c.offsets[j] <= c.offsets[j + 1] <= |c.neighbors|
            && c'.offsets[j] <= c'.offsets[j + 1] <= |c'.neighbors| == |c'.relIds|
            && c'.neighbors[c'.offsets[j]..c'.offsets[j + 1]]
               == c.neighbors[c.offsets[j]..c.offsets[j + 1]] + (if j == i then [neighbor] else [])
            && c'.relIds[c'.offsets[j]..c'.offsets[j + 1]]
               == c.relIds[c.offsets[j]..c.offsets[j + 1]] + (if j == i then [relId] else [])
  {
    OffsetsMonotone(c, j, j + 1);
    OffsetsMonotone(c, j + 1, j + 1);
    OffsetsMonotone(c, i + 1, i + 1);
    if j < i { OffsetsMonotone(c, j + 1, i + 1); } else if j > i { OffsetsMonotone(c, i + 1, j); }
    InsertedSlice(c.neighbors, c.offsets[i + 1], neighbor, c.offsets[j], c.offsets[j + 1], i, j);
    InsertedSlice(c.relIds, c.offsets[i + 1], relId, c.offsets[j], c.offsets[j + 1], i, j);
  }

  /** The insertion appends to exactly one node's edges. */
  lemma WithEdgeEdges(c: Csr, i: nat, neighbor: nat, relId: nat, j: nat)
    requires CsrOk(c) && i < c.numNodes
    ensures CsrOk(WithEdge(c, i, neighbor, relId))
    ensures EdgesAt(WithEdge(c, i, neighbor, relId), j) == EdgesAt(c, j) + if j == i then [(neighbor, relId)] else []
  {
    assert Zip([neighbor], [relId]) == [(neighbor, relId)] && Zip([], []) == [];
    WithEdgeOk(c, i, neighbor, relId);
    if j < c.numNodes {
      var c' := WithEdge(c, i, neighbor, relId);
      WithEdgeSlices(c, i, neighbor, relId, j);
      ZipAppend(c.neighbors[c.offsets[j]..c.offsets[j + 1]], c.relIds[c.offsets[j]..c.offsets[j + 1]],
                if j == i then [neighbor] else [], if j == i then [relId] else []);
    }
  }

  lemma ZipAppend(a: seq<nat>, b: seq<nat>, a': seq<nat>, b': seq<nat>)
    requires |a| == |b| && |a'| == |b'|
    ensures Zip(a + a', b + b') == Zip(a, b) + Zip(a', b')
  {}

  /** Empty nodes appended until there are at least `minNodes`. */
  function Grown(c: Csr, minNodes: nat): Csr {
    if c.numNodes >= minNodes then c
    else c.(offsets := c.offsets + seq(minNodes - c.numNodes, k => |c.neighbors|), numNodes := minNodes)
  }

  lemma GrownEdges(c: Csr, minNodes: nat, j: nat)
    requires CsrOk(c)
    ensures CsrOk(Grown(c, minNodes)) && EdgesAt(Grown(c, minNodes), j) == EdgesAt(c, j)
  {
    var g := Grown(c, minNodes);
    if j < c.numNodes {
      OffsetsMonotone(c, j, j + 1);
    }
  }

  function EmptyCsr(groupId: nat): Csr { Csr(groupId, 0, [0], [], []) }

  // ------------------------------------------------------------------ all groups of an index

  function GroupOf(node: nat): nat { node / NODE_GROUP_SIZE % U32_RANGE }

  function LocalOf(node: nat): nat { node % NODE_GROUP_SIZE }

  /** Node ids above 2^49 wrap around, because a group id is cut to 32 bits. */
  function Slot(node: nat): nat { node % (NODE_GROUP_SIZE * U32_RANGE) }

  lemma SlotIsGroupAndLocal(m: nat, n: nat)
    ensures Slot(m) == GroupOf(m) * NODE_GROUP_SIZE + LocalOf(m)
    ensures Slot(m) == Slot(n) <==> GroupOf(m) == GroupOf(n) && LocalOf(m) == LocalOf(n)
  {
    assert forall k: nat ::
             k % (NODE_GROUP_SIZE * U32_RANGE)
               == k / NODE_GROUP_SIZE % U32_RANGE * NODE_GROUP_SIZE + k % NODE_GROUP_SIZE by {
      forall k: nat
        ensures k % (NODE_GROUP_SIZE * U32_RANGE)
             == k / NODE_GROUP_SIZE % U32_RANGE * NODE_GROUP_SIZE + k % NODE_GROUP_SIZE
      {
        var q := k / NODE_GROUP_SIZE;
        assert k == NODE_GROUP_SIZE * q + k % NODE_GROUP_SIZE;
        assert q == U32_RANGE * (q / U32_RANGE) + q % U32_RANGE;
      }
    }
  }

  /** The ids of a group are a contiguous interval. */
  lemma NodesOfGroup(g: nat, n: nat)
    requires g < U32_RANGE
    ensures n < NODE_GROUP_SIZE * U32_RANGE && GroupOf(n) == g <==> g * NODE_GROUP_SIZE <= n < (g + 1) * NODE_GROUP_SIZE
    ensures g * NODE_GROUP_SIZE <= n < (g + 1) * NODE_GROUP_SIZE ==> LocalOf(n) == n - g * NODE_GROUP_SIZE
  {
    SlotIsGroupAndLocal(n, n);
  }

  ghost predicate GroupsOk(groups: map<nat, Csr>) {
    forall g :: g in groups ==>
             CsrOk(groups[g]) && groups[g].groupId == g && 0 < groups[g].numNodes <= NODE_GROUP_SIZE && g < U32_RANGE
  }

  function EdgesIn(groups: map<nat, Csr>, node: nat): seq<(nat, nat)>
    requires GroupsOk(groups)
  {
    if GroupOf(node) in groups then EdgesAt(groups[GroupOf(node)], LocalOf(node)) else []
  }

  /** `ensure_*_group` followed by `insert_edge`. */
  function Ensured(groups: map<nat, Csr>, g: nat, minNodes: nat): map<nat, Csr> {
    groups[g := Grown(if g in groups then groups[g] else EmptyCsr(g), minNodes)]
  }

  function Linked(groups: map<nat, Csr>, node: nat, neighbor: nat, relId: nat): map<nat, Csr>
    requires GroupsOk(groups)
  {
    var ensured := Ensured(groups, GroupOf(node), LocalOf(node) + 1);
    EnsuredOk(groups, node);
    ensured[GroupOf(node) := WithEdge(ensured[GroupOf(node)], LocalOf(node), neighbor, relId)]
  }

  lemma EnsuredOk(groups: map<nat, Csr>, node: nat)
    requires GroupsOk(groups)
    ensures var ensured := Ensured(groups, GroupOf(node), LocalOf(node) + 1);
            GroupsOk(ensured) && LocalOf(node) < ensured[GroupOf(node)].numNodes
  {
    var g := GroupOf(node);
    GrownEdges(if g in groups then groups[g] else EmptyCsr(g), LocalOf(node) + 1, 0);
  }

  lemma LinkedIs(groups: map<nat, Csr>, node: nat, neighbor: nat, relId: nat, group: Csr)
    requires GroupsOk(groups)
          && group == if GroupOf(node) in groups then groups[GroupOf(node)] else EmptyCsr(GroupOf(node))
    ensures var grown := Grown(group, LocalOf(node) + 1);
            && CsrOk(grown) && LocalOf(node) < grown.numNodes
            && Linked(groups, node, neighbor, relId)
                 == groups[GroupOf(node) := WithEdge(grown, LocalOf(node), neighbor, relId)]
  {
    EnsuredOk(groups, node);
    assert CsrOk(Ensured(groups, GroupOf(node), LocalOf(node) + 1)[GroupOf(node)]);
  }

  lemma LinkedOk(groups: map<nat, Csr>, node: nat, neighbor: nat, relId: nat)
    requires GroupsOk(groups)
    ensures GroupsOk(Linked(groups, node, neighbor, relId))
  {
    EnsuredOk(groups, node);
    WithEdgeOk(Ensured(groups, GroupOf(node), LocalOf(node) + 1)[GroupOf(node)], LocalOf(node), neighbor, relId);
  }

  lemma EnsuredEdges(groups: map<nat, Csr>, node: nat, m: nat)
    requires GroupsOk(groups)
    ensures var ensured := Ensured(groups, GroupOf(node), LocalOf(node) + 1);
            GroupsOk(ensured) && EdgesIn(ensured, m) == EdgesIn(groups, m)
  {
    EnsuredOk(groups, node);
    var g := GroupOf(node);
    GrownEdges(if g in groups then groups[g] else EmptyCsr(g), LocalOf(node) + 1, LocalOf(m));
  }

  /** Linking appends one edge to the nodes that share the slot and to no other. */
  lemma LinkedEdges(groups: map<nat, Csr>, node: nat, neighbor: nat, relId: nat, m: nat)
    requires GroupsOk(groups)
    ensures GroupsOk(Linked(groups, node, neighbor, relId))
    ensures EdgesIn(Linked(groups, node, neighbor, relId), m)
         == EdgesIn(groups, m) + if Slot(m) == Slot(node) then [(neighbor, relId)] else []
  {
    LinkedOk(groups, node, neighbor, relId);
    SlotIsGroupAndLocal(m, node);
    EnsuredOk(groups, node);
    EnsuredEdges(groups, node, m);
    var ensured := Ensured(groups, GroupOf(node), LocalOf(node) + 1);
    WithEdgeEdges(ensured[GroupOf(node)], LocalOf(node), neighbor, relId, LocalOf(m));
  }

  // ------------------------------------------------------------------ the table and its log

  datatype Rel = Rel(numProps: nat, forward: map<nat, Csr>, backward: map<nat, Csr>, nextRelId: nat,
                     properties: map<nat, seq<Value>>)

  function EmptyRel(numProps: nat): Rel { Rel(numProps, map[], map[], 0, map[]) }

  ghost predicate RelOk(t: Rel) { GroupsOk(t.forward) && GroupsOk(t.backward) }

  /** The table after `insert`; only a wrong number of properties is refused. */
  function InsertedRel(t: Rel, src: nat, dst: nat, props: seq<Value>): Rel
    requires RelOk(t)
  {
    if |props| != t.numProps then t
    else Rel(t.numProps, Linked(t.forward, src, dst, t.nextRelId), Linked(t.backward, dst, src, t.nextRelId),
             t.nextRelId + 1,
             if props == [] then t.properties else t.properties[t.nextRelId := props])
  }

  datatype Edge = Edge(src: nat, dst: nat, props: seq<Value>)

  /** The logged edges that leave a node, oldest first; an edge's id is its place in the log. */
  function OutEdges(log: seq<Edge>, node: nat): seq<(nat, nat)> {
    if log == [] then []
    else
      var last := |log| - 1;
      OutEdges(log[..last], node) + if Slot(log[last].src) == Slot(node) then [(log[last].dst, last)] else []
  }

  function InEdges(log: seq<Edge>, node: nat): seq<(nat, nat)> {
    if log == [] then []
    else
      var last := |log| - 1;
      InEdges(log[..last], node) + if Slot(log[last].dst) == Slot(node) then [(log[last].src, last)] else []
  }

  /** The table answers every query as the log does. */
  ghost predicate Refines(t: Rel, log: seq<Edge>) {
    && RelOk(t) && t.nextRelId == |log|
    && (forall node: nat :: EdgesIn(t.forward, node) == OutEdges(log, node))
    && (forall node: nat :: EdgesIn(t.backward, node) == InEdges(log, node))
    && (forall i: nat :: i < |log| ==> |log[i].props| == t.numProps)
    && (forall i: nat :: i in t.properties <==> i < |log| && log[i].props != [])
    && (forall i: nat :: i in t.properties && i < |log| ==> t.properties[i] == log[i].props)
  }

  /** The table is the table of some log. */
  ghost predicate Refined(t: Rel) { exists log :: Refines(t, log) }

  lemma EmptyRefines(numProps: nat)
    ensures Refines(EmptyRel(numProps), [])
  {}

  /** Every insertion with the right number of properties is one more line of the log. */
  lemma InsertRefines(t: Rel, log: seq<Edge>, src: nat, dst: nat, props: seq<Value>)
    requires Refines(t, log) && |props| == t.numProps
    ensures Refines(InsertedRel(t, src, dst, props), log + [Edge(src, dst, props)])
  {
    var t', log' := InsertedRel(t, src, dst, props), log + [Edge(src, dst, props)];
    assert log'[..|log|] == log;
    LinkedOk(t.forward, src, dst, t.nextRelId);
    LinkedOk(t.backward, dst, src, t.nextRelId);
    forall node: nat ensures EdgesIn(t'.forward, node) == OutEdges(log', node) {
      LinkedEdges(t.forward, src, dst, t.nextRelId, node);
    }
    forall node: nat ensures EdgesIn(t'.backward, node) == InEdges(log', node) {
      LinkedEdges(t.backward, dst, src, t.nextRelId, node);
    }
    PropertiesKept(t, log, props, Edge(src, dst, props));
  }

  /** The node lists one more edge, as its last; no node in another slot does. */
  ghost predicate ListsOneMore(groups: map<nat, Csr>, groups': map<nat, Csr>, node: nat, neighbor: nat, relId: nat) {
    && GroupsOk(groups) && GroupsOk(groups')
    && forall m: nat ::
         EdgesIn(groups', m) == EdgesIn(groups, m) + if Slot(m) == Slot(node) then [(neighbor, relId)] else []
  }

  /**
   The source lists one more edge forward and the target one more backward, under the next id;
   the properties are kept under it, and no other edge's change.
   */
  ghost predicate GainsEdge(t: Rel, t': Rel, src: nat, dst: nat, props: seq<Value>) {
    && t'.numProps == t.numProps && t'.nextRelId == t.nextRelId + 1
    && ListsOneMore(t.forward, t'.forward, src, dst, t.nextRelId)
    && ListsOneMore(t.backward, t'.backward, dst, src, t.nextRelId)
    && t'.properties == if props == [] then t.properties else t.properties[t.nextRelId := props]
  }

  lemma LinkedListsOneMore(groups: map<nat, Csr>, node: nat, neighbor: nat, relId: nat)
    requires GroupsOk(groups)
    ensures ListsOneMore(groups, Linked(groups, node, neighbor, relId), node, neighbor, relId)
  {
    LinkedOk(groups, node, neighbor, relId);
    forall m: nat
      ensures EdgesIn(Linked(groups, node, neighbor, relId), m)
           == EdgesIn(groups, m) + if Slot(m) == Slot(node) then [(neighbor, relId)] else []
    {
      LinkedEdges(groups, node, neighbor, relId, m);
    }
  }

  lemma InsertedGainsEdge(t: Rel, src: nat, dst: nat, props: seq<Value>)
    requires RelOk(t) && |props| == t.numProps
    ensures GainsEdge(t, InsertedRel(t, src, dst, props), src, dst, props)
  {
    LinkedListsOneMore(t.forward, src, dst, t.nextRelId);
    LinkedListsOneMore(t.backward, dst, src, t.nextRelId);
  }

  lemma InsertedIsRefined(t: Rel, src: nat, dst: nat, props: seq<Value>)
    requires Refined(t)
    ensures RelOk(t) && Refined(InsertedRel(t, src, dst, props))
         && InsertedRel(t, src, dst, props).numProps == t.numProps
  {
    var log :| Refines(t, log);
    if |props| == t.numProps {
      InsertRefines(t, log, src, dst, props);
      HasLog(InsertedRel(t, src, dst, props), log + [Edge(src, dst, props)]);
    } else {
      HasLog(t, log);
    }
  }

  lemma HasLog(t: Rel, log: seq<Edge>)
    requires Refines(t, log)
    ensures RelOk(t) && Refined(t)
  {}

  lemma PropertiesKept(t: Rel, log: seq<Edge>, props: seq<Value>, e: Edge)
    requires t.nextRelId == |log| && |props| == t.numProps && e.props == props
    requires forall i: nat :: i < |log| ==> |log[i].props| == t.numProps
    requires forall i: nat :: i in t.properties <==> i < |log| && log[i].props != []
    requires forall i: nat :: i in t.properties && i < |log| ==> t.properties[i] == log[i].props
    ensures var p, log' := if props == [] then t.properties else t.properties[|log| := props], log + [e];
            && (forall i: nat :: i < |log'| ==> |log'[i].props| == t.numProps)
            && (forall i: nat :: i in p <==> i < |log'| && log'[i].props != [])
            && (forall i: nat :: i in p && i < |log'| ==> p[i] == log'[i].props)
  {}

  /** For ids below 2^49 slots are the ids themselves, so nothing is mixed up. */
  lemma SmallIdsAreExact(m: nat, n: nat)
    requires m < NODE_GROUP_SIZE * U32_RANGE && n < NODE_GROUP_SIZE * U32_RANGE
    ensures Slot(m) == Slot(n) <==> m == n
  {}

  // ------------------------------------------------------------------ runs of insertions

  function InsertAll(t: Rel, edges: seq<Edge>): (t': Rel)
    requires RelOk(t)
    ensures RelOk(t')
  {
    if edges == [] then t
    else
      var before := InsertAll(t, edges[..|edges| - 1]);
      var e := edges[|edges| - 1];
      LinkedEdges(before.forward, e.src, e.dst, before.nextRelId, 0);
      LinkedEdges(before.backward, e.dst, e.src, before.nextRelId, 0);
      InsertedRel(before, e.src, e.dst, e.props)
  }

  /** The insertions that are not refused. */
  function Accepted(numProps: nat, edges: seq<Edge>): seq<Edge> {
    if edges == [] then []
    else Accepted(numProps, edges[..|edges| - 1])
           + if |edges[|edges| - 1].props| == numProps then [edges[|edges| - 1]] else []
  }

  /** After any sequence of insertions the table is the log of those that were accepted. */
  lemma {:induction false} RunRefines(numProps: nat, edges: seq<Edge>)
    ensures Refines(InsertAll(EmptyRel(numProps), edges), Accepted(numProps, edges))
    ensures InsertAll(EmptyRel(numProps), edges).numProps == numProps
  {
    if edges == [] {
      EmptyRefines(numProps);
    } else {
      var front, e := edges[..|edges| - 1], edges[|edges| - 1];
      RunRefines(numProps, front);
      var t, log := InsertAll(EmptyRel(numProps), front), Accepted(numProps, front);
      if |e.props| == numProps {
        InsertRefines(t, log, e.src, e.dst, e.props);
        assert Edge(e.src, e.dst, e.props) == e;
      } else {
        assert Accepted(numProps, edges) == log;
      }
    }
  }

  /** The two directions agree: an edge is listed at its source exactly when it is listed at its target. */
  lemma DirectionsAgree(t: Rel, log: seq<Edge>, i: nat)
    requires Refines(t, log) && i < |log|
    ensures (log[i].dst, i) in EdgesIn(t.forward, log[i].src)
    ensures (log[i].src, i) in EdgesIn(t.backward, log[i].dst)
  {
    LoggedOut(log, i, log[i].src);
    LoggedIn(log, i, log[i].dst);
  }

  /** An edge appears among a node's edges exactly when it is logged there. */
  lemma {:induction false} LoggedOut(log: seq<Edge>, id: nat, node: nat)
    ensures forall dst: nat :: (dst, id) in OutEdges(log, node) <==>
              id < |log| && log[id].dst == dst && Slot(log[id].src) == Slot(node)
  {
    if log != [] {
      LoggedOut(log[..|log| - 1], id, node);
    }
  }

  lemma {:induction false} LoggedIn(log: seq<Edge>, id: nat, node: nat)
    ensures forall src: nat :: (src, id) in InEdges(log, node) <==>
              id < |log| && log[id].src == src && Slot(log[id].dst) == Slot(node)
  {
    if log != [] {
      LoggedIn(log[..|log| - 1], id, node);
    }
  }

  // ------------------------------------------------------------------ listing all edges

  /** All logged edges as (source, target, id), in log order; the source is what the table remembers of it. */
  function Triples(log: seq<Edge>): (r: seq<(nat, nat, nat)>)
    ensures |r| == |log|
  {
    seq(|log|, i requires 0 <= i < |log| => (Slot(log[i].src), log[i].dst, i))
  }

  lemma {:induction false} NoDupCount<T(!new)>(s: seq<T>, x: T)
    requires NoDup(s)
    ensures multiset(s)[x] == if x in s then 1 else 0
  {
    if s != [] {
      var front, last := s[..|s| - 1], s[|s| - 1];
      assert s == front + [last];
      NoDupCount(front, x);
    }
  }

  lemma SameElements<T(!new)>(a: seq<T>, b: seq<T>)
    requires NoDup(a) && NoDup(b) && forall x :: x in a <==> x in b
    ensures multiset(a) == multiset(b)
  {
    forall x ensures multiset(a)[x] == multiset(b)[x] {
      NoDupCount(a, x);
      NoDupCount(b, x);
    }
  }

  lemma {:induction false} OutEdgesIncrease(log: seq<Edge>, node: nat)
    ensures forall i, j :: 0 <= i < j < |OutEdges(log, node)| ==> OutEdges(log, node)[i].1 < OutEdges(log, node)[j].1
    ensures forall i :: 0 <= i < |OutEdges(log, node)| ==> OutEdges(log, node)[i].1 < |log|
  {
    if log != [] {
      OutEdgesIncrease(log[..|log| - 1], node);
    }
  }

  /** A listing of the edges of these groups: no repeats, and an edge is in it exactly if its source's group is. */
  ghost predicate ListsEdges(result: seq<(nat, nat, nat)>, groups: map<nat, Csr>, done: set<nat>)
    requires GroupsOk(groups)
  {
    && NoDup(result)
    && forall e: (nat, nat, nat) :: e in result <==>
         e.0 < NODE_GROUP_SIZE * U32_RANGE && GroupOf(e.0) in done && (e.1, e.2) in EdgesIn(groups, e.0)
  }

  /** Listing every group lists every logged edge once. */
  lemma FullListing(t: Rel, log: seq<Edge>, result: seq<(nat, nat, nat)>)
    requires Refines(t, log) && ListsEdges(result, t.forward, t.forward.Keys)
    ensures multiset(result) == multiset(Triples(log))
  {
    forall e: (nat, nat, nat) ensures e in result <==> e in Triples(log) {
      InTriples(log, e);
      ListedIsLogged(t, log, e);
    }
    SameElements(result, Triples(log));
  }

  lemma InTriples(log: seq<Edge>, e: (nat, nat, nat))
    ensures e in Triples(log) <==> e.2 < |log| && e.0 == Slot(log[e.2].src) && e.1 == log[e.2].dst
  {
    if e.2 < |log| && e.0 == Slot(log[e.2].src) && e.1 == log[e.2].dst {
      assert Triples(log)[e.2] == e;
    }
  }

  lemma ListedIsLogged(t: Rel, log: seq<Edge>, e: (nat, nat, nat))
    requires Refines(t, log)
    ensures (e.0 < NODE_GROUP_SIZE * U32_RANGE && GroupOf(e.0) in t.forward && (e.1, e.2) in EdgesIn(t.forward, e.0))
       <==> (e.2 < |log| && e.0 == Slot(log[e.2].src) && e.1 == log[e.2].dst)
  {
    LoggedOut(log, e.2, e.0);
    assert EdgesIn(t.forward, e.0) == OutEdges(log, e.0);
    assert Slot(e.0) == e.0 <==> e.0 < NODE_GROUP_SIZE * U32_RANGE;
    if e.2 < |log| && e.0 == Slot(log[e.2].src) && e.1 == log[e.2].dst {
      assert Slot(e.0) == e.0;
      assert (e.1, e.2) in EdgesIn(t.forward, e.0);
    }
  }

  // ------------------------------------------------------------------ saving and loading

  datatype RelData = RelData(forward: seq<Csr>, backward: seq<Csr>, nextRelId: nat, properties: map<nat, seq<Value>>)

  /** A listing of the groups in whatever order the hash map has. */
  ghost predicate Lists(order: seq<Csr>, groups: map<nat, Csr>) {
    && (forall c :: c in order ==> c.groupId in groups && groups[c.groupId] == c)
    && (forall g :: g in groups ==> groups[g] in order)
  }

  ghost predicate IsDataOf(d: RelData, t: Rel) {
    Lists(d.forward, t.forward) && Lists(d.backward, t.backward) && d.nextRelId == t.nextRelId
      && d.properties == t.properties
  }

  /** `collect` into a map by group id. */
  function Collect(order: seq<Csr>): map<nat, Csr> {
    if order == [] then map[]
    else Collect(order[..|order| - 1])[order[|order| - 1].groupId := order[|order| - 1]]
  }

  function RelFromData(numProps: nat, d: RelData): Rel {
    Rel(numProps, Collect(d.forward), Collect(d.backward), d.nextRelId, d.properties)
  }

  lemma {:induction false} CollectPart(order: seq<Csr>, groups: map<nat, Csr>)
    requires GroupsOk(groups) && forall c :: c in order ==> c.groupId in groups && groups[c.groupId] == c
    ensures forall g :: g in Collect(order) ==> g in groups && Collect(order)[g] == groups[g]
    ensures forall c :: c in order ==> c.groupId in Collect(order)
  {
    if order != [] {
      CollectPart(order[..|order| - 1], groups);
    }
  }

  /** Saving in any group order and loading gives back the same table. */
  lemma FromDataRestores(t: Rel, d: RelData)
    requires RelOk(t) && IsDataOf(d, t)
    ensures RelFromData(t.numProps, d) == t
  {
    CollectPart(d.forward, t.forward);
    CollectPart(d.backward, t.backward);
    assert Collect(d.forward) == t.forward;
    assert Collect(d.backward) == t.backward;
  }
}
