/** Relationship tables in memory: compressed groups updated in place, proved to be the values of module CsrGroups. */
module RelTable {
  import opened Wrappers
  import opened Bytes
  import opened Values
  import opened CsrGroups

  class CsrNodeGroup {
    var groupId: nat
    var numNodes: nat
    var offsets: seq<nat>
    var neighbors: seq<nat>
    var relIds: seq<nat>

    function Contents(): Csr
      reads this
    {
      Csr(groupId, numNodes, offsets, neighbors, relIds)
    }

    constructor (groupId: nat)
      ensures Contents() == EmptyCsr(groupId)
    {
      this.groupId := groupId;
      numNodes := 0;
      offsets := [0];
      neighbors := [];
      relIds := [];
    }

    /** The group a hash map owns, taken out to be updated in place. */
    constructor Of(c: Csr)
      ensures Contents() == c
    {
      groupId := c.groupId;
      numNodes := c.numNodes;
      offsets := c.offsets;
      neighbors := c.neighbors;
      relIds := c.relIds;
    }

    /** Accepts a group exactly when all five invariants hold. */
    method Validate() returns (r: Result<()>)
      ensures r.Ok? <==> CsrOk(Contents())
      ensures r.Err? ==> r.error == StorageError
    {
      if offsets == [] || offsets[0] != 0 {
        return Err(StorageError);
      }
      if |offsets| != numNodes + 1 {
        return Err(StorageError);
      }
      for i := 0 to numNodes
        invariant forall k :: 0 <= k < i ==> offsets[k] <= offsets[k + 1]
      {
        if offsets[i] > offsets[i + 1] {
          return Err(StorageError);
        }
      }
      if offsets[|offsets| - 1] != |neighbors| {
        return Err(StorageError);
      }
      if |relIds| != |neighbors| {
        return Err(StorageError);
      }
      r := Ok(());
    }

    /** Appends a node with its edges, during construction. */
    method AddNodeEdges(newNeighbors: seq<nat>, newRelIds: seq<nat>)
      requires CsrOk(Contents()) && |newNeighbors| == |newRelIds|
      modifies this
      ensures CsrOk(Contents()) && groupId == old(groupId) && numNodes == old(numNodes) + 1
      ensures EdgesAt(Contents(), old(numNodes)) == Zip(newNeighbors, newRelIds)
      ensures forall j: nat :: j < old(numNodes) ==> EdgesAt(Contents(), j) == old(EdgesAt(Contents(), j))
    {
      ghost var c := Contents();
      neighbors := neighbors + newNeighbors;
      relIds := relIds + newRelIds;
      offsets := offsets + [|neighbors|];
      numNodes := numNodes + 1;
      forall j: nat | j < c.numNodes ensures EdgesAt(Contents(), j) == EdgesAt(c, j) {
        OffsetsMonotone(c, j, j + 1);
        OffsetsMonotone(c, j + 1, j + 1);
      }
    }

    /** Inserts at the end of the node's slice and moves every later offset up. */
    method InsertEdge(local: nat, neighbor: nat, relId: nat) returns (r: Result<()>)
      requires CsrOk(Contents())
      modifies this
      ensures local >= old(numNodes) ==> r == Err(StorageError) && unchanged(this)
      ensures local < old(numNodes) ==> r.Ok? && Contents() == WithEdge(old(Contents()), local, neighbor, relId)
    {
      if local >= numNodes {
        return Err(StorageError);
      }
      OffsetsMonotone(Contents(), local + 1, local + 1);
      var at := offsets[local + 1];
      neighbors := neighbors[..at] + [neighbor] + neighbors[at..];
      relIds := relIds[..at] + [relId] + relIds[at..];
      for i := local + 1 to |offsets|
        invariant |offsets| == |old(offsets)|
        invariant forall k :: 0 <= k < |offsets| ==> offsets[k] == old(offsets)[k] + if local < k < i then 1 else 0
        invariant numNodes == old(numNodes) && groupId == old(groupId)
        invariant neighbors == InsertAt(old(neighbors), at, neighbor) && relIds == InsertAt(old(relIds), at, relId)
      {
        offsets := offsets[i := offsets[i] + 1];
      }
      assert offsets == WithEdge(old(Contents()), local, neighbor, relId).offsets;
      r := Ok(());
    }

    /** Appends empty nodes until there are enough. */
    method Grow(minNodes: nat)
      modifies this
      ensures Contents() == Grown(old(Contents()), minNodes)
    {
      while numNodes < minNodes
        invariant groupId == old(groupId) && neighbors == old(neighbors) && relIds == old(relIds)
        invariant old(numNodes) <= numNodes && (numNodes <= minNodes || numNodes == old(numNodes))
        invariant |offsets| == |old(offsets)| + (numNodes - old(numNodes))
        invariant forall k ::
                    0 <= k < |offsets| ==> offsets[k] == if k < |old(offsets)| then old(offsets)[k] else |neighbors|
      {
        offsets := offsets + [|neighbors|];
        numNodes := numNodes + 1;
      }
      assert offsets == Grown(old(Contents()), minNodes).offsets;
    }
  }

  /** `ensure_forward_group` or `ensure_backward_group`, then `insert_edge` on the group's entry. */
  method Link(groups: map<nat, Csr>, node: nat, neighbor: nat, relId: nat) returns (groups': map<nat, Csr>)
    requires GroupsOk(groups)
    ensures groups' == Linked(groups, node, neighbor, relId)
  {
    var g := GroupOf(node);
    var group := if g in groups then groups[g] else EmptyCsr(g);
    LinkedIs(groups, node, neighbor, relId, group);
    var entry := new CsrNodeGroup.Of(group);
    entry.Grow(LocalOf(node) + 1);
    var r := entry.InsertEdge(LocalOf(node), neighbor, relId);
    groups' := groups[g := entry.Contents()];
  }

  class RelTable {
    const numProps: nat
    var forwardGroups: map<nat, Csr>
    var backwardGroups: map<nat, Csr>
    var nextRelId: nat
    var properties: map<nat, seq<Value>>
    ghost var log: seq<Edge>

    function Contents(): Rel
      reads this
    {
      Rel(numProps, forwardGroups, backwardGroups, nextRelId, properties)
    }

    ghost predicate Valid()
      reads this
    {
      Refines(Contents(), log)
    }

    constructor (numProps: nat)
      ensures Valid() && log == [] && this.numProps == numProps && Contents() == EmptyRel(numProps)
    {
      this.numProps := numProps;
      forwardGroups := map[];
      backwardGroups := map[];
      nextRelId := 0;
      properties := map[];
      log := [];
      new;
      EmptyRefines(numProps);
    }

    /** The table a hash map owns, taken out to be updated in place. */
    constructor Of(t: Rel)
      requires Refined(t)
      ensures Valid() && Contents() == t
    {
      ghost var edges :| Refines(t, edges);
      numProps := t.numProps;
      forwardGroups := t.forward;
      backwardGroups := t.backward;
      nextRelId := t.nextRelId;
      properties := t.properties;
      log := edges;
    }

    /** Collects the groups by their ids. */
    constructor FromSaved(numProps: nat, d: RelData)
      ensures Contents() == RelFromData(numProps, d)
    {
      var forward := CollectGroups(d.forward);
      var backward := CollectGroups(d.backward);
      this.numProps := numProps;
      forwardGroups := forward;
      backwardGroups := backward;
      nextRelId := d.nextRelId;
      properties := d.properties;
    }

    /** Appends one edge to the log, or refuses it because of the number of its properties. */
    method Insert(src: nat, dst: nat, props: seq<Value>) returns (r: Result<nat>)
      requires Valid()
      modifies this
      ensures Valid()
      ensures r.Ok? <==> |props| == numProps
      ensures r.Err? ==> r.error == ExecutionError && log == old(log)
      ensures r.Ok? ==> r.value == |old(log)| && log == old(log) + [Edge(src, dst, props)]
      ensures Contents() == InsertedRel(old(Contents()), src, dst, props)
    {
      if |props| != numProps {
        return Err(ExecutionError);
      }
      InsertRefines(Contents(), log, src, dst, props);
      var relId := nextRelId;
      nextRelId := nextRelId + 1;
      forwardGroups := Link(forwardGroups, src, dst, relId);
      backwardGroups := Link(backwardGroups, dst, src, relId);
      if props != [] {
        properties := properties[relId := props];
      }
      log := log + [Edge(src, dst, props)];
      r := Ok(relId);
    }

    /** All edges or none: the property counts are checked before the first insertion. */
    method InsertBatch(edges: seq<Edge>) returns (r: Result<nat>)
      requires Valid()
      modifies this
      ensures Valid()
      ensures r.Ok? <==> forall i :: 0 <= i < |edges| ==> |edges[i].props| == numProps
      ensures r.Ok? ==> r.value == |edges| && log == old(log) + edges
      ensures r.Err? ==> unchanged(this)
    {
      for i := 0 to |edges|
        invariant forall k :: 0 <= k < i ==> |edges[k].props| == numProps
      {
        if |edges[i].props| != numProps {
          return Err(ExecutionError);
        }
      }
      InsertEach(edges);
      r := Ok(|edges|);
    }

    method InsertEach(edges: seq<Edge>)
      requires Valid() && forall i :: 0 <= i < |edges| ==> |edges[i].props| == numProps
      modifies this
      ensures Valid() && log == old(log) + edges
    {
      for i := 0 to |edges|
        invariant Valid() && log == old(log) + edges[..i]
      {
        InsertOne(edges[i]);
        assert edges[..i + 1] == edges[..i] + [edges[i]];
      }
      assert edges[..|edges|] == edges;
    }

    method InsertOne(e: Edge)
      requires Valid() && |e.props| == numProps
      modifies this
      ensures Valid() && log == old(log) + [e]
    {
      var id := Insert(e.src, e.dst, e.props);
    }

    /** (target, id) of every logged edge that leaves the node, oldest first. */
    function GetForwardEdges(node: nat): seq<(nat, nat)>
      reads this
      requires Valid()
      ensures GetForwardEdges(node) == OutEdges(log, node)
    {
      EdgesIn(forwardGroups, node)
    }

    /** (source, id) of every logged edge that enters the node, oldest first. */
    function GetBackwardEdges(node: nat): seq<(nat, nat)>
      reads this
      requires Valid()
      ensures GetBackwardEdges(node) == InEdges(log, node)
    {
      EdgesIn(backwardGroups, node)
    }

    /** Lists every logged edge exactly once, whatever order the groups come in. */
    method Iter() returns (result: seq<(nat, nat, nat)>)
      requires Valid()
      ensures multiset(result) == multiset(Triples(log))
    {
      result := [];
      var groups := forwardGroups;
      var pending := forwardGroups.Keys;
      while pending != {}
        invariant pending <= groups.Keys && ListsEdges(result, groups, groups.Keys - pending)
        decreases |pending|
      {
        var g :| g in pending;
        var part := IterGroup(g, groups, log);
        AddGroup(result, part, groups, groups.Keys - pending, g);
        result := result + part;
        pending := pending - {g};
        assert groups.Keys - pending == groups.Keys - (pending + {g}) + {g};
      }
      assert groups.Keys - pending == groups.Keys;
      FullListing(Contents(), log, result);
    }

    /** Hands out the groups in the order the hash map happens to have. */
    method ToData() returns (d: RelData)
      requires Valid()
      ensures IsDataOf(d, Contents())
    {
      var forward := ListGroups(forwardGroups);
      var backward := ListGroups(backwardGroups);
      d := RelData(forward, backward, nextRelId, properties);
    }
  }

  method CollectGroups(order: seq<Csr>) returns (groups: map<nat, Csr>)
    ensures groups == Collect(order)
  {
    groups := map[];
    for i := 0 to |order|
      invariant groups == Collect(order[..i])
    {
      assert order[..i + 1][..i] == order[..i];
      groups := groups[order[i].groupId := order[i]];
    }
    assert order[..|order|] == order;
  }

  method ListGroups(groups: map<nat, Csr>) returns (order: seq<Csr>)
    requires GroupsOk(groups)
    ensures Lists(order, groups)
  {
    order := [];
    var pending := groups.Keys;
    while pending != {}
      invariant pending <= groups.Keys
      invariant forall c :: c in order ==> c.groupId in groups && groups[c.groupId] == c
      invariant forall g :: g in groups && g !in pending ==> groups[g] in order
      decreases |pending|
    {
      var g :| g in pending;
      order := order + [groups[g]];
      pending := pending - {g};
    }
  }

  /** The triples of one group: node by node, each with its slice. */
  method IterGroup(g: nat, groups: map<nat, Csr>, ghost log: seq<Edge>) returns (part: seq<(nat, nat, nat)>)
    requires GroupsOk(groups) && g in groups
    requires forall node: nat :: EdgesIn(groups, node) == OutEdges(log, node)
    ensures ListsEdges(part, groups, {g})
  {
    part := [];
    var base := g * NODE_GROUP_SIZE;
    var count := groups[g].numNodes;
    for local := 0 to count
      invariant NoDup(part)
      invariant forall e: (nat, nat, nat) ::
                  e in part <==> base <= e.0 < base + local && (e.1, e.2) in EdgesIn(groups, e.0)
    {
      var node := base + local;
      var edges := EdgesAt(groups[g], local);
      NodesOfGroup(g, node);
      OutEdgesIncrease(log, node);
      assert edges == EdgesIn(groups, node) == OutEdges(log, node);
      var triples := seq(|edges|, k requires 0 <= k < |edges| => (node, edges[k].0, edges[k].1));
      AddNode(part, triples, edges, node);
      part := part + triples;
    }
    forall e: (nat, nat, nat)
      ensures e in part
         <==> e.0 < NODE_GROUP_SIZE * U32_RANGE && GroupOf(e.0) in {g} && (e.1, e.2) in EdgesIn(groups, e.0)
    {
      NodesOfGroup(g, e.0);
    }
  }

  lemma AddNode(part: seq<(nat, nat, nat)>, triples: seq<(nat, nat, nat)>, edges: seq<(nat, nat)>, node: nat)
    requires NoDup(part) && forall e: (nat, nat, nat) :: e in part ==> e.0 < node
    requires |triples| == |edges| && forall k :: 0 <= k < |edges| ==> triples[k] == (node, edges[k].0, edges[k].1)
    requires forall i, j :: 0 <= i < j < |edges| ==> edges[i].1 < edges[j].1
    ensures NoDup(part + triples)
    ensures forall e: (nat, nat, nat) :: e in part + triples <==> e in part || (e.0 == node && (e.1, e.2) in edges)
  {
    forall e: (nat, nat, nat) | e.0 == node && (e.1, e.2) in edges ensures e in triples {
      var k :| 0 <= k < |edges| && edges[k] == (e.1, e.2);
      assert triples[k] == e;
    }
    forall i, j | 0 <= i < j < |part + triples| ensures (part + triples)[i] != (part + triples)[j] {
      if i < |part| <= j { assert part[i] in part; }
    }
  }

  lemma AddGroup(result: seq<(nat, nat, nat)>, part: seq<(nat, nat, nat)>, groups: map<nat, Csr>, done: set<nat>,
                 g: nat)
    requires GroupsOk(groups) && g !in done
    requires ListsEdges(result, groups, done) && ListsEdges(part, groups, {g})
    ensures ListsEdges(result + part, groups, done + {g})
  {
    forall i, j | 0 <= i < j < |result + part| ensures (result + part)[i] != (result + part)[j] {
      if i < |result| <= j {
        assert result[i] in result && part[j - |result|] in part;
      }
    }
  }
}
