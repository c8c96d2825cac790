/** The eviction queue of the buffer pool: frame indices, oldest first, trimmed to a capacity. */
module Eviction {
  import opened Wrappers

  /** `retain(|idx| idx != x)` */
  function Without(q: seq<nat>, x: nat): (r: seq<nat>)
    ensures |r| <= |q| && x !in r
    ensures forall y :: y in r <==> y in q && y != x
  {
    if q == [] then [] else Without(q[..|q| - 1], x) + if q[|q| - 1] == x then [] else [q[|q| - 1]]
  }

  function LastN(q: seq<nat>, n: nat): seq<nat> { if |q| <= n then q else q[|q| - n..] }

  /** What a push leaves behind, before the trim to the capacity. */
  function Pushed(q: seq<nat>, x: nat): seq<nat> { Without(q, x) + [x] }

  /** Exactly the other entries stay, in their order. */
  lemma {:induction false} WithoutPicks(q: seq<nat>, x: nat) returns (at: seq<nat>)
    ensures Picks(q, Without(q, x), at)
    ensures forall k: nat :: k < |q| ==> (k in at <==> q[k] != x)
  {
    at := [];
    if q != [] {
      var front, last := q[..|q| - 1], q[|q| - 1];
      at := WithoutPicks(front, x);
      PicksSnoc(front, last, Without(front, x), at);
      assert front + [last] == q;
      if last != x { at := at + [|front|]; }
    }
  }

  /** All entries are indices into `rank`, in the order of their ranks. */
  ghost predicate Ranked(q: seq<nat>, rank: seq<nat>) {
    && (forall i :: 0 <= i < |q| ==> q[i] < |rank|)
    && (forall i, j :: 0 <= i < j < |q| ==> rank[q[i]] < rank[q[j]])
  }

  /** Dropping an element keeps the others in order. */
  lemma {:induction false} WithoutIsRanked(q: seq<nat>, x: nat, rank: seq<nat>)
    requires Ranked(q, rank)
    ensures Ranked(Without(q, x), rank)
  {
    if q != [] {
      var front, last := q[..|q| - 1], q[|q| - 1];
      assert last in q;
      forall i, j | 0 <= i < j < |front| ensures rank[front[i]] < rank[front[j]] {
        assert front[i] in q && front[j] in q;
      }
      WithoutIsRanked(front, x, rank);
      var r := Without(front, x);
      forall i | 0 <= i < |r| ensures rank[r[i]] < rank[last] {
        assert r[i] in front;
        var k :| 0 <= k < |front| && front[k] == r[i];
      }
    }
  }

  /** Pigeonhole: a duplicate-free queue of indices below `n` has at most `n` entries. */
  lemma {:induction false} QueueFits(q: seq<nat>, n: nat)
    requires NoDup(q) && forall i :: 0 <= i < |q| ==> q[i] < n
    ensures |q| <= n
  {
    if q != [] {
      assert q[0] < n;
      if i :| 0 <= i < |q| && q[i] == n - 1 {
        QueueFits(q[..i] + q[i + 1..], n - 1);
      } else {
        QueueFits(q, n - 1);
      }
    }
  }

  class LruEvictionQueue {
    var queue: seq<nat>
    const capacity: nat

    constructor (capacity: nat)
      ensures queue == [] && this.capacity == capacity
    {
      queue := [];
      this.capacity := capacity;
    }

    method Push(x: nat)
      modifies this
      ensures queue == LastN(Pushed(old(queue), x), capacity)
      ensures var all := Without(old(queue), x) + [x];
              queue == if |all| <= capacity then all else all[|all| - capacity..]
    {
      queue := Without(queue, x);
      queue := queue + [x];
      while |queue| > capacity
        invariant |queue| <= |Pushed(old(queue), x)|
        invariant queue == Pushed(old(queue), x)[|Pushed(old(queue), x)| - |queue|..]
        invariant |queue| >= capacity || queue == Pushed(old(queue), x)
      {
        queue := queue[1..];
      }
    }

    method Pop() returns (r: Option<nat>)
      modifies this
      ensures old(queue) == [] ==> r == None && queue == []
      ensures old(queue) != [] ==> r == Some(old(queue)[0]) && queue == old(queue)[1..]
    {
      if queue == [] {
        return None;
      }
      r := Some(queue[0]);
      queue := queue[1..];
    }

    method Remove(x: nat)
      modifies this
      ensures queue == Without(old(queue), x)
    {
      queue := Without(queue, x);
    }
  }
}
