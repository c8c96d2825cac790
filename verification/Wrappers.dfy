/** Option and result types, and facts about sequences and maps that several modules use. */
module Wrappers {

  datatype Option<+T> = None | Some(value: T)

  /** The error kinds of src/error.rs that the modelled code can return. */
  datatype Error =
    | StorageError
    | MultiPageDataCorrupted
    | PageRangeOverlap
    | ChecksumError
    | SchemaError
    | TypeError
    | ConstraintViolation
    | ExecutionError
    | RelTableLoadError
    | RelTableCorrupted
    | ImportError
    | QuotedNewlineInParallel
    | PlanError

  datatype Result<+T> = Ok(value: T) | Err(error: Error)

  ghost predicate NoDup<T(!new)>(s: seq<T>) { forall i, j :: 0 <= i < j < |s| ==> s[i] != s[j] }

  /** Places in order, without repeats. */
  ghost predicate Increasing(at: seq<nat>) { forall i, j :: 0 <= i < j < |at| ==> at[i] < at[j] }

  /** The elements at these places of a sequence, in their order. */
  ghost predicate Picks<T>(s: seq<T>, picked: seq<T>, at: seq<nat>) {
    |at| == |picked| && Increasing(at) && forall i :: 0 <= i < |at| ==> at[i] < |s| && picked[i] == s[at[i]]
  }

  lemma PicksSnoc<T>(s: seq<T>, x: T, picked: seq<T>, at: seq<nat>)
    requires Picks(s, picked, at)
    ensures Picks(s + [x], picked, at) && Picks(s + [x], picked + [x], at + [|s|])
    ensures forall k: nat :: k in at + [|s|] <==> k in at || k == |s|
    ensures |s| !in at
  {
    assert (at + [|s|])[|at|] == |s|;
  }

  lemma Assoc<T>(a: seq<T>, b: seq<T>, c: seq<T>)
    ensures (a + b) + c == a + (b + c)
  {}

  lemma SameMap<K, V>(a: map<K, V>, b: map<K, V>)
    requires a.Keys == b.Keys
    ensures a == b <==> forall k :: k in a.Keys ==> a[k] == b[k]
  {}
}
