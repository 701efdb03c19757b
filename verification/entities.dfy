/**
 * The collection updates the three entity tables share: replace by id,
 * append under a fresh id `Math.max(0, ...ids) + 1`, and remove by id.
 * `idOf` reads an entity's numeric id.
 */
module Entities {
  import opened Wrappers
  import Seqs

  /** `xs.find(x => x.id === id)`: the first entity with the id, if any. */
  function FindById<T>(xs: seq<T>, id: int, idOf: T -> int): (r: Option<T>)
    ensures r.None? <==> forall i :: 0 <= i < |xs| ==> idOf(xs[i]) != id
    ensures r.Some? ==> exists i :: 0 <= i < |xs| && xs[i] == r.value && idOf(r.value) == id
                                    && forall j :: 0 <= j < i ==> idOf(xs[j]) != id
    decreases |xs|
  {
    if |xs| == 0 then None
    else if idOf(xs[0]) == id then Some(xs[0])
    else
      var r := FindById(xs[1..], id, idOf);
      assert r.Some? ==> exists i :: 0 <= i < |xs| && xs[i] == r.value && forall j :: 0 <= j < i ==> idOf(xs[j]) != id by {
        if r.Some? {
          var i :| 0 <= i < |xs[1..]| && xs[1..][i] == r.value && idOf(r.value) == id
                  && forall j :: 0 <= j < i ==> idOf(xs[1..][j]) != id;
          assert xs[i + 1] == r.value;
          assert forall j :: 0 <= j < i + 1 ==> idOf(xs[j]) != id by {
            forall j | 0 <= j < i + 1 ensures idOf(xs[j]) != id {
              if j > 0 { assert xs[j] == xs[1..][j - 1]; }
            }
          }
        }
      }
      r
  }

  /** `Math.max(0, ...ids)`. */
  function MaxId<T>(xs: seq<T>, idOf: T -> int): (m: int)
    ensures m >= 0
    ensures forall i :: 0 <= i < |xs| ==> idOf(xs[i]) <= m
    ensures m == 0 || exists i :: 0 <= i < |xs| && idOf(xs[i]) == m
    decreases |xs|
  {
    if |xs| == 0 then 0
    else
      var rest := MaxId(xs[1..], idOf);
      assert forall i :: 1 <= i < |xs| ==> xs[i] == xs[1..][i - 1];
      if idOf(xs[0]) > rest then idOf(xs[0]) else rest
  }

  /** The id a created entity receives: positive and above every existing id. */
  function NextId<T>(xs: seq<T>, idOf: T -> int): (n: int)
    ensures n >= 1
    ensures forall i :: 0 <= i < |xs| ==> idOf(xs[i]) < n
    ensures n == 1 || exists i :: 0 <= i < |xs| && idOf(xs[i]) == n - 1
  {
    MaxId(xs, idOf) + 1
  }

  /** `xs.map(e => e.id === x.id ? x : e)`. */
  function ReplaceById<T>(xs: seq<T>, x: T, idOf: T -> int): (r: seq<T>)
    ensures |r| == |xs|
    ensures forall i :: 0 <= i < |xs| && idOf(xs[i]) == idOf(x) ==> r[i] == x
    ensures forall i :: 0 <= i < |xs| && idOf(xs[i]) != idOf(x) ==> r[i] == xs[i]
  {
    seq(|xs|, i requires 0 <= i < |xs| => if idOf(xs[i]) == idOf(x) then x else xs[i])
  }

  /** Replacing by an id nobody has changes nothing. */
  lemma ReplaceUnknownId<T>(xs: seq<T>, x: T, idOf: T -> int)
    requires forall i :: 0 <= i < |xs| ==> idOf(xs[i]) != idOf(x)
    ensures ReplaceById(xs, x, idOf) == xs
  {
  }

  /** Replacing twice with the same entity is replacing once. */
  lemma ReplaceIdempotent<T>(xs: seq<T>, x: T, idOf: T -> int)
    ensures ReplaceById(ReplaceById(xs, x, idOf), x, idOf) == ReplaceById(xs, x, idOf)
  {
  }

  /** `xs.filter(e => e.id !== id)`. */
  function RemoveById<T(==)>(xs: seq<T>, id: int, idOf: T -> int): (r: seq<T>)
    ensures Seqs.IsSubsequence(r, xs)
    ensures forall i :: 0 <= i < |r| ==> idOf(r[i]) != id
    ensures forall i :: 0 <= i < |xs| && idOf(xs[i]) != id ==> xs[i] in r
  {
    Seqs.Filter(xs, (e: T) => idOf(e) != id)
  }

  /** Removal takes out exactly the entities with that id, each other entity keeping its multiplicity. */
  lemma RemoveByIdMultiset<T>(xs: seq<T>, id: int, idOf: T -> int)
    ensures forall e :: multiset(RemoveById(xs, id, idOf))[e] == if idOf(e) == id then 0 else multiset(xs)[e]
  {
    Seqs.FilterMultiset(xs, (e: T) => idOf(e) != id);
  }

  /** Removing an id nobody has changes nothing. */
  lemma RemoveUnknownId<T>(xs: seq<T>, id: int, idOf: T -> int)
    requires forall i :: 0 <= i < |xs| ==> idOf(xs[i]) != id
    ensures RemoveById(xs, id, idOf) == xs
  {
    Seqs.FilterAll(xs, (e: T) => idOf(e) != id);
  }
}
