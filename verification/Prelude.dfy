/** Small shared vocabulary. */
module Prelude {
  datatype Option<+T> = None | Some(value: T)

  function Max(a: int, b: int): int {
    if a < b then b else a
  }

  /** `order` is one way of iterating over `keys`: every key once, nothing else.
      A range over a Go map visits its keys in some order of this kind. */
  ghost predicate Listing<T(!new)>(order: seq<T>, keys: set<T>) {
    && (forall i, j :: 0 <= i < j < |order| ==> order[i] != order[j])
    && (forall x :: x in order <==> x in keys)
  }

  lemma ListingSnoc<T(!new)>(order: seq<T>, keys: set<T>, x: T)
    requires Listing(order, keys) && x !in keys
    ensures Listing(order + [x], keys + {x})
  {
  }

  lemma {:induction false} ListingSize<T(!new)>(order: seq<T>, keys: set<T>)
    requires Listing(order, keys)
    ensures |order| == |keys|
    decreases |order|
  {
    if order == [] {
      assert keys == {};
    } else {
      var n := |order| - 1;
      assert order == order[..n] + [order[n]];
      ListingSize(order[..n], keys - {order[n]});
    }
  }
}
