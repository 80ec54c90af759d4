/**
 * The shape of the two dictionary-building loops in scripts/scrape.py
 * (`organe_map` and `group_by_matricule`): walk a list in order, skip the
 * items a test rejects, and store `key(x) -> val(x)` for the others, so that
 * a later item overwrites an earlier one with the same key; and the shape of
 * the record-building loops that append one output per input.
 */
module Lookup {

  /** The dictionary after the loop has seen every item of `xs`. */
  function LastWins<T, K, V>(xs: seq<T>, keep: T -> bool, key: T -> K, val: T -> V): map<K, V>
  {
    if xs == [] then map[]
    else
      var m := LastWins(xs[..|xs| - 1], keep, key, val);
      var x := xs[|xs| - 1];
      if keep(x) then m[key(x) := val(x)] else m
  }

  /** Item `i` is kept and carries key `k`. */
  ghost predicate KeptWithKey<T, K>(xs: seq<T>, keep: T -> bool, key: T -> K, k: K, i: int) {
    0 <= i < |xs| && keep(xs[i]) && key(xs[i]) == k
  }

  /**
   * A key is present exactly when some kept item carries it, and its value
   * comes from the last kept item that carries it.
   */
  lemma {:induction false} LastWinsAt<T, K, V>(xs: seq<T>, keep: T -> bool, key: T -> K, val: T -> V, k: K)
    ensures k in LastWins(xs, keep, key, val) <==> exists i :: KeptWithKey(xs, keep, key, k, i)
    ensures k in LastWins(xs, keep, key, val) ==>
      exists i :: KeptWithKey(xs, keep, key, k, i) && LastWins(xs, keep, key, val)[k] == val(xs[i]) &&
        forall j :: i < j < |xs| ==> !KeptWithKey(xs, keep, key, k, j)
    decreases |xs|
  {
    if xs != [] {
      var n := |xs| - 1;
      var init := xs[..n];
      LastWinsAt(init, keep, key, val, k);
      forall i | 0 <= i < n ensures KeptWithKey(init, keep, key, k, i) == KeptWithKey(xs, keep, key, k, i) {
        assert init[i] == xs[i];
      }
      var x := xs[n];
      if keep(x) && key(x) == k {
        assert KeptWithKey(xs, keep, key, k, n);
      }
    }
  }

  /** The list after a loop has appended `f(x)` for every item `x` of `xs`. */
  function MapSeq<A, B>(xs: seq<A>, f: A -> B): (ys: seq<B>)
    ensures |ys| == |xs|
  {
    if xs == [] then [] else MapSeq(xs[..|xs| - 1], f) + [f(xs[|xs| - 1])]
  }

  /** Mapping a list one item longer appends the image of that item. */
  lemma MapSeqPush<A, B>(xs: seq<A>, x: A, f: A -> B)
    ensures MapSeq(xs + [x], f) == MapSeq(xs, f) + [f(x)]
  {
    assert (xs + [x])[..|xs|] == xs;
  }

  /** One more pass of the loop appends the image of the next item. */
  lemma MapSeqSnoc<A, B>(xs: seq<A>, f: A -> B, i: nat)
    requires i < |xs|
    ensures MapSeq(xs[..i + 1], f) == MapSeq(xs[..i], f) + [f(xs[i])]
  {
    assert xs[..i + 1][..i] == xs[..i];
  }

  /** Output `j` is the image of input `j`: order is kept, nothing is dropped. */
  lemma {:induction false} MapSeqAt<A, B>(xs: seq<A>, f: A -> B, j: nat)
    requires j < |xs|
    ensures MapSeq(xs, f)[j] == f(xs[j])
    decreases |xs|
  {
    if j < |xs| - 1 {
      MapSeqAt(xs[..|xs| - 1], f, j);
    }
  }
}
