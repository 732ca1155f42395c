/**
  Python's `max(pairs, key=lambda x: x[1])` as the root of the minimax and
  expectimax agents uses it: scanning left to right, the running best pair
  is replaced only by a strictly larger key, so the result is the FIRST
  pair whose key is maximal.
 */
module Selection {

  /** `i` is the first position of a maximal key among `keys[..n]` */
  predicate FirstMaxOfPrefix(keys: seq<real>, n: nat, i: nat) {
    i < n <= |keys| &&
    (forall j :: 0 <= j < n ==> keys[j] <= keys[i]) &&
    (forall j :: 0 <= j < i ==> keys[j] < keys[i])
  }

  predicate IsFirstMax(keys: seq<real>, i: nat) {
    FirstMaxOfPrefix(keys, |keys|, i)
  }

  /** There is only one first maximal position */
  lemma FirstMaxUnique(keys: seq<real>, n: nat, i: nat, k: nat)
    requires FirstMaxOfPrefix(keys, n, i) && FirstMaxOfPrefix(keys, n, k)
    ensures i == k
  {
    assert keys[i] <= keys[k] && keys[k] <= keys[i];
  }

  /** The builtin's scan, resumed at position `j` with the best so far at `best` */
  function FirstMaxFrom(keys: seq<real>, j: nat, best: nat): (i: nat)
    requires 0 < j <= |keys|
    requires FirstMaxOfPrefix(keys, j, best)
    ensures IsFirstMax(keys, i)
    decreases |keys| - j
  {
    if j == |keys| then best
    else FirstMaxFrom(keys, j + 1, if keys[best] < keys[j] then j else best)
  }

  /** Index of the pair that `max(pairs, key=...)` returns; the builtin fails on an empty list */
  function FirstMaxIndex(keys: seq<real>): (i: nat)
    requires |keys| > 0
    ensures IsFirstMax(keys, i)
  {
    FirstMaxFrom(keys, 1, 0)
  }
}
