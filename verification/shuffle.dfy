/** The in-place Fisher–Yates shuffle used twice by the draw: once on the
    giver order and once on each giver's remaining candidates.

    `Math.random` is replaced by an oracle. The draw numbers its calls to the
    random source 0, 1, 2, ... in the order the source makes them; call k
    yields `rng(k)`, and `Math.floor(Math.random() * (i + 1))` becomes
    `rng(k) % (i + 1)`, some index in [0, i]. Every index is reachable, so a
    property proved for every `rng` holds for every sequence of random choices. */
module Shuffling {
  import opened Seqs

  type Rng = nat -> nat

  /** The index chosen by random call k when the loop counter is i. */
  function Pick(rng: Rng, k: nat, i: nat): (j: nat)
    ensures j <= i
  {
    rng(k) % (i + 1)
  }

  /** Each index in [0, i] is chosen by some random source, so quantifying over
      `rng` loses no choice the source could make. */
  lemma PickReachesAll(k: nat, i: nat, j: nat)
    requires j <= i
    ensures Pick(_ => j, k, i) == j
  {
  }

  /** The loop `for (i = len - 1; i > 0; i--) swap(i, j)` from counter value i
      down to 1, starting at random call k. Returns the shuffled sequence and
      the number of the next unused random call. */
  function ShuffleDown<T>(s: seq<T>, i: nat, rng: Rng, k: nat): (r: (seq<T>, nat))
    requires i < |s|
    ensures multiset(r.0) == multiset(s)
    ensures |r.0| == |s|
    ensures r.1 == k + i
    decreases i
  {
    if i == 0 then (s, k)
    else ShuffleDown(Swap(s, i, Pick(rng, k, i)), i - 1, rng, k + 1)
  }

  /** Fisher–Yates over the whole sequence: a permutation of the input that
      consumes one random call per element but the first. */
  function Shuffle<T>(s: seq<T>, rng: Rng, k: nat): (r: (seq<T>, nat))
    ensures multiset(r.0) == multiset(s)
    ensures |r.0| == |s|
    ensures r.1 == k + (if |s| == 0 then 0 else |s| - 1)
  {
    if |s| == 0 then (s, k) else ShuffleDown(s, |s| - 1, rng, k)
  }

  /** A permutation has the same elements, and the same duplicate-freedom. */
  lemma ShuffleKeepsElems<T>(s: seq<T>, rng: Rng, k: nat)
    ensures forall x :: x in Shuffle(s, rng, k).0 <==> x in s
    ensures Distinct(s) ==> Distinct(Shuffle(s, rng, k).0)
  {
    var r := Shuffle(s, rng, k).0;
    forall x ensures x in r <==> x in s {
      assert x in r <==> x in multiset(r);
      assert x in s <==> x in multiset(s);
    }
    CardElems(s);
    CardElems(r);
    assert Elems(r) == Elems(s);
  }
}
