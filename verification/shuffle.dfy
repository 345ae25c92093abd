/**
 * Randomness, made explicit. The application shuffles with Fisher–Yates
 * (`for i = n-1 down to 1: swap a[i] with a[floor(random() * (i+1))]`), sorts
 * by a random comparator, and draws with Python's `random.sample` and
 * `random.choice`. Here the random numbers are an argument `picks`: the
 * partner of position `i` is `picks[i] mod (i + 1)`. Every permutation
 * arises from some `picks`, so "for all picks" covers every outcome.
 */
module Shuffle {
  import opened Seqs

  /** The swap partner chosen for position `i` (`Math.floor(Math.random() * (i + 1))`). */
  function Pick(picks: seq<nat>, i: nat): (j: nat)
    ensures j <= i
  {
    if i < |picks| then picks[i] % (i + 1) else i
  }

  /** `a` with the elements at `i` and `j` exchanged. */
  function Swap<T>(a: seq<T>, i: nat, j: nat): (r: seq<T>)
    requires i < |a| && j < |a|
    ensures |r| == |a|
    ensures r[i] == a[j] && r[j] == a[i]
    ensures forall k :: 0 <= k < |a| && k != i && k != j ==> r[k] == a[k]
    ensures multiset(r) == multiset(a)
  {
    a[i := a[j]][j := a[i]]
  }

  lemma SwapKeepsNoDuplicates<T>(a: seq<T>, i: nat, j: nat)
    requires i < |a| && j < |a|
    ensures NoDuplicates(a) ==> NoDuplicates(Swap(a, i, j))
  {
    if NoDuplicates(a) {
      var r := Swap(a, i, j);
      forall x, y | 0 <= x < y < |r| ensures r[x] != r[y] {
        var x' := if x == i then j else if x == j then i else x;
        var y' := if y == i then j else if y == j then i else y;
        assert r[x] == a[x'] && r[y] == a[y'] && x' != y';
        if x' > y' {
          assert a[y'] != a[x'];
        }
      }
    }
  }

  lemma SwapCommutesWithMap<T, U>(f: T -> U, a: seq<T>, i: nat, j: nat)
    requires i < |a| && j < |a|
    ensures Map(f, Swap(a, i, j)) == Swap(Map(f, a), i, j)
  {
    var l, r := Map(f, Swap(a, i, j)), Swap(Map(f, a), i, j);
    forall k | 0 <= k < |a| ensures l[k] == r[k] {
      if k == j {
        assert l[k] == f(a[i]);
      } else if k == i {
        assert l[k] == f(a[j]);
      }
    }
  }

  /** The Fisher–Yates loop run for positions `top - 1` down to 1. */
  function ShuffleBelow<T>(a: seq<T>, top: nat, picks: seq<nat>): (r: seq<T>)
    requires top <= |a|
    ensures |r| == |a|
    ensures multiset(r) == multiset(a)
    ensures NoDuplicates(a) ==> NoDuplicates(r)
    decreases top
  {
    if top <= 1 then a
    else
      var b := Swap(a, top - 1, Pick(picks, top - 1));
      SwapKeepsNoDuplicates(a, top - 1, Pick(picks, top - 1));
      ShuffleBelow(b, top - 1, picks)
  }

  /** The application's `shuffleArray`: a permutation of `xs` chosen by `picks`. */
  function Shuffle<T(!new)>(xs: seq<T>, picks: seq<nat>): (r: seq<T>)
    ensures |r| == |xs|
    ensures multiset(r) == multiset(xs)
    ensures NoDuplicates(xs) ==> NoDuplicates(r)
    ensures forall x :: x in r <==> x in xs
  {
    var r := ShuffleBelow(xs, |xs|, picks);
    assert forall x :: x in r <==> x in multiset(xs);
    r
  }

  lemma {:induction false} ShuffleBelowCommutesWithMap<T, U>(f: T -> U, a: seq<T>, top: nat, picks: seq<nat>)
    requires top <= |a|
    ensures Map(f, ShuffleBelow(a, top, picks)) == ShuffleBelow(Map(f, a), top, picks)
    decreases top
  {
    if top > 1 {
      var j := Pick(picks, top - 1);
      SwapCommutesWithMap(f, a, top - 1, j);
      ShuffleBelowCommutesWithMap(f, Swap(a, top - 1, j), top - 1, picks);
    }
  }

  /**
   * Shuffling does not look at the values: shuffling records and then
   * projecting a field equals projecting first and shuffling the same way.
   */
  lemma ShuffleCommutesWithMap<T(!new), U(!new)>(f: T -> U, xs: seq<T>, picks: seq<nat>)
    ensures Map(f, Shuffle(xs, picks)) == Shuffle(Map(f, xs), picks)
  {
    ShuffleBelowCommutesWithMap(f, xs, |xs|, picks);
  }

  /** Keys that are distinct before a shuffle are distinct after it. */
  lemma ShuffleKeepsDistinctKeys<T(!new), K(!new)>(key: T -> K, xs: seq<T>, picks: seq<nat>)
    requires NoDuplicates(Map(key, xs))
    ensures NoDuplicates(Map(key, Shuffle(xs, picks)))
  {
    ShuffleCommutesWithMap(key, xs, picks);
  }

  /** Python `random.sample(population, k)`: `k` draws without replacement, in draw order. */
  function Sample<T(!new)>(population: seq<T>, k: nat, picks: seq<nat>): (r: seq<T>)
    requires k <= |population|
    ensures |r| == k
    ensures forall x :: x in r ==> x in population
    ensures NoDuplicates(population) ==> NoDuplicates(r)
    ensures multiset(r) <= multiset(population)
  {
    var s := Shuffle(population, picks);
    assert s == s[..k] + s[k..];
    s[..k]
  }

  /** Python `random.choice(options)`. */
  function Choice<T>(options: seq<T>, pick: nat): (r: T)
    requires |options| > 0
    ensures r in options
  {
    options[pick % |options|]
  }
}
