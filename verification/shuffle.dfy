/** `random.shuffle(x)`: CPython walks `i` from `len(x) - 1` down to 1 and
    swaps `x[i]` with `x[randbelow(i + 1)]`. The random source is an explicit
    stream of draws; the k-th swap uses `draws[k] % (i + 1)`, and a stream
    that has run out reads as 0, so every stream names some shuffle. */
module Shuffling {

  /** The next draw of the stream, reduced into `[0, bound)`. */
  function RandBelow(draws: seq<nat>, bound: nat): (j: nat)
    requires bound > 0
    ensures j < bound
  {
    if |draws| == 0 then 0 else draws[0] % bound
  }

  function Rest(draws: seq<nat>): seq<nat> {
    if |draws| == 0 then [] else draws[1..]
  }

  /** `x[i], x[j] = x[j], x[i]` */
  function Swap<T>(xs: seq<T>, i: nat, j: nat): (r: seq<T>)
    requires i < |xs| && j < |xs|
    ensures |r| == |xs|
  {
    xs[i := xs[j]][j := xs[i]]
  }

  lemma SwapPermutes<T>(xs: seq<T>, i: nat, j: nat)
    requires i < |xs| && j < |xs|
    ensures multiset(Swap(xs, i, j)) == multiset(xs)
  {
  }

  /** The loop of `random.shuffle` from position `i` down to 1. */
  function ShuffleDown<T>(xs: seq<T>, i: nat, draws: seq<nat>): (r: seq<T>)
    requires i < |xs|
    ensures |r| == |xs|
    decreases i
  {
    if i == 0 then xs
    else ShuffleDown(Swap(xs, i, RandBelow(draws, i + 1)), i - 1, Rest(draws))
  }

  lemma {:induction false} ShuffleDownPermutes<T>(xs: seq<T>, i: nat, draws: seq<nat>)
    requires i < |xs|
    ensures multiset(ShuffleDown(xs, i, draws)) == multiset(xs)
    decreases i
  {
    if i > 0 {
      var j := RandBelow(draws, i + 1);
      SwapPermutes(xs, i, j);
      ShuffleDownPermutes(Swap(xs, i, j), i - 1, Rest(draws));
    }
  }

  /** `random.shuffle(xs)` as a function of the draws: always a permutation. */
  function Shuffle<T>(xs: seq<T>, draws: seq<nat>): (r: seq<T>)
    ensures |r| == |xs|
    ensures multiset(r) == multiset(xs)
  {
    if |xs| <= 1 then xs
    else
      ShuffleDownPermutes(xs, |xs| - 1, draws);
      ShuffleDown(xs, |xs| - 1, draws)
  }

  /** Every element of a shuffle comes from the input. */
  lemma ShuffleMembers<T>(xs: seq<T>, draws: seq<nat>, k: nat)
    requires k < |xs|
    ensures Shuffle(xs, draws)[k] in xs
  {
    var r := Shuffle(xs, draws);
    assert r[k] in multiset(r);
  }

  lemma SwapPrefix<T>(xs: seq<T>, i: nat, j: nat)
    requires j <= i < |xs|
    ensures Swap(xs, i, j)[..i + 1] == Swap(xs[..i + 1], i, j)
    ensures Swap(xs, i, j)[i + 1..] == xs[i + 1..]
  {
  }

  /** Swapping the wanted element into position `i` leaves a smaller
      instance of the same problem. */
  lemma SwapStep<T>(xs: seq<T>, i: nat, j: nat, ys: seq<T>)
    requires 0 < i < |xs| && |ys| == |xs| && j <= i && xs[j] == ys[i]
    requires multiset(ys[..i + 1]) == multiset(xs[..i + 1])
    requires ys[i + 1..] == xs[i + 1..]
    ensures multiset(ys[..i]) == multiset(Swap(xs, i, j)[..i])
    ensures ys[i..] == Swap(xs, i, j)[i..]
  {
    var xs' := Swap(xs, i, j);
    SwapPrefix(xs, i, j);
    assert xs'[i] == ys[i];
    assert xs'[..i + 1] == xs'[..i] + [ys[i]];
    assert ys[..i + 1] == ys[..i] + [ys[i]];
    assert multiset(xs'[..i + 1]) == multiset(xs[..i + 1]);
    assert multiset(xs'[..i]) == multiset(xs'[..i + 1]) - multiset{ys[i]};
    assert multiset(ys[..i]) == multiset(ys[..i + 1]) - multiset{ys[i]};
    assert ys[i..] == [ys[i]] + ys[i + 1..];
    assert xs'[i..] == [xs'[i]] + xs'[i + 1..];
  }

  /** The loop from position `i` with these draws turns `xs` into `ys`. */
  predicate Produces<T(==)>(xs: seq<T>, i: nat, draws: seq<nat>, ys: seq<T>)
    requires i < |xs|
  {
    ShuffleDown(xs, i, draws) == ys
  }

  /** One step of the loop: the swap at `i`, then the loop below it. */
  lemma ShuffleDownUnfold<T>(xs: seq<T>, i: nat, draws: seq<nat>)
    requires 0 < i < |xs|
    ensures ShuffleDown(xs, i, draws) == ShuffleDown(Swap(xs, i, RandBelow(draws, i + 1)), i - 1, Rest(draws))
  {
  }

  /** A draw below the bound is used as it is, and the stream moves on. */
  lemma DrawCons(j: nat, d: seq<nat>, bound: nat)
    requires j < bound
    ensures RandBelow([j] + d, bound) == j
    ensures Rest([j] + d) == d
  {
    assert ([j] + d)[1..] == d;
  }

  /** A draw `j <= i` makes the swap at position `i` exactly `(i, j)`. */
  lemma ShuffleDownStep<T>(xs: seq<T>, i: nat, j: nat, d: seq<nat>, ys: seq<T>)
    requires 0 < i < |xs| && j <= i
    requires Produces(Swap(xs, i, j), i - 1, d, ys)
    ensures Produces(xs, i, [j] + d, ys)
  {
    DrawCons(j, d, i + 1);
    ShuffleDownUnfold(xs, i, [j] + d);
  }

  /** Where the element wanted at position `i` sits among the first `i + 1`. */
  lemma FindWanted<T>(xs: seq<T>, i: nat, ys: seq<T>) returns (j: nat)
    requires i < |xs| && i < |ys|
    requires multiset(ys[..i + 1]) == multiset(xs[..i + 1])
    ensures j <= i && xs[j] == ys[i]
  {
    var prefix := xs[..i + 1];
    assert ys[i] == ys[..i + 1][i];
    assert ys[i] in multiset(prefix);
    var k :| 0 <= k < |prefix| && prefix[k] == ys[i];
    j := k;
  }

  lemma NothingLeftToShuffle<T>(xs: seq<T>, ys: seq<T>)
    requires 0 < |xs| && |ys| == |xs|
    requires multiset(ys[..1]) == multiset(xs[..1])
    requires ys[1..] == xs[1..]
    ensures Produces(xs, 0, [], ys)
  {
    ShortPermutation(xs[..1], ys[..1]);
    assert xs == xs[..1] + xs[1..] && ys == ys[..1] + ys[1..];
  }

  lemma {:induction false} ShuffleDownReaches<T>(xs: seq<T>, i: nat, ys: seq<T>) returns (draws: seq<nat>)
    requires i < |xs| && |ys| == |xs|
    requires multiset(ys[..i + 1]) == multiset(xs[..i + 1])
    requires ys[i + 1..] == xs[i + 1..]
    ensures Produces(xs, i, draws, ys)
    decreases i
  {
    if i == 0 {
      NothingLeftToShuffle(xs, ys);
      draws := [];
    } else {
      var j := FindWanted(xs, i, ys);
      SwapStep(xs, i, j, ys);
      var d := ShuffleDownReaches(Swap(xs, i, j), i - 1, ys);
      ShuffleDownStep(xs, i, j, d, ys);
      draws := [j] + d;
    }
  }

  lemma ShortPermutation<T>(xs: seq<T>, ys: seq<T>)
    requires multiset(ys) == multiset(xs) && |xs| <= 1 && |ys| == |xs|
    ensures ys == xs
  {
    if |xs| == 1 {
      assert ys[0] in multiset(xs);
      assert ys == [ys[0]] && xs == [xs[0]];
    }
  }

  /** The draws can name every permutation: modelling the random source as a
      stream loses no outcome of `random.shuffle`. */
  lemma ShuffleReachesEveryPermutation<T>(xs: seq<T>, ys: seq<T>)
    requires multiset(ys) == multiset(xs)
    ensures exists draws :: Shuffle(xs, draws) == ys
  {
    assert |ys| == |multiset(ys)| == |multiset(xs)| == |xs|;
    if |xs| <= 1 {
      ShortPermutation(xs, ys);
      assert Shuffle(xs, []) == ys;
    } else {
      var i := |xs| - 1;
      assert xs[..i + 1] == xs && ys[..i + 1] == ys;
      var d := ShuffleDownReaches(xs, i, ys);
      assert Shuffle(xs, d) == ys;
    }
  }

  // ---------------------------------------------------------------------
  // Sampling without replacement

  predicate Distinct<T(==)>(s: seq<T>) {
    forall i, j :: 0 <= i < j < |s| ==> s[i] != s[j]
  }

  lemma {:induction false} DistinctMultiplicity<T>(s: seq<T>, x: T)
    requires Distinct(s)
    ensures multiset(s)[x] <= 1
    decreases |s|
  {
    if |s| > 0 {
      assert s == [s[0]] + s[1..];
      DistinctMultiplicity(s[1..], x);
      if x == s[0] {
        assert x !in s[1..];
      }
    }
  }

  lemma RepeatedMultiplicity<T>(s: seq<T>, a: nat, b: nat)
    requires a < b < |s| && s[a] == s[b]
    ensures multiset(s)[s[a]] >= 2
  {
    assert s == s[..b] + s[b..];
    assert s[a] in s[..b];
    assert s[b] in s[b..];
  }

  /** A sub-multiset of a list without repeats has no repeats: a sample
      taken from a shuffle never holds the same entry twice. */
  lemma SubMultisetDistinct<T>(s: seq<T>, t: seq<T>)
    requires Distinct(s)
    requires multiset(t) <= multiset(s)
    ensures Distinct(t)
  {
    forall a, b | 0 <= a < b < |t|
      ensures t[a] != t[b]
    {
      if t[a] == t[b] {
        RepeatedMultiplicity(t, a, b);
        DistinctMultiplicity(s, t[a]);
      }
    }
  }

  /** `[f(x) for x in s]` */
  function Map<T, U>(f: T -> U, s: seq<T>): (r: seq<U>)
    ensures |r| == |s|
    ensures forall k :: 0 <= k < |s| ==> r[k] == f(s[k])
  {
    seq(|s|, k requires 0 <= k < |s| => f(s[k]))
  }

  lemma MapAppend<T, U>(f: T -> U, a: seq<T>, b: seq<T>)
    ensures Map(f, a + b) == Map(f, a) + Map(f, b)
  {
  }

  /** Relabelling keeps sub-multisets: labels of a sample taken without
      replacement are themselves taken without replacement. */
  lemma {:induction false} MapSubMultiset<T, U>(f: T -> U, a: seq<T>, b: seq<T>)
    requires multiset(a) <= multiset(b)
    ensures multiset(Map(f, a)) <= multiset(Map(f, b))
    decreases |a|
  {
    if |a| > 0 {
      var x := a[0];
      assert x in multiset(b);
      var m :| 0 <= m < |b| && b[m] == x;
      var before, after := b[..m], b[m + 1..];
      assert b == before + [x] + after;
      assert a == [x] + a[1..];
      assert multiset(b) == multiset(before + after) + multiset{x};
      assert multiset(a) == multiset(a[1..]) + multiset{x};
      forall y
        ensures multiset(a[1..])[y] <= multiset(before + after)[y]
      {
        assert multiset(a)[y] <= multiset(b)[y];
      }
      MapSubMultiset(f, a[1..], before + after);
      MapAppend(f, [x], a[1..]);
      MapAppend(f, before, after);
      MapAppend(f, before + [x], after);
      MapAppend(f, before, [x]);
    }
  }
}
