/** The Fisher–Yates shuffle of root/js/main.js (`shuffle`).
    `Math.random()` is not modelled: its successive results are passed in as `draws`,
    one real in [0, 1) per loop iteration, consumed in order. */
module Shuffle {

  /** A value `Math.random()` can return. */
  predicate IsDraw(u: real) {
    0.0 <= u < 1.0
  }

  /** Enough draws, all in range, to shuffle `n` elements: the loop runs for
      i = n-1 down to 1, so it consumes n-1 draws. */
  predicate DrawsFor(n: nat, draws: seq<real>) {
    |draws| >= n - 1 && forall k :: 0 <= k < |draws| ==> IsDraw(draws[k])
  }

  lemma ScaledDrawBelow(u: real, n: nat)
    requires IsDraw(u) && n > 0
    ensures 0.0 <= u * n as real < n as real
  {
    assert n as real - u * n as real == (1.0 - u) * n as real;
  }

  /** `Math.floor(u * n)`: the index the loop swaps with when `n = i + 1`. */
  function RandomIndex(u: real, n: nat): (j: nat)
    requires IsDraw(u) && n > 0
    ensures j < n
  {
    ScaledDrawBelow(u, n);
    (u * n as real).Floor
  }

  /** Every swap partner j in [0, n) is chosen by some draw, namely j/n. */
  lemma RandomIndexReaches(j: nat, n: nat)
    requires j < n
    ensures IsDraw(j as real / n as real)
    ensures RandomIndex(j as real / n as real, n) == j
  {
    var u := j as real / n as real;
    assert u * n as real == j as real;
  }

  /** The destructuring swap `[a[i], a[j]] = [a[j], a[i]]`. */
  function Swap<T>(a: seq<T>, i: nat, j: nat): (r: seq<T>)
    requires i < |a| && j < |a|
    ensures |r| == |a| && r[i] == a[j] && r[j] == a[i]
    ensures forall k :: 0 <= k < |a| && k != i && k != j ==> r[k] == a[k]
    ensures multiset(r) == multiset(a)
  {
    a[i := a[j]][j := a[i]]
  }

  /** The loop from `i = top - 1` down to 1. Positions at or above `top` are final. */
  function ShuffleFrom<T>(a: seq<T>, top: nat, draws: seq<real>): (r: seq<T>)
    requires top <= |a| && DrawsFor(|a|, draws)
    ensures |r| == |a|
    ensures multiset(r) == multiset(a)
    ensures forall k :: top <= k < |a| ==> r[k] == a[k]
    decreases top
  {
    if top <= 1 then a
    else
      var i := top - 1;
      var j := RandomIndex(draws[|a| - top], top);
      ShuffleFrom(Swap(a, i, j), i, draws)
  }

  /** `shuffle(array)`: a permutation of a copy of the input. */
  function Shuffle<T>(xs: seq<T>, draws: seq<real>): (r: seq<T>)
    requires DrawsFor(|xs|, draws)
    ensures |r| == |xs|
    ensures multiset(r) == multiset(xs)
    ensures |xs| <= 1 ==> r == xs
  {
    ShuffleFrom(xs, |xs|, draws)
  }

  lemma SwapKeepsPrefixMultiset<T>(a: seq<T>, i: nat, j: nat, top: nat)
    requires i < top <= |a| && j < top
    ensures multiset(Swap(a, i, j)[..top]) == multiset(a[..top])
    ensures Swap(a, i, j)[top..] == a[top..]
  {
    var r := Swap(a, i, j);
    assert r[..top] == Swap(a[..top], i, j);
  }

  lemma MultisetCancelLast<T>(x: seq<T>, y: seq<T>, e: T)
    requires multiset(x + [e]) == multiset(y + [e])
    ensures multiset(x) == multiset(y)
  {
    assert multiset(x + [e]) == multiset(x) + multiset{e};
    assert multiset(y + [e]) == multiset(y) + multiset{e};
    forall z
      ensures multiset(x)[z] == multiset(y)[z]
    {
      assert (multiset(x) + multiset{e})[z] == (multiset(y) + multiset{e})[z];
    }
  }

  /** With at most one position left to fill, agreeing targets are equal. */
  lemma ReachDone<T>(a: seq<T>, t: seq<T>, top: nat)
    requires top <= 1 && top <= |a| == |t|
    requires multiset(a[..top]) == multiset(t[..top]) && a[top..] == t[top..]
    ensures a == t
  {
    if top == 1 {
      assert a[..1] == [a[0]] && t[..1] == [t[0]];
      assert multiset([a[0]])[t[0]] > 0;
    }
    assert a == a[..top] + a[top..] && t == t[..top] + t[top..];
  }

  /** The element the target wants at `top - 1` sits somewhere below `top` in `a`. */
  lemma FindPartner<T>(a: seq<T>, t: seq<T>, top: nat) returns (j: nat)
    requires 1 <= top <= |a| == |t|
    requires multiset(a[..top]) == multiset(t[..top])
    ensures j < top && a[j] == t[top - 1]
  {
    assert t[top - 1] in multiset(t[..top]) by {
      assert t[..top][top - 1] == t[top - 1];
    }
    assert t[top - 1] in a[..top];
    j :| 0 <= j < top && a[..top][j] == t[top - 1];
  }

  /** One loop step toward a target: some partner j below `top` brings the target's
      element into position `top - 1`, and what is left is again a permutation. */
  lemma ReachStep<T>(a: seq<T>, t: seq<T>, top: nat) returns (j: nat)
    requires 2 <= top <= |a| == |t|
    requires multiset(a[..top]) == multiset(t[..top]) && a[top..] == t[top..]
    ensures j < top && a[j] == t[top - 1]
    ensures multiset(Swap(a, top - 1, j)[..top - 1]) == multiset(t[..top - 1])
    ensures Swap(a, top - 1, j)[top - 1..] == t[top - 1..]
  {
    var i := top - 1;
    j := FindPartner(a, t, top);
    var a' := Swap(a, i, j);
    SwapKeepsPrefixMultiset(a, i, j, top);
    assert a'[..top] == a'[..i] + [t[i]] && t[..top] == t[..i] + [t[i]];
    MultisetCancelLast(a'[..i], t[..i], t[i]);
    assert a'[i..] == [a'[i]] + a'[top..] && t[i..] == [t[i]] + t[top..];
  }

  /** The loop from `top` on can produce any target that agrees with `a` above
      `top` and permutes it below; the draws returned extend `prefix`, the draws
      already consumed. */
  lemma {:induction false} ReachFrom<T>(a: seq<T>, t: seq<T>, top: nat, prefix: seq<real>) returns (draws: seq<real>)
    requires top <= |a| == |t|
    requires multiset(a[..top]) == multiset(t[..top]) && a[top..] == t[top..]
    requires |prefix| == |a| - top && forall k :: 0 <= k < |prefix| ==> IsDraw(prefix[k])
    ensures DrawsFor(|a|, draws) && prefix <= draws
    ensures ShuffleFrom(a, top, draws) == t
    decreases top
  {
    if top <= 1 {
      ReachDone(a, t, top);
      draws := prefix;
    } else {
      var i := top - 1;
      var j := ReachStep(a, t, top);
      RandomIndexReaches(j, top);
      var u := j as real / top as real;
      draws := ReachFrom(Swap(a, i, j), t, i, prefix + [u]);
      assert draws[|a| - top] == (prefix + [u])[|prefix|] == u;
      assert ShuffleFrom(a, top, draws) == ShuffleFrom(Swap(a, i, j), i, draws);
    }
  }

  /** Every ordering of the input comes out of `shuffle` for some draws. Together
      with there being exactly n! choices of swap partners, this is why the shuffle
      is uniform; probabilities themselves are not modelled. */
  lemma EveryPermutationReachable<T>(xs: seq<T>, t: seq<T>) returns (draws: seq<real>)
    requires multiset(xs) == multiset(t)
    ensures DrawsFor(|xs|, draws) && Shuffle(xs, draws) == t
  {
    assert |xs| == |multiset(xs)| == |t|;
    assert xs[..|xs|] == xs && t[..|t|] == t;
    draws := ReachFrom(xs, t, |xs|, []);
  }
}
