/** Bookkeeping shared by every bandit policy: the running mean of an arm's
    rewards, the count of reward-1 observations, and numpy's first-maximum
    argmax. */
module Stats {

  /** Sum of rewards, unfolded from the back so that appending one reward
      is one unfolding step. */
  function Sum(s: seq<real>): real
  {
    if s == [] then 0.0 else Sum(s[..|s| - 1]) + s[|s| - 1]
  }

  /** Average of the rewards; an arm with no reward has mean 0, as the
      policies' zero-initialised mean arrays do. */
  function Mean(s: seq<real>): real
  {
    if s == [] then 0.0 else Sum(s) / (|s| as real)
  }

  /** Sum of whole-number pull counts. */
  function SumInts(s: seq<int>): int
  {
    if s == [] then 0 else SumInts(s[..|s| - 1]) + s[|s| - 1]
  }

  /** The indices 0, 1, ..., n-1 (numpy's `arange(n)`). */
  function Range(n: nat): seq<nat>
  {
    seq(n, i => i)
  }

  /** Number of rewards equal to 1: what a Thompson policy's success
      counter holds. It never exceeds the number of rewards. */
  function Successes(s: seq<real>): (k: nat)
    ensures k <= |s|
  {
    if s == [] then 0
    else Successes(s[..|s| - 1]) + (if s[|s| - 1] == 1.0 then 1 else 0)
  }

  /** A Beta shape parameter: the policies pass `1 + successes` and
      `1 + failures`, which must be at least 1. */
  type BetaShape = x: int | 1 <= x witness 1

  /** `k` is where numpy's `argmax` lands: a maximum of `s`, and no earlier
      index holds that maximum. */
  ghost predicate IsFirstMax(s: seq<real>, k: int)
  {
    && 0 <= k < |s|
    && (forall j :: 0 <= j < |s| ==> s[j] <= s[k])
    && (forall j :: 0 <= j < k ==> s[j] < s[k])
  }

  /** `np.argmax` over a non-empty array: the lowest index of the maximum. */
  method ArgMax(a: array<real>) returns (k: nat)
    requires a.Length > 0
    ensures IsFirstMax(a[..], k)
  {
    k := 0;
    var i := 1;
    while i < a.Length
      invariant 1 <= i <= a.Length
      invariant k < i
      invariant forall j :: 0 <= j < i ==> a[j] <= a[k]
      invariant forall j :: 0 <= j < k ==> a[j] < a[k]
    {
      if a[i] > a[k] {
        k := i;
      }
      i := i + 1;
    }
  }

  /** The incremental update `((n-1)/n) * value + (1/n) * reward`, with `n`
      the new number of rewards, turns the mean of the old rewards into the
      mean of the old rewards plus the new one. */
  lemma {:induction false} MeanAppend(s: seq<real>, reward: real)
    ensures var n := (|s| + 1) as real;
            Mean(s + [reward]) == ((n - 1.0) / n) * Mean(s) + (1.0 / n) * reward
  {
    var t := s + [reward];
    assert t[..|t| - 1] == s;
  }

  /** Sum distributes over concatenation. */
  lemma {:induction false} SumConcat(a: seq<real>, b: seq<real>)
    ensures Sum(a + b) == Sum(a) + Sum(b)
  {
    if b != [] {
      var b' := b[..|b| - 1];
      assert (a + b)[..|a + b| - 1] == a + b';
      SumConcat(a, b');
    } else {
      assert a + b == a;
    }
  }

  /** Removing one element from a sequence takes it out of the sum. */
  lemma SumRemove(t: seq<real>, i: nat)
    requires i < |t|
    ensures Sum(t) == Sum(t[..i] + t[i + 1..]) + t[i]
  {
    assert t == t[..i] + [t[i]] + t[i + 1..];
    SumConcat(t[..i] + [t[i]], t[i + 1..]);
    SumConcat(t[..i], [t[i]]);
    SumConcat(t[..i], t[i + 1..]);
    assert ([] + [t[i]])[..0] == [];
    assert Sum([t[i]]) == t[i];
  }

  /** Sum depends only on the multiset of rewards, not on their order. */
  lemma {:induction false} SumPermutation(s: seq<real>, t: seq<real>)
    requires multiset(s) == multiset(t)
    ensures Sum(s) == Sum(t)
    decreases |s|
  {
    if s == [] {
      assert |t| == |multiset(t)| == 0;
    } else {
      var x := s[|s| - 1];
      var s' := s[..|s| - 1];
      assert s == s' + [x];
      assert x in multiset(t);
      var i :| 0 <= i < |t| && t[i] == x;
      var t' := t[..i] + t[i + 1..];
      assert t == t[..i] + [x] + t[i + 1..];
      assert multiset(t') == multiset(t[..i]) + multiset(t[i + 1..]);
      assert multiset(t) == multiset(t[..i]) + multiset{x} + multiset(t[i + 1..]);
      assert multiset(t) == multiset(t') + multiset{x};
      assert multiset(s) == multiset(s') + multiset{x};
      assert multiset(s') == multiset(s) - multiset{x} == multiset(t) - multiset{x} == multiset(t');
      SumPermutation(s', t');
      SumRemove(t, i);
    }
  }

  /** The running mean of an arm does not depend on the order in which its
      rewards were reported. */
  lemma MeanPermutation(s: seq<real>, t: seq<real>)
    requires multiset(s) == multiset(t)
    ensures Mean(s) == Mean(t)
  {
    assert |s| == |multiset(s)| == |multiset(t)| == |t|;
    SumPermutation(s, t);
  }

  /** Rewards in [0, 1] keep the sum between 0 and the number of rewards. */
  lemma {:induction false} SumBounds(s: seq<real>)
    requires forall i :: 0 <= i < |s| ==> 0.0 <= s[i] <= 1.0
    ensures 0.0 <= Sum(s) <= |s| as real
  {
    if s != [] {
      SumBounds(s[..|s| - 1]);
    }
  }

  /** Rewards in [0, 1] (the policies' 0/1 rewards) keep the mean in [0, 1]. */
  lemma MeanBounds(s: seq<real>)
    requires forall i :: 0 <= i < |s| ==> 0.0 <= s[i] <= 1.0
    ensures 0.0 <= Mean(s) <= 1.0
  {
    SumBounds(s);
  }

  /** Adding one to entry `k` adds one to the total. */
  lemma {:induction false} SumIntsIncrement(c: seq<int>, k: nat)
    requires k < |c|
    ensures SumInts(c[k := c[k] + 1]) == SumInts(c) + 1
  {
    var d := c[k := c[k] + 1];
    if k < |c| - 1 {
      assert d[..|d| - 1] == c[..|c| - 1][k := c[k] + 1];
      SumIntsIncrement(c[..|c| - 1], k);
    } else {
      assert d[..|d| - 1] == c[..|c| - 1];
    }
  }
}
