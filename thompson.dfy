/** The many-arms Thompson policy of thompson.py: each pull resamples only
    the first floor(sqrt(numArms)) arms' posteriors; every other arm keeps
    its sampled value, which is never written and so stays 0. */
module Thompson {
  import opened Stats

  /** Integer square root, `int(math.sqrt(n))` for the exact square root. */
  function ISqrt(n: nat): (r: nat)
    ensures r * r <= n < (r + 1) * (r + 1)
    ensures r <= n
  {
    ISqrtFrom(n, 0)
  }

  /** The largest r' >= r whose square does not exceed n, given r * r <= n. */
  function ISqrtFrom(n: nat, r: nat): (s: nat)
    requires r * r <= n
    ensures s * s <= n < (s + 1) * (s + 1)
    ensures r <= s <= n
    decreases n - r
  {
    if (r + 1) * (r + 1) > n then r else ISqrtFrom(n, r + 1)
  }

  class AlgorithmManyArms {
    const numArms: nat
    const clicks: array<nat>
    const means: array<real>
    const success: array<nat>
    /** Every reward reported for each arm, in order. */
    ghost var rewards: seq<seq<real>>

    ghost predicate Valid()
      reads this, clicks, means, success
    {
      && numArms > 0
      && clicks.Length == numArms && means.Length == numArms && success.Length == numArms
      && clicks != success
      && |rewards| == numArms
      && (forall a :: 0 <= a < numArms ==> clicks[a] == |rewards[a]| && success[a] == Successes(rewards[a]))
      // the entries past the resampled prefix are never written
      && (forall a :: ISqrt(numArms) <= a < numArms ==> means[a] == 0.0)
    }

    /** The horizon is accepted and ignored. */
    constructor (numArms: nat, horizon: int)
      requires numArms > 0
      ensures Valid() && fresh(clicks) && fresh(means) && fresh(success)
      ensures this.numArms == numArms
      ensures means[..] == seq(numArms, a => 0.0)
      ensures rewards == seq(numArms, a => [])
    {
      this.numArms := numArms;
      clicks := new nat[numArms](_ => 0);
      means := new real[numArms](_ => 0.0);
      success := new nat[numArms](_ => 0);
      rewards := seq(numArms, a => []);
    }

    /** Resample the first floor(sqrt(numArms)) arms' posteriors with
        `draw(a, alpha, beta)`, keep every other sampled value, and pull the
        first maximum. Draws are never negative (Beta samples lie in [0, 1]),
        the untouched entries are 0 and ties go to the lowest index, so the
        pulled arm is always one of the resampled ones. */
    method GivePull(draw: (nat, BetaShape, BetaShape) -> real) returns (arm: nat)
      requires Valid()
      modifies means
      ensures Valid()
      ensures forall a :: 0 <= a < ISqrt(numArms) ==>
                success[a] <= clicks[a] &&
                means[a] == draw(a, 1 + success[a], 1 + clicks[a] - success[a])
      ensures forall a :: ISqrt(numArms) <= a < numArms ==> means[a] == old(means[a])
      ensures IsFirstMax(means[..], arm)
      ensures (forall a: nat, alpha: BetaShape, beta: BetaShape :: draw(a, alpha, beta) >= 0.0) ==>
                arm < ISqrt(numArms)
    {
      var k := ISqrt(numArms);
      var i := 0;
      while i < k
        invariant 0 <= i <= k
        invariant forall a :: 0 <= a < i ==> means[a] == draw(a, 1 + success[a], 1 + clicks[a] - success[a])
        invariant forall a :: i <= a < numArms ==> means[a] == old(means[a])
      {
        means[i] := draw(i, 1 + success[i], 1 + clicks[i] - success[i]);
        i := i + 1;
      }
      arm := ArgMax(means);
      if forall a: nat, alpha: BetaShape, beta: BetaShape :: draw(a, alpha, beta) >= 0.0 {
        assert 1 <= k;
        assert means[0] >= 0.0;
        assert arm > 0 ==> means[..][0] < means[..][arm];
      }
    }

    /** Count the pull, and count a success when the reward is 1. */
    method GetReward(arm: nat, reward: real)
      requires Valid()
      requires arm < numArms
      modifies this`rewards, clicks, success
      ensures Valid()
      ensures rewards == old(rewards)[arm := old(rewards)[arm] + [reward]]
      ensures clicks[arm] == old(clicks[arm]) + 1
      ensures success[arm] == old(success[arm]) + (if reward == 1.0 then 1 else 0)
      ensures forall a :: 0 <= a < numArms && a != arm ==>
                clicks[a] == old(clicks[a]) && success[a] == old(success[a])
      ensures forall a :: 0 <= a < numArms ==> success[a] <= clicks[a]
    {
      clicks[arm] := clicks[arm] + 1;
      if reward == 1.0 {
        success[arm] := success[arm] + 1;
      }
      ghost var h := rewards[arm] + [reward];
      assert h[..|h| - 1] == rewards[arm];
      rewards := rewards[arm := h];
    }
  }
}
