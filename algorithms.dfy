/** The single-arm policies of algorithms.py: the epsilon-greedy reference,
    UCB, KL-UCB and Thompson Sampling. Each keeps per-arm counters in
    arrays it updates in place. The floating-point quantities (the UCB
    bonus, the KL-UCB confidence target and bisection root, the random
    draws) are functions the caller supplies; a ghost history of every
    reward reported for each arm ties the counters and means to their
    meaning. */
module Algorithms {
  import opened Stats

  /** Epsilon-greedy: explore uniformly with probability `eps`, otherwise
      pull the arm with the best running mean. */
  class EpsGreedy {
    const numArms: nat
    const horizon: int
    const eps: real
    const counts: array<nat>
    const values: array<real>
    /** Every reward reported for each arm, in order. */
    ghost var rewards: seq<seq<real>>

    ghost predicate Valid()
      reads this, counts, values
    {
      && numArms > 0
      && counts.Length == numArms && values.Length == numArms
      && |rewards| == numArms
      && forall a :: 0 <= a < numArms ==> counts[a] == |rewards[a]| && values[a] == Mean(rewards[a])
    }

    constructor (numArms: nat, horizon: int)
      requires numArms > 0
      ensures Valid() && fresh(counts) && fresh(values)
      ensures this.numArms == numArms && this.horizon == horizon && eps == 0.1
      ensures rewards == seq(numArms, a => [])
    {
      this.numArms := numArms;
      this.horizon := horizon;
      eps := 0.1;
      counts := new nat[numArms](_ => 0);
      values := new real[numArms](_ => 0.0);
      rewards := seq(numArms, a => []);
    }

    /** `u` is the uniform draw in [0, 1) and `randomArm` the uniform arm
        index that the policy would draw when exploring. */
    method GivePull(u: real, randomArm: nat) returns (arm: nat)
      requires Valid()
      requires randomArm < numArms
      ensures arm < numArms
      ensures u < eps ==> arm == randomArm
      ensures u >= eps ==> IsFirstMax(values[..], arm)
    {
      if u < eps {
        arm := randomArm;
      } else {
        arm := ArgMax(values);
      }
    }

    method GetReward(arm: nat, reward: real)
      requires Valid()
      requires arm < numArms
      modifies this, counts, values
      ensures Valid()
      ensures rewards == old(rewards)[arm := old(rewards)[arm] + [reward]]
      ensures counts[arm] == old(counts[arm]) + 1
      ensures values[arm] == Mean(rewards[arm])
      ensures forall a :: 0 <= a < numArms && a != arm ==>
                counts[a] == old(counts[a]) && values[a] == old(values[a])
    {
      counts[arm] := counts[arm] + 1;
      var n := counts[arm] as real;
      var value := values[arm];
      values[arm] := ((n - 1.0) / n) * value + (1.0 / n) * reward;
      MeanAppend(rewards[arm], reward);
      rewards := rewards[arm := rewards[arm] + [reward]];
    }
  }

  /** UCB with a round-robin forced-exploration phase. `bonus(c, n)` stands
      for the floating-point confidence bonus sqrt(2 ln c / n). */
  class Ucb {
    const numArms: nat
    const horizon: int
    const bonus: (nat, nat) -> real
    const empMean: array<real>
    const clicks: array<nat>
    const ucb: array<real>
    var roundRobin: nat
    var count: nat
    /** Every reward reported for each arm, in order. */
    ghost var rewards: seq<seq<real>>

    ghost predicate Valid()
      reads this, empMean, clicks, ucb
    {
      && numArms > 0
      && empMean.Length == numArms && clicks.Length == numArms && ucb.Length == numArms
      && empMean != ucb
      && roundRobin <= numArms
      && |rewards| == numArms
      && (forall a :: 0 <= a < numArms ==> clicks[a] == |rewards[a]| && empMean[a] == Mean(rewards[a]))
      // an arm never pulled keeps its initial index 0
      && (forall a :: 0 <= a < numArms && clicks[a] == 0 ==> ucb[a] == 0.0)
    }

    constructor (numArms: nat, horizon: int, bonus: (nat, nat) -> real)
      requires numArms > 0
      ensures Valid() && fresh(empMean) && fresh(clicks) && fresh(ucb)
      ensures this.numArms == numArms && this.horizon == horizon && this.bonus == bonus
      ensures roundRobin == 0 && count == 0
      ensures rewards == seq(numArms, a => [])
    {
      this.numArms := numArms;
      this.horizon := horizon;
      this.bonus := bonus;
      empMean := new real[numArms](_ => 0.0);
      clicks := new nat[numArms](_ => 0);
      ucb := new real[numArms](_ => 0.0);
      roundRobin := 0;
      count := 0;
      rewards := seq(numArms, a => []);
    }

    /** While the cursor has not passed the last arm, pull the arm under it
        and advance it; afterwards pull the first arm of maximal index. */
    method GivePull() returns (arm: nat)
      requires Valid()
      modifies this`roundRobin
      ensures Valid()
      ensures arm < numArms
      ensures old(roundRobin) < numArms ==> arm == old(roundRobin) && roundRobin == old(roundRobin) + 1
      ensures old(roundRobin) >= numArms ==> roundRobin == old(roundRobin) && IsFirstMax(ucb[..], arm)
    {
      if roundRobin < numArms {
        arm := roundRobin;
        roundRobin := roundRobin + 1;
      } else {
        arm := ArgMax(ucb);
      }
    }

    /** Record the reward, update the arm's running mean, and recompute the
        index of every arm pulled at least once. */
    method GetReward(arm: nat, reward: real)
      requires Valid()
      requires arm < numArms
      modifies this`count, this`rewards, empMean, clicks, ucb
      ensures Valid()
      ensures count == old(count) + 1
      ensures rewards == old(rewards)[arm := old(rewards)[arm] + [reward]]
      ensures clicks[arm] == old(clicks[arm]) + 1
      ensures empMean[arm] == Mean(rewards[arm])
      ensures forall a :: 0 <= a < numArms && a != arm ==>
                clicks[a] == old(clicks[a]) && empMean[a] == old(empMean[a])
      ensures forall a :: 0 <= a < numArms ==>
                ucb[a] == if clicks[a] != 0 then empMean[a] + bonus(count + 1, clicks[a]) else old(ucb[a])
    {
      count := count + 1;
      RecordReward(arm, reward);
      RefreshIndices(arm);
    }

    /** The counter and running-mean half of GetReward. */
    method RecordReward(arm: nat, reward: real)
      requires Valid()
      requires arm < numArms
      modifies this`rewards, empMean, clicks
      ensures Valid()
      ensures rewards == old(rewards)[arm := old(rewards)[arm] + [reward]]
      ensures clicks[arm] == old(clicks[arm]) + 1
      ensures empMean[arm] == Mean(rewards[arm])
      ensures forall a :: 0 <= a < numArms && a != arm ==>
                clicks[a] == old(clicks[a]) && empMean[a] == old(empMean[a])
    {
      clicks[arm] := clicks[arm] + 1;
      var n := clicks[arm] as real;
      var value := empMean[arm];
      empMean[arm] := ((n - 1.0) / n) * value + (1.0 / n) * reward;
      MeanAppend(rewards[arm], reward);
      rewards := rewards[arm := rewards[arm] + [reward]];
    }

    /** The index half of GetReward: every arm other than `arm` with a
        click, then `arm` itself. */
    method RefreshIndices(arm: nat)
      requires Valid()
      requires arm < numArms && clicks[arm] != 0
      modifies ucb
      ensures Valid()
      ensures forall a :: 0 <= a < numArms ==>
                ucb[a] == if clicks[a] != 0 then empMean[a] + bonus(count + 1, clicks[a]) else old(ucb[a])
    {
      var i := 0;
      while i < numArms
        invariant 0 <= i <= numArms
        invariant forall a :: 0 <= a < i ==>
                    ucb[a] == if a != arm && clicks[a] != 0 then empMean[a] + bonus(count + 1, clicks[a]) else old(ucb[a])
        invariant forall a :: i <= a < numArms ==> ucb[a] == old(ucb[a])
      {
        if i != arm && clicks[i] != 0 {
          ucb[i] := empMean[i] + bonus(count + 1, clicks[i]);
        }
        i := i + 1;
      }
      ucb[arm] := empMean[arm] + bonus(count + 1, clicks[arm]);
    }
  }

  /** KL-UCB with the same forced-exploration phase. `findQ(p, target)`
      stands for the bisection root of the Bernoulli KL divergence, and
      `target(c, d)` for the confidence level (ln c + 3 ln ln c) / d. */
  class KlUcb {
    const numArms: nat
    const horizon: int
    const findQ: (real, real) -> real
    const target: (nat, nat) -> real
    const empMean: array<real>
    const clicks: array<nat>
    const ucb: array<real>
    var roundRobin: nat
    var t: nat
    /** Every reward reported for each arm, in order. */
    ghost var rewards: seq<seq<real>>

    ghost predicate Valid()
      reads this, empMean, clicks, ucb
    {
      && numArms > 0
      && empMean.Length == numArms && clicks.Length == numArms && ucb.Length == numArms
      && empMean != ucb
      && roundRobin <= numArms
      && |rewards| == numArms
      && (forall a :: 0 <= a < numArms ==> clicks[a] == |rewards[a]| && empMean[a] == Mean(rewards[a]))
    }

    /** Every arm the cursor has passed has been rewarded at least once.
        When the caller alternates pulls with rewards for the pulled arm,
        this holds after each reward. */
    ghost predicate ExploredBelowCursor()
      reads this, clicks
    {
      forall a :: 0 <= a < roundRobin && a < clicks.Length ==> clicks[a] >= 1
    }

    /** Every arm the cursor has passed, except `pending`, has been rewarded
        at least once: what holds between a pull of `pending` and its
        reward. */
    ghost predicate ExploredBelowCursorExcept(pending: nat)
      reads this, clicks
    {
      forall a :: 0 <= a < roundRobin && a < clicks.Length && a != pending ==> clicks[a] >= 1
    }

    constructor (numArms: nat, horizon: int, findQ: (real, real) -> real, target: (nat, nat) -> real)
      requires numArms > 0
      ensures Valid() && fresh(empMean) && fresh(clicks) && fresh(ucb)
      ensures this.numArms == numArms && this.horizon == horizon
      ensures this.findQ == findQ && this.target == target
      ensures roundRobin == 0 && t == 0
      ensures ucb[..] == seq(numArms, a => 1.0)
      ensures rewards == seq(numArms, a => [])
      ensures ExploredBelowCursor()
    {
      this.numArms := numArms;
      this.horizon := horizon;
      this.findQ := findQ;
      this.target := target;
      empMean := new real[numArms](_ => 0.0);
      clicks := new nat[numArms](_ => 0);
      ucb := new real[numArms](_ => 1.0);
      roundRobin := 0;
      t := 0;
      rewards := seq(numArms, a => []);
    }

    method GivePull() returns (arm: nat)
      requires Valid()
      modifies this`roundRobin
      ensures Valid()
      ensures arm < numArms
      ensures old(roundRobin) < numArms ==> arm == old(roundRobin) && roundRobin == old(roundRobin) + 1
      ensures old(roundRobin) >= numArms ==> roundRobin == old(roundRobin) && IsFirstMax(ucb[..], arm)
      ensures old(ExploredBelowCursor()) ==> ExploredBelowCursorExcept(arm)
    {
      if roundRobin < numArms {
        var idx := roundRobin;
        roundRobin := roundRobin + 1;
        arm := idx % numArms;
      } else {
        arm := ArgMax(ucb);
      }
    }

    /** Record the reward and recompute every arm's index. While the cursor
        has not passed the last arm the target uses t + 2 and denominator 2;
        afterwards t + 1 and the arm's own click count. */
    method GetReward(arm: nat, reward: real)
      requires Valid()
      requires arm < numArms
      modifies this`t, this`rewards, empMean, clicks, ucb
      ensures Valid()
      ensures t == old(t) + 1
      ensures rewards == old(rewards)[arm := old(rewards)[arm] + [reward]]
      ensures clicks[arm] == old(clicks[arm]) + 1
      ensures empMean[arm] == Mean(rewards[arm])
      ensures forall a :: 0 <= a < numArms && a != arm ==>
                clicks[a] == old(clicks[a]) && empMean[a] == old(empMean[a])
      ensures forall a :: 0 <= a < numArms ==>
                ucb[a] == findQ(empMean[a], if roundRobin < numArms then target(t + 2, 2) else target(t + 1, clicks[a]))
      ensures old(ExploredBelowCursorExcept(arm)) ==> ExploredBelowCursor()
      // after alternating pulls and rewards, the per-arm denominator is never 0
      ensures old(ExploredBelowCursorExcept(arm)) && roundRobin >= numArms ==>
                forall a :: 0 <= a < numArms ==> clicks[a] >= 1
    {
      t := t + 1;
      RecordReward(arm, reward);
      RefreshIndices();
    }

    /** The counter and running-mean half of GetReward. */
    method RecordReward(arm: nat, reward: real)
      requires Valid()
      requires arm < numArms
      modifies this`rewards, empMean, clicks
      ensures Valid()
      ensures rewards == old(rewards)[arm := old(rewards)[arm] + [reward]]
      ensures clicks[arm] == old(clicks[arm]) + 1
      ensures empMean[arm] == Mean(rewards[arm])
      ensures forall a :: 0 <= a < numArms && a != arm ==>
                clicks[a] == old(clicks[a]) && empMean[a] == old(empMean[a])
    {
      clicks[arm] := clicks[arm] + 1;
      var n := clicks[arm] as real;
      var value := empMean[arm];
      empMean[arm] := ((n - 1.0) / n) * value + (1.0 / n) * reward;
      MeanAppend(rewards[arm], reward);
      rewards := rewards[arm := rewards[arm] + [reward]];
    }

    /** The index half of GetReward. */
    method RefreshIndices()
      requires Valid()
      modifies ucb
      ensures Valid()
      ensures forall a :: 0 <= a < numArms ==>
                ucb[a] == findQ(empMean[a], if roundRobin < numArms then target(t + 2, 2) else target(t + 1, clicks[a]))
    {
      var i := 0;
      while i < numArms
        invariant 0 <= i <= numArms
        invariant forall a :: 0 <= a < i ==>
                    ucb[a] == findQ(empMean[a], if roundRobin < numArms then target(t + 2, 2) else target(t + 1, clicks[a]))
      {
        if roundRobin < numArms {
          ucb[i] := findQ(empMean[i], target(t + 2, 2));
        } else {
          ucb[i] := findQ(empMean[i], target(t + 1, clicks[i]));
        }
        i := i + 1;
      }
    }
  }

  /** Thompson Sampling over every arm. `draw(a, alpha, beta)` is the Beta
      sample the random source yields for arm `a` in this call. */
  class ThompsonSampling {
    const numArms: nat
    const horizon: int
    const clicks: array<nat>
    const means: array<real>
    const success: array<nat>
    /** Every reward reported for each arm, in order. */
    ghost var rewards: seq<seq<real>>

    ghost predicate Valid()
      reads this, clicks, means, success
    {
      && numArms > 0
      && clicks.Length == numArms && means.Length == numArms && success.Length == numArms
      && clicks != success
      && |rewards| == numArms
      && forall a :: 0 <= a < numArms ==> clicks[a] == |rewards[a]| && success[a] == Successes(rewards[a])
    }

    constructor (numArms: nat, horizon: int)
      requires numArms > 0
      ensures Valid() && fresh(clicks) && fresh(means) && fresh(success)
      ensures this.numArms == numArms && this.horizon == horizon
      ensures means[..] == seq(numArms, a => 0.0)
      ensures rewards == seq(numArms, a => [])
    {
      this.numArms := numArms;
      this.horizon := horizon;
      clicks := new nat[numArms](_ => 0);
      means := new real[numArms](_ => 0.0);
      success := new nat[numArms](_ => 0);
      rewards := seq(numArms, a => []);
    }

    /** Resample every arm's posterior and pull the first best sample. The
        shape parameters 1 + success and 1 + failures are at least 1. */
    method GivePull(draw: (nat, BetaShape, BetaShape) -> real) returns (arm: nat)
      requires Valid()
      modifies means
      ensures Valid()
      ensures forall a :: 0 <= a < numArms ==>
                success[a] <= clicks[a] &&
                means[a] == draw(a, 1 + success[a], 1 + clicks[a] - success[a])
      ensures IsFirstMax(means[..], arm)
    {
      var i := 0;
      while i < numArms
        invariant 0 <= i <= numArms
        invariant forall a :: 0 <= a < i ==> means[a] == draw(a, 1 + success[a], 1 + clicks[a] - success[a])
      {
        means[i] := draw(i, 1 + success[i], 1 + clicks[i] - success[i]);
        i := i + 1;
      }
      arm := ArgMax(means);
    }

    /** Count the pull, and count a success when the reward is 1. */
    method GetReward(arm: nat, reward: real)
      requires Valid()
      requires arm < numArms
      modifies this`rewards, clicks, success
      ensures Valid()
      ensures rewards == old(rewards)[arm := old(rewards)[arm] + [reward]]
      ensures clicks[arm] == old(clicks[arm]) + 1
      ensures success[arm] == old(success[arm]) + (if reward == 1.0 then 1 else 0)
      ensures forall a :: 0 <= a < numArms && a != arm ==>
                clicks[a] == old(clicks[a]) && success[a] == old(success[a])
      ensures forall a :: 0 <= a < numArms ==> success[a] <= clicks[a]
    {
      clicks[arm] := clicks[arm] + 1;
      if reward == 1.0 {
        success[arm] := success[arm] + 1;
      }
      ghost var h := rewards[arm] + [reward];
      assert h[..|h| - 1] == rewards[arm];
      rewards := rewards[arm := h];
    }
  }

  /** A caller that alternates pulls with rewards for the pulled arm sees
      UCB's first `numArms` pulls visit the arms 0, 1, ..., numArms-1 in
      order, whatever the rewards. */
  method UcbForcedExploration(numArms: nat, horizon: int, bonus: (nat, nat) -> real, rewardsFed: seq<real>)
    returns (pulls: seq<nat>)
    requires numArms > 0 && |rewardsFed| == numArms
    ensures pulls == Range(numArms)
  {
    var policy := new Ucb(numArms, horizon, bonus);
    pulls := [];
    var i := 0;
    while i < numArms
      invariant 0 <= i <= numArms
      invariant policy.Valid() && policy.numArms == numArms
      invariant fresh(policy.empMean) && fresh(policy.clicks) && fresh(policy.ucb)
      invariant policy.roundRobin == i
      invariant pulls == Range(i)
    {
      var arm := policy.GivePull();
      policy.GetReward(arm, rewardsFed[i]);
      pulls := pulls + [arm];
      i := i + 1;
    }
  }

  /** The same for KL-UCB; moreover, once the forced exploration is over,
      every arm has been rewarded, so the click counts KL-UCB divides by are
      all at least 1. */
  method KlUcbForcedExploration(numArms: nat, horizon: int, findQ: (real, real) -> real,
                                target: (nat, nat) -> real, rewardsFed: seq<real>)
    returns (pulls: seq<nat>, clicksAfter: seq<nat>)
    requires numArms > 0 && |rewardsFed| == numArms
    ensures pulls == Range(numArms)
    ensures |clicksAfter| == numArms && forall a :: 0 <= a < numArms ==> clicksAfter[a] >= 1
  {
    var policy := new KlUcb(numArms, horizon, findQ, target);
    pulls := [];
    var i := 0;
    while i < numArms
      invariant 0 <= i <= numArms
      invariant policy.Valid() && policy.numArms == numArms
      invariant fresh(policy.empMean) && fresh(policy.clicks) && fresh(policy.ucb)
      invariant policy.roundRobin == i
      invariant policy.ExploredBelowCursor()
      invariant pulls == Range(i)
    {
      var arm := policy.GivePull();
      policy.GetReward(arm, rewardsFed[i]);
      pulls := pulls + [arm];
      i := i + 1;
    }
    clicksAfter := policy.clicks[..];
  }
}
