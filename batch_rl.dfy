/** The batched policy of batch_RL.py: each round commits `batchSize` pulls
    at once, spread cyclically over all arms while an exploration budget
    lasts and given whole to the best empirical arm afterwards; rewards come
    back grouped by arm. */
module BatchRL {
  import opened Stats

  /** The pull counts of one cyclic fill: starting at global position
      `start`, each of `b` pulls goes to arm `position % n`. */
  function CyclicCounts(n: nat, start: nat, b: nat): (c: seq<int>)
    requires n > 0
    ensures |c| == n
  {
    if b == 0 then seq(n, a => 0)
    else
      var prev := CyclicCounts(n, start, b - 1);
      var k := (start + b - 1) % n;
      prev[k := prev[k] + 1]
  }

  /** One cyclic fill hands out exactly `b` pulls. */
  lemma {:induction false} CyclicCountsSum(n: nat, start: nat, b: nat)
    requires n > 0
    ensures SumInts(CyclicCounts(n, start, b)) == b
  {
    if b == 0 {
      ZerosSum(n);
    } else {
      CyclicCountsSum(n, start, b - 1);
      SumIntsIncrement(CyclicCounts(n, start, b - 1), (start + b - 1) % n);
    }
  }

  lemma {:induction false} ZerosSum(n: nat)
    ensures SumInts(seq(n, a => 0)) == 0
  {
    if n > 0 {
      assert seq(n, a => 0)[..n - 1] == seq(n - 1, a => 0);
      ZerosSum(n - 1);
    }
  }

  /** Division with remainder determines quotient and remainder. */
  lemma DivModUnique(x: int, n: int, q: int, r: int)
    requires n > 0 && 0 <= r < n && x == n * q + r
    ensures x / n == q && x % n == r
  {
    var q', r' := x / n, x % n;
    assert x == n * q' + r';
    assert n * (q - q') == r' - r;
    if q - q' >= 1 {
      MulAtLeast(n, q - q');
      assert false;
    } else if q' - q >= 1 {
      MulAtLeast(n, q' - q);
      assert false;
    }
  }

  lemma MulAtLeast(n: int, k: int)
    requires n > 0 && k >= 1
    ensures n * k >= n
  {
  }

  /** The arm at global position start + b sits b % n steps after the arm
      at position start. */
  lemma OffsetOfPosition(n: nat, start: nat, b: nat)
    requires n > 0
    ensures ((start + b) % n - start) % n == b % n
  {
    var p := (start + b) % n;
    var Q := (start + b) / n;
    assert start + b == n * Q + p;
    assert b == n * (b / n) + b % n;
    assert p - start == n * (b / n - Q) + b % n;
    DivModUnique(p - start, n, b / n - Q, b % n);
  }

  /** Distinct arms sit at distinct offsets from the starting arm. */
  lemma OffsetInjective(n: nat, start: nat, a: nat, a': nat)
    requires a < n && a' < n
    requires (a - start) % n == (a' - start) % n
    ensures a == a'
  {
    var r := (a - start) % n;
    var q1, q2 := (a - start) / n, (a' - start) / n;
    assert a - start == n * q1 + r;
    assert a' - start == n * q2 + r;
    assert a - a' == n * (q1 - q2) + 0;
    DivModUnique(a - a', n, q1 - q2, 0);
    if a > a' {
      DivModUnique(a - a', n, 0, a - a');
    } else if a' > a {
      assert a' - a == n * (q2 - q1) + 0;
      DivModUnique(a' - a, n, q2 - q1, 0);
      DivModUnique(a' - a, n, 0, a' - a);
    }
  }

  /** Closed form of a cyclic fill of `b` pulls from position `start`:
      every arm gets b / n pulls, and the b % n arms that follow the
      starting arm cyclically get one more. */
  function CyclicShare(n: nat, start: nat, b: nat, a: nat): int
    requires n > 0
  {
    b / n + (if (a - start) % n < b % n then 1 else 0)
  }

  /** The cyclic fill equals its closed form. */
  lemma {:induction false} CyclicCountsClosedForm(n: nat, start: nat, b: nat, a: nat)
    requires n > 0 && a < n
    ensures CyclicCounts(n, start, b)[a] == CyclicShare(n, start, b, a)
  {
    if b > 0 {
      CyclicCountsClosedForm(n, start, b - 1, a);
      CyclicCountsStep(n, start, b - 1, a);
      CyclicShareStep(n, start, b - 1, a);
    }
  }

  /** One more pull adds one to exactly the arm under the cursor. */
  lemma CyclicCountsStep(n: nat, start: nat, b: nat, a: nat)
    requires n > 0 && a < n
    ensures CyclicCounts(n, start, b + 1)[a]
            == CyclicCounts(n, start, b)[a] + (if a == (start + b) % n then 1 else 0)
  {
  }

  /** The closed form grows by one at exactly the arm under the cursor. */
  lemma CyclicShareStep(n: nat, start: nat, b: nat, a: nat)
    requires n > 0 && a < n
    ensures CyclicShare(n, start, b + 1, a)
            == CyclicShare(n, start, b, a) + (if a == (start + b) % n then 1 else 0)
  {
    OffsetMatchesNext(n, start, b, a);
    var q, r := b / n, b % n;
    assert b == n * q + r;
    StepCount(n, b + 1, q, r, (a - start) % n, a == (start + b) % n);
  }

  /** The arithmetic of one more pull: with b = n * q + r + 1, the arm at
      offset r gains the pull that may complete a full cycle. */
  lemma StepCount(n: int, b: int, q: int, r: int, off: int, isNext: bool)
    requires n > 0 && 0 <= r < n && 0 <= off < n
    requires b - 1 == n * q + r
    requires off == r <==> isNext
    ensures q + (if off < r then 1 else 0) + (if isNext then 1 else 0)
            == b / n + (if off < b % n then 1 else 0)
  {
    if r + 1 < n {
      DivModUnique(b, n, q, r + 1);
    } else {
      assert b == n * (q + 1) + 0;
      DivModUnique(b, n, q + 1, 0);
    }
  }

  /** An arm is the one position start + b falls on exactly when its
      offset from the starting arm is b % n. */
  lemma OffsetMatchesNext(n: nat, start: nat, b: nat, a: nat)
    requires n > 0 && a < n
    ensures (a - start) % n == b % n <==> a == (start + b) % n
  {
    OffsetOfPosition(n, start, b);
    if (a - start) % n == b % n {
      OffsetInjective(n, start, a, (start + b) % n);
    }
  }

  /** One cyclic fill is balanced: any two arms' counts differ by at most
      one, and each is b / n or b / n + 1. */
  lemma CyclicCountsBalanced(n: nat, start: nat, b: nat)
    requires n > 0
    ensures forall a :: 0 <= a < n ==>
              CyclicCounts(n, start, b)[a] == b / n || CyclicCounts(n, start, b)[a] == b / n + 1
    ensures forall a, a' :: 0 <= a < n && 0 <= a' < n ==>
              CyclicCounts(n, start, b)[a] <= CyclicCounts(n, start, b)[a'] + 1
  {
    forall a | 0 <= a < n
      ensures CyclicCounts(n, start, b)[a] == b / n || CyclicCounts(n, start, b)[a] == b / n + 1
    {
      CyclicCountsClosedForm(n, start, b, a);
      assert CyclicShare(n, start, b, a) == b / n || CyclicShare(n, start, b, a) == b / n + 1;
    }
  }

  datatype Error = HorizonNotMultipleOfBatchSize

  datatype Created = Ok(policy: AlgorithmBatched) | Failed(error: Error)

  /** Construction checks that the horizon is a whole number of batches
      and fails otherwise. */
  method NewAlgorithmBatched(numArms: nat, horizon: nat, batchSize: nat) returns (r: Created)
    requires numArms > 0 && batchSize > 0
    ensures r.Failed? <==> horizon % batchSize != 0
    ensures r.Ok? ==> && fresh(r.policy) && fresh(r.policy.counts) && fresh(r.policy.values)
                      && r.policy.Valid()
                      && r.policy.numArms == numArms && r.policy.horizon == horizon
                      && r.policy.batchSize == batchSize
                      && r.policy.explore == 0 && r.policy.idx == 0
                      && r.policy.rewards == seq(numArms, a => [])
  {
    if horizon % batchSize != 0 {
      return Failed(HorizonNotMultipleOfBatchSize);
    }
    var p := new AlgorithmBatched(numArms, horizon, batchSize);
    return Ok(p);
  }

  class AlgorithmBatched {
    const numArms: nat
    const horizon: nat
    const batchSize: nat
    /** Pulls spent exploring so far; exploration lasts while
        explore < sqrt(horizon), i.e. explore * explore < horizon. */
    var explore: nat
    const counts: array<nat>
    const values: array<real>
    /** Global position of the cyclic fill; the next pull goes to idx % numArms. */
    var idx: nat
    /** Every reward reported for each arm, in order. */
    ghost var rewards: seq<seq<real>>

    ghost predicate Valid()
      reads this, counts, values
    {
      && numArms > 0 && batchSize > 0
      && horizon % batchSize == 0
      && counts.Length == numArms && values.Length == numArms
      && |rewards| == numArms
      && forall a :: 0 <= a < numArms ==> counts[a] == |rewards[a]| && values[a] == Mean(rewards[a])
    }

    constructor (numArms: nat, horizon: nat, batchSize: nat)
      requires numArms > 0 && batchSize > 0 && horizon % batchSize == 0
      ensures Valid() && fresh(counts) && fresh(values)
      ensures this.numArms == numArms && this.horizon == horizon && this.batchSize == batchSize
      ensures explore == 0 && idx == 0
      ensures rewards == seq(numArms, a => [])
    {
      this.numArms := numArms;
      this.horizon := horizon;
      this.batchSize := batchSize;
      explore := 0;
      counts := new nat[numArms](_ => 0);
      values := new real[numArms](_ => 0.0);
      idx := 0;
      rewards := seq(numArms, a => []);
    }

    /** Fill the cyclic distribution (advancing idx by batchSize whatever
        happens next); while exploring, return every arm with those counts
        and charge the batch to the budget; afterwards give the whole batch
        to the first arm of best running mean. */
    method GivePull() returns (arms: seq<nat>, pulls: seq<int>)
      requires Valid()
      modifies this`idx, this`explore
      ensures Valid()
      ensures idx == old(idx) + batchSize
      ensures |arms| == |pulls| && SumInts(pulls) == batchSize
      ensures forall k :: 0 <= k < |arms| ==> arms[k] < numArms
      ensures old(explore) * old(explore) < horizon ==>
                && explore == old(explore) + batchSize
                && arms == Range(numArms)
                && pulls == CyclicCounts(numArms, old(idx), batchSize)
      ensures old(explore) * old(explore) >= horizon ==>
                && explore == old(explore)
                && |arms| == 1 && IsFirstMax(values[..], arms[0])
                && pulls == [batchSize]
    {
      var defPull := new int[numArms](_ => 0);
      var i := 0;
      while i < batchSize
        modifies this`idx, defPull
        invariant 0 <= i <= batchSize
        invariant idx == old(idx) + i
        invariant defPull[..] == CyclicCounts(numArms, old(idx), i)
      {
        defPull[idx % numArms] := defPull[idx % numArms] + 1;
        idx := idx + 1;
        i := i + 1;
      }
      CyclicCountsSum(numArms, old(idx), batchSize);
      if explore * explore < horizon {
        explore := explore + batchSize;
        arms := Range(numArms);
        pulls := defPull[..];
      } else {
        var best := ArgMax(values);
        arms := [best];
        pulls := [batchSize];
        assert pulls[..0] == [];
      }
    }

    /** Fold each arm's list of rewards, in list order, into its count and
        running mean. Arms absent from the map are untouched. */
    method GetReward(armRewards: map<nat, seq<real>>)
      requires Valid()
      requires forall k :: k in armRewards ==> k < numArms
      modifies this`rewards, counts, values
      ensures Valid()
      ensures forall a :: 0 <= a < numArms ==>
                rewards[a] == old(rewards[a]) + (if a in armRewards then armRewards[a] else [])
      ensures forall a :: 0 <= a < numArms ==>
                counts[a] == old(counts[a]) + (if a in armRewards then |armRewards[a]| else 0)
      ensures forall a :: 0 <= a < numArms ==> values[a] == Mean(rewards[a])
      ensures forall a :: 0 <= a < numArms && a !in armRewards ==> values[a] == old(values[a])
    {
      var keys := armRewards.Keys;
      while keys != {}
        invariant keys <= armRewards.Keys
        invariant Valid()
        invariant forall a :: 0 <= a < numArms ==>
                    rewards[a] == old(rewards[a]) + (if a in armRewards && a !in keys then armRewards[a] else [])
        decreases keys
      {
        var key :| key in keys;
        AddRewards(key, armRewards[key]);
        keys := keys - {key};
      }
    }

    /** The inner loop of GetReward: one arm's rewards, in order. */
    method AddRewards(key: nat, list: seq<real>)
      requires Valid()
      requires key < numArms
      modifies this`rewards, counts, values
      ensures Valid()
      ensures rewards == old(rewards)[key := old(rewards)[key] + list]
    {
      var j := 0;
      assert old(rewards)[key] + list[..0] == old(rewards)[key];
      while j < |list|
        invariant 0 <= j <= |list|
        invariant Valid()
        invariant rewards == old(rewards)[key := old(rewards)[key] + list[..j]]
      {
        var reward := list[j];
        counts[key] := counts[key] + 1;
        var n := counts[key] as real;
        var value := values[key];
        values[key] := ((n - 1.0) / n) * value + (1.0 / n) * reward;
        MeanAppend(rewards[key], reward);
        assert list[..j + 1] == list[..j] + [reward];
        assert old(rewards)[key] + list[..j + 1] == rewards[key] + [reward];
        rewards := rewards[key := rewards[key] + [reward]];
        j := j + 1;
      }
      assert list[..j] == list;
    }
  }
}
