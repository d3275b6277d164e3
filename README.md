# Multi-armed bandit policies, modelled in Dafny

This project models the decision and bookkeeping logic of a small family of
multi-armed-bandit policies. Each policy chooses which arm to pull
(`give_pull`) and then learns from the reward it gets (`get_reward`):

- `algorithms.py`: epsilon-greedy (the reference running-mean update), UCB,
  KL-UCB and Thompson Sampling. These are modelled in module `Algorithms`.
- `batch_RL.py`: the batched policy `AlgorithmBatched`, modelled in module
  `BatchRL`. Each round it commits `batch_size` pulls at once. While an
  exploration budget lasts it spreads them cyclically over the arms. After
  that it gives the whole batch to the best empirical arm.
- `thompson.py`: `AlgorithmManyArms`, modelled in module `Thompson`. It is
  Thompson Sampling that resamples only the first `floor(sqrt(num_arms))`
  arms. The other entries of `means` are never written and stay 0. Every
  Beta sample is at least 0 and `argmax` breaks ties towards the lowest
  index, so those arms are never pulled.

Module `Stats` holds what the policies share. `Sum` and `Mean` give the
reward average. `Successes` counts rewards equal to 1. `ArgMax` is numpy's
`argmax`, which returns the first maximum.

Every policy is a `class` whose arrays (`clicks`, `emp_mean`, `ucb`,
`means`, `success`, `counts`, `values`) are updated in place. Each class
keeps a ghost history of all rewards reported for each arm. `Valid()` ties
the counters to that history: a click count is the number of rewards for
the arm, a running mean is `Mean` of them, and a success count is
`Successes` of them.

Floating-point quantities are inputs to the model:

- the UCB bonus `sqrt(2 ln c / n)` is a function `bonus(c, n)` fixed at
  construction;
- the KL-UCB confidence target `(ln c + 3 ln ln c) / d` is a function
  `target(c, d)`, and the bisection root `findQ(p, target)` is a function
  `findQ`. Both are fixed at construction;
- each Beta sample is `draw(arm, alpha, beta)`, a function the caller passes
  to each `GivePull`. `BetaShape` is the type of integers that are at least
  1, so the verifier must prove that both Beta parameters are at least 1;
- epsilon-greedy's uniform draw `u` and random arm are passed to its
  `GivePull`;
- `explore < sqrt(horizon)` becomes `explore * explore < horizon`, which is
  equivalent for whole numbers `explore >= 0`;
- `int(math.sqrt(num_arms))` is the integer square root `ISqrt`.

Constructors require `num_arms > 0` and, for the batched policy,
`batch_size > 0`. The Python constructors do not check them; with `num_arms == 0` the first
`give_pull` fails. An arm index passed to `get_reward` must be one that
`give_pull` returns, i.e. in `[0, num_arms)`.

The many-arms policy takes the argmax over all of `means`. The untouched
entries are 0, so the pull always lies in the resampled prefix
(`Thompson.AlgorithmManyArms.GivePull`). The batched constructor's check is
an assertion that raises; here `NewAlgorithmBatched` returns
`Failed(HorizonNotMultipleOfBatchSize)`.

## Model

| member | source | states |
|---|---|---|
| `Stats.ArgMax` | algorithms.py:125 | returns an index in range that holds the maximum, and every lower index holds a strictly smaller value (numpy's first-maximum `argmax`) |
| `Stats.MeanAppend` | algorithms.py:55-60 | the update `((n-1)/n)*value + (1/n)*reward`, with `n` the new count, maps the mean of the old rewards to the mean of the old rewards plus the new one |
| `Stats.MeanBounds` | algorithms.py:133-135 | rewards in [0, 1] keep the running mean in [0, 1] |
| `Stats.SumPermutation` | batch_RL.py:73-79 | two reward lists with the same multiset have the same sum |
| `Stats.MeanPermutation` | batch_RL.py:73-79 | an arm's mean does not depend on the order in which its rewards were reported |
| `Stats.Successes` | algorithms.py:219-221 | the number of rewards equal to 1 never exceeds the number of rewards, so `success <= clicks` |
| `Algorithms.EpsGreedy.constructor` | algorithms.py:42-47 | `eps == 0.1`, all counts and values 0, empty reward histories |
| `Algorithms.EpsGreedy.GivePull` | algorithms.py:49-53 | with draw `u < eps` returns the random arm; otherwise returns the first maximum of `values` |
| `Algorithms.EpsGreedy.GetReward` | algorithms.py:55-60 | `counts[arm]` grows by one, `values[arm]` becomes the mean of all rewards of the arm, no other arm changes |
| `Algorithms.Ucb.constructor` | algorithms.py:103-112 | cursor and count 0, means, clicks and indices 0 |
| `Algorithms.Ucb.GivePull` | algorithms.py:116-125 | while `round_robin < num_arms` returns `round_robin` and advances it by one; afterwards leaves it unchanged and returns the first maximum of `ucb`; always in [0, num_arms) |
| `Algorithms.Ucb.GetReward` | algorithms.py:129-141 | `count` and `clicks[arm]` grow by one, `emp_mean[arm]` is the mean of the arm's rewards, other arms' clicks and means unchanged; every arm with a click gets `emp_mean + bonus(count+1, clicks)`, an arm never pulled keeps index 0 |
| `Algorithms.Ucb.RecordReward` | algorithms.py:132-135 | counter and running-mean update of one arm, no other arm changes |
| `Algorithms.Ucb.RefreshIndices` | algorithms.py:137-141 | recomputes the index of exactly the arms with a click, others keep their index |
| `Algorithms.KlUcb.constructor` | algorithms.py:147-156 | cursor and `t` 0, means and clicks 0, every index 1.0 |
| `Algorithms.KlUcb.GivePull` | algorithms.py:160-168 | exploration returns `round_robin % num_arms`, which is `round_robin` itself, and advances the cursor; afterwards the first maximum of `ucb`; if every arm below the cursor had been rewarded before the pull, then after it every such arm except the pulled one has |
| `Algorithms.KlUcb.GetReward` | algorithms.py:172-187 | `t` and `clicks[arm]` grow by one, running mean of the arm, other arms unchanged; every index is `findQ(mean, target)` with `target(t+2, 2)` while exploring and `target(t+1, clicks[i])` afterwards; when rewards alternate with pulls, the exploit branch sees every click count at least 1 |
| `Algorithms.KlUcb.RecordReward` | algorithms.py:175-178 | counter and running-mean update of one arm, no other arm changes |
| `Algorithms.KlUcb.RefreshIndices` | algorithms.py:181-187 | every arm's index recomputed with the branch chosen by the cursor |
| `Algorithms.UcbForcedExploration` | algorithms.py:116-135 | alternating pulls and arbitrary rewards, UCB's first `num_arms` pulls are 0, 1, ..., num_arms-1 in order |
| `Algorithms.KlUcbForcedExploration` | algorithms.py:160-187 | the same order for KL-UCB, and afterwards every arm's click count is at least 1, so the division at line 186 is defined |
| `Algorithms.ThompsonSampling.constructor` | algorithms.py:192-199 | clicks, means and successes 0 |
| `Algorithms.ThompsonSampling.GivePull` | algorithms.py:205-212 | every arm's sample is drawn with shapes `1+success` and `1+clicks-success` (both at least 1), and the pull is the first maximum of the samples; counters unchanged |
| `Algorithms.ThompsonSampling.GetReward` | algorithms.py:216-221 | `clicks[arm]` grows by one, `success[arm]` grows by one iff the reward is 1, no other arm changes, `success <= clicks` everywhere |
| `BatchRL.CyclicCountsSum` | batch_RL.py:54-59 | the pull counts of one cyclic fill sum to exactly `batch_size` |
| `BatchRL.CyclicCountsClosedForm` | batch_RL.py:54-59 | each arm gets `b / n` pulls, plus one for the `b % n` arms that follow the cursor's arm cyclically |
| `BatchRL.CyclicCountsBalanced` | batch_RL.py:54-59 | each arm's count is `b / n` or `b / n + 1`, so any two differ by at most one |
| `BatchRL.NewAlgorithmBatched` | batch_RL.py:33-45 | construction fails exactly when `horizon % batch_size != 0`; otherwise `explore` and `idx` 0 and all counts and values 0 |
| `BatchRL.AlgorithmBatched.constructor` | batch_RL.py:33-45 | the fields as initialised, given a horizon that is a multiple of the batch size |
| `BatchRL.AlgorithmBatched.GivePull` | batch_RL.py:49-65 | `idx` advances by exactly `batch_size` on every call; while `explore * explore < horizon` returns every arm with the cyclic counts and adds `batch_size` to `explore`; afterwards `explore` is unchanged and the result is `([first maximum of values], [batch_size])`; pull counts always sum to `batch_size` |
| `BatchRL.AlgorithmBatched.GetReward` | batch_RL.py:70-79 | each arm's history is extended by its list, `counts[k]` grows by the list length, arms absent from the map are untouched, and each mean is the mean of every reward ever reported for the arm |
| `BatchRL.AlgorithmBatched.AddRewards` | batch_RL.py:74-79 | one arm's list folded in order into its count and running mean |
| `Thompson.ISqrt` | thompson.py:39 | `r * r <= n < (r + 1) * (r + 1)`: the floor of the square root |
| `Thompson.AlgorithmManyArms.constructor` | thompson.py:29-34 | clicks, means and successes 0; the horizon is not stored |
| `Thompson.AlgorithmManyArms.GivePull` | thompson.py:36-42 | only `means[0 .. ISqrt(num_arms)-1]` are resampled, with shapes at least 1; all later entries keep their value, which is always 0; the pull is the first maximum of `means`, and lies in the resampled prefix whenever no draw is negative (Beta samples lie in [0, 1]) |
| `Thompson.AlgorithmManyArms.GetReward` | thompson.py:48-53 | `clicks[arm]` grows by one, `success[arm]` grows by one iff the reward is 1, no other arm changes, `success <= clicks` everywhere |

## Left out

- `kl` and `findQ` (algorithms.py:65-97) are floating-point functions and are not modelled. `findQ` appears only as the opaque function `KlUcb.findQ`. Its bisection loop has no iteration cap, and its exit test at line 96 applies `abs` to a comparison. Whether it terminates depends on float behaviour.
- The UCB bonus and the KL-UCB target are float expressions of the counters. They appear as the opaque functions `Ucb.bonus` and `KlUcb.target`, and their numeric properties are not modelled.
- Random draws (`np.random.beta`, `np.random.random`, `np.random.randint`) are inputs. The model says nothing about their distribution, so the statistical convergence of Thompson Sampling is not modelled.
- Float rounding is not modelled. Means are exact reals. `explore < sqrt(horizon)` is the exact comparison `explore * explore < horizon`, and `int(math.sqrt(n))` is the exact integer square root. The float forms can differ from these only for very large values.
- The `Algorithm` base class (algorithms.py:29-38) only raises `NotImplementedError`.
- numpy's wrap-around of negative indices is not modelled: arm indices are natural numbers below `num_arms`.
- Python dictionary iteration order in `AlgorithmBatched.get_reward` is not modelled. The model picks the keys in an arbitrary order. Each key touches only its own arm, so every order gives the same final state.
- `Ucb.count` and `KlUcb.t` are stated to grow by one per reward. They are not tied to the total of the click counts.
- BatchRL.NewAlgorithmBatched: `batch_size == 0` (a `ZeroDivisionError` at batch_RL.py:37) and a negative horizon (a `ValueError` from `math.sqrt` at batch_RL.py:42) are not modelled. Neither is a negative batch size that divides the horizon, such as `AlgorithmBatched(n, 4, -2)`: it passes the assertion at batch_RL.py:37, `range(batch_size)` at line 55 is empty, and `explore += batch_size` at line 62 makes `explore` shrink, so the policy explores for ever. `requires batchSize > 0` and the types `horizon: nat` and `batchSize: nat` exclude these inputs, so only the multiple-of-batch-size failure is an error result.
- The simulator, regret computation, plotting and argument parsing are not part of this model.
