/** The longest-predicted-first shard assignment of the parallel pytest runner, as a pure
    specification: `Greedy` names, for every module in scheduling order, the shard it joins.

    Loads are exact nonnegative reals; the runner keeps them as binary floats. */
module ShardScheduling {

  /** `place[i]` is the shard of job `i`; the load of shard `s` is the sum of its jobs. */
  function Load(p: seq<real>, place: seq<nat>, s: nat): real
    requires |p| == |place|
  {
    if |p| == 0 then 0.0
    else
      var n := |p| - 1;
      Load(p[..n], place[..n], s) + if place[n] == s then p[n] else 0.0
  }

  function Count(place: seq<nat>, s: nat): nat {
    if |place| == 0 then 0
    else Count(place[..|place| - 1], s) + if place[|place| - 1] == s then 1 else 0
  }

  function Sum(p: seq<real>): real {
    if |p| == 0 then 0.0 else Sum(p[..|p| - 1]) + p[|p| - 1]
  }

  /** The index chosen by `min` over the key `(load, index)`: the first least load. */
  function LeastLoaded(loads: seq<real>): (r: nat)
    requires |loads| > 0
    ensures r < |loads|
    ensures forall i | 0 <= i < |loads| :: loads[r] <= loads[i]
    ensures forall i | 0 <= i < r :: loads[r] < loads[i]
  {
    if |loads| == 1 then 0
    else
      var n := |loads| - 1;
      var r := LeastLoaded(loads[..n]);
      if loads[n] < loads[r] then n else r
  }

  function Loads(p: seq<real>, place: seq<nat>, m: nat): (loads: seq<real>)
    requires |p| == |place|
  {
    seq(m, s requires 0 <= s => Load(p, place, s))
  }

  function Greedy(p: seq<real>, m: nat): (place: seq<nat>)
    requires m > 0
    ensures |place| == |p|
    ensures forall i | 0 <= i < |place| :: place[i] < m
  {
    if |p| == 0 then []
    else
      var before := Greedy(p[..|p| - 1], m);
      before + [LeastLoaded(Loads(p[..|p| - 1], before, m))]
  }

  ghost predicate Nonnegative(p: seq<real>) {
    forall i | 0 <= i < |p| :: p[i] >= 0.0
  }

  ghost predicate Descending(p: seq<real>) {
    forall i, j | 0 <= i <= j < |p| :: p[j] <= p[i]
  }

  /** A schedule on `m` shards none of whose loads exceeds `cap`. */
  ghost predicate Within(p: seq<real>, place: seq<nat>, m: nat, cap: real)
    requires |p| == |place|
  {
    && (forall i | 0 <= i < |place| :: place[i] < m)
    && (forall s | 0 <= s < m :: Load(p, place, s) <= cap)
  }

  /** `m * x` by repeated addition, which keeps the bounds below linear. */
  ghost function Times(m: nat, x: real): real {
    if m == 0 then 0.0 else Times(m - 1, x) + x
  }

  lemma {:induction false} TimesIsProduct(m: nat, x: real)
    ensures Times(m, x) == m as real * x
  {
    if m > 0 {
      TimesIsProduct(m - 1, x);
    }
  }

  lemma {:induction false} TimesAdd(m: nat, x: real, y: real)
    ensures Times(m, x + y) == Times(m, x) + Times(m, y)
  {
    if m > 0 {
      TimesAdd(m - 1, x, y);
    }
  }

  lemma {:induction false} TimesMonotone(m: nat, x: real, y: real)
    requires x <= y
    ensures Times(m, x) <= Times(m, y)
  {
    if m > 0 {
      TimesMonotone(m - 1, x, y);
    }
  }

  // ---- Loads ------------------------------------------------------------------------------

  function SumOfLoads(p: seq<real>, place: seq<nat>, m: nat): real
    requires |p| == |place|
  {
    if m == 0 then 0.0 else SumOfLoads(p, place, m - 1) + Load(p, place, m - 1)
  }

  lemma {:induction false} SumOfLoadsStep(p: seq<real>, place: seq<nat>, m: nat)
    requires |p| == |place| > 0
    ensures var n := |p| - 1;
            SumOfLoads(p, place, m) ==
            SumOfLoads(p[..n], place[..n], m) + if place[n] < m then p[n] else 0.0
  {
    if m > 0 {
      SumOfLoadsStep(p, place, m - 1);
    }
  }

  lemma {:induction false} EmptyLoads(m: nat)
    ensures SumOfLoads([], [], m) == 0.0
  {
    if m > 0 {
      EmptyLoads(m - 1);
    }
  }

  /** Conservation: the shard loads always add up to the total predicted time. */
  lemma {:induction false} LoadsConserveTotal(p: seq<real>, place: seq<nat>, m: nat)
    requires |p| == |place|
    requires forall i | 0 <= i < |place| :: place[i] < m
    ensures SumOfLoads(p, place, m) == Sum(p)
  {
    if |p| == 0 {
      assert p == [] && place == [];
      EmptyLoads(m);
    } else {
      SumOfLoadsStep(p, place, m);
      LoadsConserveTotal(p[..|p| - 1], place[..|p| - 1], m);
    }
  }

  lemma {:induction false} SumOfLoadsAtMost(p: seq<real>, place: seq<nat>, m: nat, cap: real)
    requires |p| == |place|
    requires forall s | 0 <= s < m :: Load(p, place, s) <= cap
    ensures SumOfLoads(p, place, m) <= Times(m, cap)
  {
    if m > 0 {
      SumOfLoadsAtMost(p, place, m - 1, cap);
    }
  }

  lemma {:induction false} SumOfLoadsAtLeast(p: seq<real>, place: seq<nat>, m: nat, floor: real)
    requires |p| == |place|
    requires forall s | 0 <= s < m :: floor <= Load(p, place, s)
    ensures Times(m, floor) <= SumOfLoads(p, place, m)
  {
    if m > 0 {
      SumOfLoadsAtLeast(p, place, m - 1, floor);
    }
  }

  lemma {:induction false} LoadAtLeastJob(p: seq<real>, place: seq<nat>, i: nat)
    requires |p| == |place| && Nonnegative(p) && i < |p|
    ensures p[i] <= Load(p, place, place[i])
  {
    var n := |p| - 1;
    if i < n {
      LoadAtLeastJob(p[..n], place[..n], i);
    } else {
      LoadNonnegative(p[..n], place[..n], place[n]);
    }
  }

  lemma {:induction false} LoadNonnegative(p: seq<real>, place: seq<nat>, s: nat)
    requires |p| == |place| && Nonnegative(p)
    ensures 0.0 <= Load(p, place, s)
  {
    if |p| > 0 {
      LoadNonnegative(p[..|p| - 1], place[..|p| - 1], s);
    }
  }

  lemma {:induction false} LoadAtLeastPair(p: seq<real>, place: seq<nat>, i: nat, k: nat)
    requires |p| == |place| && Nonnegative(p) && i < k < |p| && place[i] == place[k]
    ensures p[i] + p[k] <= Load(p, place, place[i])
  {
    var n := |p| - 1;
    if k < n {
      LoadAtLeastPair(p[..n], place[..n], i, k);
    } else {
      LoadAtLeastJob(p[..n], place[..n], i);
    }
  }

  /** If every job on `s` has size `c`, the load is `c` times the number of jobs. */
  lemma {:induction false} UniformLoad(p: seq<real>, place: seq<nat>, s: nat, c: real)
    requires |p| == |place|
    requires forall i | 0 <= i < |p| && place[i] == s :: p[i] == c
    ensures Load(p, place, s) == c * Count(place, s) as real
  {
    if |p| > 0 {
      UniformLoad(p[..|p| - 1], place[..|p| - 1], s, c);
    }
  }

  /** Jobs larger than a third of `cap` fill a shard faster than `cap / 3` per job. */
  lemma {:induction false} LargeJobsFill(p: seq<real>, place: seq<nat>, s: nat, cap: real)
    requires |p| == |place|
    requires forall i | 0 <= i < |p| :: cap < 3.0 * p[i]
    ensures cap * Count(place, s) as real <= 3.0 * Load(p, place, s)
    ensures Count(place, s) > 0 ==> cap * Count(place, s) as real < 3.0 * Load(p, place, s)
  {
    if |p| > 0 {
      LargeJobsFill(p[..|p| - 1], place[..|p| - 1], s, cap);
    }
  }

  lemma {:induction false} OneJobOn(place: seq<nat>, s: nat) returns (i: nat)
    requires Count(place, s) >= 1
    ensures i < |place| && place[i] == s
  {
    if place[|place| - 1] == s {
      i := |place| - 1;
    } else {
      i := OneJobOn(place[..|place| - 1], s);
    }
  }

  lemma {:induction false} TwoJobsOn(place: seq<nat>, s: nat) returns (i: nat, k: nat)
    requires Count(place, s) >= 2
    ensures i < k < |place| && place[i] == place[k] == s
  {
    if place[|place| - 1] == s {
      k := |place| - 1;
      i := OneJobOn(place[..k], s);
    } else {
      i, k := TwoJobsOn(place[..|place| - 1], s);
    }
  }

  lemma {:induction false} EmptyShardLoad(p: seq<real>, place: seq<nat>, s: nat)
    requires |p| == |place| && Count(place, s) == 0
    ensures Load(p, place, s) == 0.0
  {
    if |p| > 0 {
      EmptyShardLoad(p[..|p| - 1], place[..|p| - 1], s);
    }
  }

  // ---- The approximation bound ------------------------------------------------------------

  /** The load of the shard chosen for the last job, before the job is added. */
  function LeastLoadBefore(p: seq<real>, m: nat): real
    requires m > 0 && |p| > 0
  {
    Load(p[..|p| - 1], Greedy(p[..|p| - 1], m), Greedy(p, m)[|p| - 1])
  }

  lemma GreedyUnfold(p: seq<real>, m: nat)
    requires m > 0 && |p| > 0
    ensures var before := p[..|p| - 1];
            && Greedy(p, m)[..|p| - 1] == Greedy(before, m)
            && forall s | 0 <= s < m :: LeastLoadBefore(p, m) <= Load(before, Greedy(before, m), s)
  {
    var before := p[..|p| - 1];
    var loads := Loads(before, Greedy(before, m), m);
    forall s | 0 <= s < m
      ensures LeastLoadBefore(p, m) <= Load(before, Greedy(before, m), s)
    {
      assert loads[s] == Load(before, Greedy(before, m), s);
      assert loads[LeastLoaded(loads)] <= loads[s];
    }
  }

  /** List scheduling: the shard that takes the last job is at most the average plus the job's
      own excess over its share. */
  lemma LastPlacementBound(p: seq<real>, m: nat)
    requires m > 0 && |p| > 0
    ensures var last := p[|p| - 1];
            Times(m, LeastLoadBefore(p, m) + last) <= Sum(p) + Times(m - 1, last)
  {
    var before := p[..|p| - 1];
    GreedyUnfold(p, m);
    SumOfLoadsAtLeast(before, Greedy(before, m), m, LeastLoadBefore(p, m));
    LoadsConserveTotal(before, Greedy(before, m), m);
    TimesAdd(m, LeastLoadBefore(p, m), p[|p| - 1]);
  }

  /** The weight that makes every greedy shard weigh exactly two: a job alone on its shard
      counts twice. */
  ghost function Weights(place: seq<nat>): (w: seq<real>)
    ensures |w| == |place|
  {
    seq(|place|, i requires 0 <= i < |place| => if Count(place, place[i]) == 1 then 2.0 else 1.0)
  }

  lemma {:induction false} SumAppend(p: seq<real>, x: real)
    ensures Sum(p + [x]) == Sum(p) + x
  {
    assert (p + [x])[..|p|] == p;
  }

  /** Counting: if all jobs exceed a third of `cap`, the greedy shards of the earlier jobs hold
      one or two jobs each and none has room for the last job, then no schedule within `cap`
      exists. */
  lemma NoRoomMeansInfeasible(p: seq<real>, m: nat, other: seq<nat>, cap: real)
    requires m > 0 && |p| > 0 && |other| == |p| && Descending(p) && Nonnegative(p)
    requires Within(p, other, m, cap)
    requires forall i | 0 <= i < |p| :: cap < 3.0 * p[i]
    requires Within(p[..|p| - 1], Greedy(p[..|p| - 1], m), m, cap)
    ensures LeastLoadBefore(p, m) + p[|p| - 1] <= cap
  {
    hide Load, Weights;
    var n := |p| - 1;
    var before, place := p[..n], Greedy(p[..n], m);
    LoadAtLeastJob(p, other, n);
    if cap < LeastLoadBefore(p, m) + p[n] {
      GreedyUnfold(p, m);
      forall s | 0 <= s < m
        ensures 1 <= Count(place, s) <= 2
      {
        if Count(place, s) == 0 {
          EmptyShardLoad(before, place, s);
        }
        AtMostTwo(before, place, s, cap);
      }
      GreedyWeight(place, m);
      var w := Weights(place) + [1.0];
      SumAppend(Weights(place), 1.0);
      forall s | 0 <= s < m
        ensures Load(w, other, s) <= 2.0
      {
        OtherWeight(p, m, place, other, cap, s);
      }
      SumOfLoadsAtMost(w, other, m, 2.0);
      LoadsConserveTotal(w, other, m);
      assert false;
    }
  }

  lemma AtMostTwo(p: seq<real>, place: seq<nat>, s: nat, cap: real)
    requires |p| == |place| && cap > 0.0
    requires forall i | 0 <= i < |p| :: cap < 3.0 * p[i]
    requires Load(p, place, s) <= cap
    ensures Count(place, s) <= 2
  {
    LargeJobsFill(p, place, s, cap);
    if Count(place, s) > 0 {
      FactorBelow(cap, Count(place, s) as real, 3.0);
    }
  }

  lemma FactorBelow(c: real, x: real, y: real)
    requires c > 0.0 && c * x < c * y
    ensures x < y
  {
    assert c * (y - x) > 0.0;
  }

  lemma GreedyWeight(place: seq<nat>, m: nat)
    requires forall i | 0 <= i < |place| :: place[i] < m
    requires forall s | 0 <= s < m :: 1 <= Count(place, s) <= 2
    ensures Sum(Weights(place)) == Times(m, 2.0)
  {
    var w := Weights(place);
    forall s | 0 <= s < m
      ensures Load(w, place, s) == 2.0
    {
      GreedyShardWeight(place, s);
    }
    SumOfLoadsAtMost(w, place, m, 2.0);
    SumOfLoadsAtLeast(w, place, m, 2.0);
    LoadsConserveTotal(w, place, m);
  }

  lemma GreedyShardWeight(place: seq<nat>, s: nat)
    requires 1 <= Count(place, s) <= 2
    ensures Load(Weights(place), place, s) == 2.0
  {
    UniformLoad(Weights(place), place, s, if Count(place, s) == 1 then 2.0 else 1.0);
  }

  ghost predicate NoRoom(p: seq<real>, place: seq<nat>, m: nat, room: real)
    requires |p| == |place|
  {
    forall t | 0 <= t < m :: room < Load(p, place, t)
  }

  lemma OtherWeight(p: seq<real>, m: nat, place: seq<nat>, other: seq<nat>, cap: real, s: nat)
    requires |p| > 0 && |other| == |p| && |place| == |p| - 1 && s < m
    requires Descending(p) && Nonnegative(p) && cap > 0.0
    requires Within(p, other, m, cap)
    requires forall i | 0 <= i < |p| :: cap < 3.0 * p[i]
    requires NoRoom(p[..|p| - 1], place, m, cap - p[|p| - 1])
    requires forall i | 0 <= i < |place| :: place[i] < m
    ensures Load(Weights(place) + [1.0], other, s) <= 2.0
  {
    var n := |p| - 1;
    var w := Weights(place) + [1.0];
    if i :| 0 <= i < n && other[i] == s && w[i] == 2.0 {
      // Job i is alone on its greedy shard, so it leaves no room for any other job.
      AloneIsLarge(p[..n], place, i);
      forall k | 0 <= k < |p| && other[k] == s
        ensures k == i
      {
        if k < i {
          LoadAtLeastPair(p, other, k, i);
        } else if i < k {
          LoadAtLeastPair(p, other, i, k);
        }
      }
      if Count(other, s) >= 2 {
        var a, b := TwoJobsOn(other, s);
      }
      UniformLoad(w, other, s, 2.0);
    } else {
      UniformLoad(w, other, s, 1.0);
      AtMostTwo(p, other, s, cap);
    }
  }

  lemma AloneIsLarge(p: seq<real>, place: seq<nat>, i: nat)
    requires |p| == |place| && i < |p| && Count(place, place[i]) == 1
    ensures Load(p, place, place[i]) == p[i]
  {
    forall k | 0 <= k < |p| && place[k] == place[i]
      ensures p[k] == p[i]
    {
      if k < i {
        CountPair(place, k, i);
      } else if i < k {
        CountPair(place, i, k);
      }
    }
    UniformLoad(p, place, place[i], p[i]);
  }

  lemma {:induction false} CountPair(place: seq<nat>, i: nat, k: nat)
    requires i < k < |place| && place[i] == place[k]
    ensures Count(place, place[i]) >= 2
  {
    var n := |place| - 1;
    if k < n {
      CountPair(place[..n], i, k);
    } else {
      CountPositive(place[..n], i);
    }
  }

  lemma {:induction false} CountPositive(place: seq<nat>, i: nat)
    requires i < |place|
    ensures Count(place, place[i]) >= 1
  {
    if i < |place| - 1 {
      CountPositive(place[..|place| - 1], i);
    }
  }

  lemma WithinPrefix(p: seq<real>, place: seq<nat>, m: nat, cap: real)
    requires |p| == |place| > 0 && Nonnegative(p) && Within(p, place, m, cap)
    ensures Within(p[..|p| - 1], place[..|p| - 1], m, cap)
  {
    var p', place' := p[..|p| - 1], place[..|p| - 1];
    forall s | 0 <= s < m
      ensures Load(p', place', s) <= cap
    {
      assert Load(p, place, s) <= cap;
    }
  }

  /** When every job exceeds a third of some achievable maximum load, the greedy schedule is
      itself within that maximum: it is optimal. */
  lemma {:induction false} LargeJobsOptimal(p: seq<real>, m: nat, other: seq<nat>, cap: real)
    requires m > 0 && |other| == |p| && Descending(p) && Nonnegative(p)
    requires Within(p, other, m, cap) && 0.0 <= cap
    requires forall i | 0 <= i < |p| :: cap < 3.0 * p[i]
    ensures Within(p, Greedy(p, m), m, cap)
  {
    if |p| > 0 {
      var n := |p| - 1;
      WithinPrefix(p, other, m, cap);
      LargeJobsOptimal(p[..n], m, other[..n], cap);
      NoRoomMeansInfeasible(p, m, other, cap);
      GreedyUnfold(p, m);
    }
  }

  lemma {:induction false} GrahamTimes(p: seq<real>, m: nat, other: seq<nat>, cap: real, s: nat)
    requires m > 0 && |other| == |p| && Descending(p) && Nonnegative(p) && s < m
    requires Within(p, other, m, cap) && 0.0 <= cap
    ensures 3.0 * Times(m, Load(p, Greedy(p, m), s)) <= 4.0 * Times(m, cap) - cap
  {
    hide Greedy;
    TimesMonotone(m - 1, 0.0, cap);
    TimesAdd(m - 1, 0.0, 0.0);
    if |p| > 0 {
      var n := |p| - 1;
      GreedyUnfold(p, m);
      WithinPrefix(p, other, m, cap);
      if s != Greedy(p, m)[n] {
        GrahamTimes(p[..n], m, other[..n], cap, s);
      } else if 3.0 * p[n] <= cap {
        LastPlacementBound(p, m);
        LoadsConserveTotal(p, other, m);
        SumOfLoadsAtMost(p, other, m, cap);
        TimesThird(m - 1, p[n], cap);
      } else {
        LargeJobsOptimal(p, m, other, cap);
        TimesMonotone(m, Load(p, Greedy(p, m), s), cap);
      }
    }
  }

  lemma {:induction false} TimesThird(m: nat, x: real, cap: real)
    requires 3.0 * x <= cap
    ensures 3.0 * Times(m, x) <= Times(m, cap)
  {
    if m > 0 {
      TimesThird(m - 1, x, cap);
    }
  }

  /** Graham's bound: the greedy schedule's largest load is at most 4/3 - 1/(3m) times the largest
      load of any other assignment of the same modules to the same number of shards. */
  lemma GrahamBound(p: seq<real>, m: nat, other: seq<nat>, cap: real, s: nat)
    requires m > 0 && |other| == |p| && Descending(p) && Nonnegative(p) && s < m
    requires Within(p, other, m, cap)
    ensures Load(p, Greedy(p, m), s) <= (4.0 / 3.0 - 1.0 / (3.0 * m as real)) * cap
  {
    LoadNonnegative(p, other, s);
    GrahamTimes(p, m, other, cap, s);
    TimesToRatio(m, Load(p, Greedy(p, m), s), cap);
  }

  lemma TimesToRatio(m: nat, load: real, cap: real)
    requires m > 0 && 3.0 * Times(m, load) <= 4.0 * Times(m, cap) - cap
    ensures load <= (4.0 / 3.0 - 1.0 / (3.0 * m as real)) * cap
  {
    TimesIsProduct(m, load);
    TimesIsProduct(m, cap);
    DivideBound(m as real, load, cap);
  }

  lemma DivideBound(m: real, load: real, cap: real)
    requires m >= 1.0 && 3.0 * (m * load) <= 4.0 * (m * cap) - cap
    ensures load <= (4.0 / 3.0 - 1.0 / (3.0 * m)) * cap
  {
    var factor := 4.0 / 3.0 - 1.0 / (3.0 * m);
    assert 3.0 * m * (1.0 / (3.0 * m)) == 1.0;
    assert 3.0 * m * factor == 4.0 * m - 1.0;
    assert 3.0 * m * (factor * cap) == (3.0 * m * factor) * cap;
    if factor * cap < load {
      assert 3.0 * m * (load - factor * cap) > 0.0;
    }
  }

  // ---- Which shards receive a module ------------------------------------------------------

  lemma {:induction false} GreedyPrefix(p: seq<real>, m: nat, j: nat)
    requires m > 0 && j <= |p|
    ensures Greedy(p, m)[..j] == Greedy(p[..j], m)
  {
    if j < |p| {
      var n := |p| - 1;
      GreedyPrefix(p[..n], m, j);
      assert p[..n][..j] == p[..j];
      assert Greedy(p, m)[..j] == Greedy(p, m)[..n][..j];
    } else {
      assert p[..j] == p;
    }
  }

  lemma ChoiceAt(p: seq<real>, m: nat, k: nat)
    requires m > 0 && k < |p|
    ensures Greedy(p, m)[k] == LeastLoaded(Loads(p[..k], Greedy(p, m)[..k], m))
  {
    GreedyPrefix(p, m, k + 1);
    GreedyPrefix(p, m, k);
    assert p[..k + 1][..k] == p[..k];
    assert Greedy(p, m)[k] == Greedy(p, m)[..k + 1][k];
  }

  /** While predictions are positive, the first `m` modules open the shards in index order. */
  lemma {:induction false} FirstPlacements(p: seq<real>, m: nat, k: nat)
    requires m > 0 && k < |p| && k < m
    requires forall i | 0 <= i < k :: p[i] > 0.0
    ensures Greedy(p, m)[k] == k
    decreases k
  {
    forall i | 0 <= i < k
      ensures Greedy(p, m)[i] == i
    {
      FirstPlacements(p, m, i);
    }
    var place := Greedy(p, m)[..k];
    var loads := Loads(p[..k], place, m);
    forall s | 0 <= s < m
      ensures s < k ==> loads[s] > 0.0
      ensures s >= k ==> loads[s] == 0.0
    {
      IdentityLoad(p[..k], place, s);
    }
    assert loads[k] == 0.0;
    ChoiceAt(p, m, k);
  }

  lemma {:induction false} IdentityLoad(p: seq<real>, place: seq<nat>, s: nat)
    requires |p| == |place| && forall i | 0 <= i < |p| :: place[i] == i
    ensures Load(p, place, s) == if s < |p| then p[s] else 0.0
  {
    if |p| > 0 {
      IdentityLoad(p[..|p| - 1], place[..|p| - 1], s);
    }
  }

  /** From the first zero prediction on, every module joins the shard that module opened. */
  lemma {:induction false} ZeroTail(p: seq<real>, m: nat, k: nat, j: nat)
    requires m > 0 && k <= j < |p| && k < m
    requires forall i | 0 <= i < k :: p[i] > 0.0
    requires forall i | k <= i < |p| :: p[i] == 0.0
    ensures Greedy(p, m)[j] == k
    decreases j
  {
    var place := Greedy(p, m)[..j];
    var loads := Loads(p[..j], place, m);
    forall i | 0 <= i < j
      ensures place[i] == if i < k then i else k
    {
      if i < k {
        FirstPlacements(p, m, i);
      } else {
        ZeroTail(p, m, k, i);
      }
    }
    forall s | 0 <= s < m
      ensures s < k ==> loads[s] > 0.0
      ensures s >= k ==> loads[s] == 0.0
    {
      TailLoad(p[..j], place, k, s);
    }
    assert loads[k] == 0.0;
    ChoiceAt(p, m, j);
  }

  lemma {:induction false} TailLoad(p: seq<real>, place: seq<nat>, k: nat, s: nat)
    requires |p| == |place| && k <= |p|
    requires forall i | 0 <= i < |p| :: place[i] == if i < k then i else k
    requires forall i | k <= i < |p| :: p[i] == 0.0
    ensures Load(p, place, s) == if s < k then p[s] else 0.0
  {
    if |p| > k {
      TailLoad(p[..|p| - 1], place[..|p| - 1], k, s);
    } else {
      IdentityLoad(p, place, s);
    }
  }

  /** The number of leading positive predictions. */
  ghost function PositiveCount(p: seq<real>): (k: nat)
    ensures k <= |p| && forall i | 0 <= i < k :: p[i] > 0.0
    ensures k < |p| ==> p[k] <= 0.0
  {
    if |p| == 0 || p[0] <= 0.0 then 0
    else
      var k := PositiveCount(p[1..]);
      assert forall i | 0 < i < k + 1 :: p[i] == p[1..][i - 1];
      k + 1
  }

  /** Exactly which shards are populated: shard `s` receives a module if and only if there are
      more than `s` modules and the `s` largest predictions are positive. */
  lemma PopulatedShards(p: seq<real>, m: nat, s: nat)
    requires m > 0 && s < m && Descending(p) && Nonnegative(p)
    ensures s in Greedy(p, m) <==> s < |p| && forall k | 0 <= k < s :: p[k] > 0.0
  {
    var k := PositiveCount(p);
    if s < |p| && s <= k {
      FirstPlacements(p, m, s);
      assert Greedy(p, m)[s] == s;
    } else {
      forall i | 0 <= i < |p|
        ensures Greedy(p, m)[i] < s
      {
        PlacedBelow(p, m, s, k, i);
      }
      assert s < |p| ==> p[k] <= 0.0;
    }
  }

  lemma PlacedBelow(p: seq<real>, m: nat, s: nat, k: nat, i: nat)
    requires m > 0 && s < m && i < |p| && Descending(p) && Nonnegative(p)
    requires k == PositiveCount(p) && (s < |p| ==> k < s)
    ensures Greedy(p, m)[i] < s
  {
    if i < k || k == |p| {
      FirstPlacements(p, m, i);
    } else {
      assert forall j | k <= j < |p| :: p[j] <= p[k];
      ZeroTail(p, m, k, i);
    }
  }
}
