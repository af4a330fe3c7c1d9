/** Module selection in the parallel pytest runner: predictions from the timing cache, the
    scheduling order, the in-place assignment loop and the shard a process finally runs. */
module ShardRunner {
  import opened ShardScheduling
  import Lexicographic

  datatype TestModule = TestModule(path: string, predicted: real)

  /** A test file as discovered: its repository-relative path and its size in bytes. */
  datatype TestFile = TestFile(path: string, size: nat)

  /** A value of the decoded timing-cache document; everything that is not exactly a Python
      `int` or `float` is `Other`. */
  datatype CacheValue = Number(value: real) | Other

  datatype CliError =
    | ShardCountNotPositive
    | ShardIndexOutOfRange
    | NoModulesDiscovered
    | SelectedShardEmpty

  datatype Selection = Selected(modules: seq<TestModule>) | Rejected(error: CliError)

  // ---- Predictions ------------------------------------------------------------------------

  function ReadTimings(payload: map<string, CacheValue>): (timings: map<string, real>)
    ensures forall path | path in timings ::
              path in payload && payload[path] == Number(timings[path]) && timings[path] >= 0.0
    ensures forall path | path in payload ::
              payload[path].Number? && payload[path].value >= 0.0 ==> path in timings
  {
    map path | path in payload && payload[path].Number? && payload[path].value >= 0.0
      :: payload[path].value
  }

  predicate Usable(payload: map<string, CacheValue>, path: string) {
    path in payload && payload[path].Number? && payload[path].value >= 0.0
  }

  /** The loop over the cache items, in any order. */
  method CollectTimings(payload: map<string, CacheValue>) returns (timings: map<string, real>)
    ensures timings == ReadTimings(payload)
  {
    timings := map[];
    var pending := payload.Keys;
    while pending != {}
      invariant pending <= payload.Keys
      invariant timings == map path | path in payload && path !in pending && Usable(payload, path) :: payload[path].value
    {
      var path :| path in pending;
      if Usable(payload, path) {
        timings := timings[path := payload[path].value];
      }
      pending := pending - {path};
    }
  }

  function Predict(timings: map<string, real>, file: TestFile): TestModule {
    TestModule(file.path,
               if file.path in timings then timings[file.path] else file.size as real / 1000.0)
  }

  function PredictAll(payload: map<string, CacheValue>, files: seq<TestFile>): (r: seq<TestModule>)
    ensures |r| == |files|
    ensures forall i | 0 <= i < |r| :: r[i].path == files[i].path && r[i].predicted >= 0.0
    ensures forall i | 0 <= i < |r| :: if Usable(payload, files[i].path) then payload[files[i].path] == Number(r[i].predicted)
                                       else r[i].predicted * 1000.0 == files[i].size as real
  {
    var timings := ReadTimings(payload);
    seq(|files|, i requires 0 <= i < |files| => Predict(timings, files[i]))
  }

  function Predictions(ms: seq<TestModule>): (p: seq<real>)
    ensures |p| == |ms| && forall i | 0 <= i < |p| :: p[i] == ms[i].predicted
  {
    seq(|ms|, i requires 0 <= i < |ms| => ms[i].predicted)
  }

  // ---- The scheduling order ---------------------------------------------------------------

  /** Python's order on strings. */
  predicate LexLeq(a: string, b: string) {
    Lexicographic.Leq(Lexicographic.Codes(a), Lexicographic.Codes(b))
  }

  /** The key `(-predicted, path)`. */
  predicate Precedes(a: TestModule, b: TestModule) {
    a.predicted > b.predicted || (a.predicted == b.predicted && LexLeq(a.path, b.path))
  }

  /** Larger predictions first; on a tie the path that is a prefix of the other or has the smaller
      character where they first differ. */
  lemma PrecedesIff(a: TestModule, b: TestModule)
    ensures Precedes(a, b) <==>
            || a.predicted > b.predicted
            || (a.predicted == b.predicted
                && (a.path <= b.path
                    || exists k: nat :: k < |a.path| && k < |b.path| && a.path[..k] == b.path[..k] && a.path[k] < b.path[k]))
  {
    Lexicographic.CodesLeqIff(a.path, b.path);
  }

  /** The order of keys is total, and two modules with one key are equal. */
  lemma PrecedesTotal(a: TestModule, b: TestModule)
    ensures Precedes(a, b) || Precedes(b, a)
    ensures Precedes(a, b) && Precedes(b, a) ==> a == b
  {
    Lexicographic.Total(Lexicographic.Codes(a.path), Lexicographic.Codes(b.path));
    if Lexicographic.Codes(a.path) == Lexicographic.Codes(b.path) {
      Lexicographic.CodesInjective(a.path, b.path);
    }
  }

  lemma PrecedesTransitive(a: TestModule, b: TestModule, c: TestModule)
    requires Precedes(a, b) && Precedes(b, c)
    ensures Precedes(a, c)
  {
    if a.predicted == b.predicted == c.predicted {
      Lexicographic.Transitive(Lexicographic.Codes(a.path), Lexicographic.Codes(b.path), Lexicographic.Codes(c.path));
    }
  }

  ghost predicate InOrder(ms: seq<TestModule>) {
    forall i, j | 0 <= i <= j < |ms| :: Precedes(ms[i], ms[j])
  }

  function Insert(x: TestModule, ms: seq<TestModule>): (r: seq<TestModule>) {
    if |ms| == 0 || Precedes(x, ms[0]) then [x] + ms else [ms[0]] + Insert(x, ms[1..])
  }

  function Ordered(ms: seq<TestModule>): (r: seq<TestModule>) {
    if |ms| == 0 then [] else Insert(ms[0], Ordered(ms[1..]))
  }

  lemma {:induction false} InsertPermutes(x: TestModule, ms: seq<TestModule>)
    ensures multiset(Insert(x, ms)) == multiset(ms) + multiset{x}
  {
    if |ms| == 0 || Precedes(x, ms[0]) {
    } else {
      InsertPermutes(x, ms[1..]);
      assert ms == [ms[0]] + ms[1..];
    }
  }

  lemma {:induction false} InsertInOrder(x: TestModule, ms: seq<TestModule>)
    requires InOrder(ms)
    ensures InOrder(Insert(x, ms))
  {
    hide Precedes;
    PrecedesTotal(x, x);
    if |ms| == 0 {
    } else if Precedes(x, ms[0]) {
      forall j | 0 <= j < |ms|
        ensures Precedes(x, ms[j])
      {
        PrecedesTransitive(x, ms[0], ms[j]);
      }
    } else {
      PrecedesTotal(x, ms[0]);
      InsertInOrder(x, ms[1..]);
      InsertPermutes(x, ms[1..]);
      var rest := Insert(x, ms[1..]);
      forall j | 0 <= j < |rest|
        ensures Precedes(ms[0], rest[j])
      {
        assert rest[j] in multiset(rest);
        if rest[j] != x {
          assert rest[j] in ms[1..];
        }
      }
    }
  }

  lemma {:induction false} OrderedSorts(ms: seq<TestModule>)
    ensures InOrder(Ordered(ms)) && multiset(Ordered(ms)) == multiset(ms)
  {
    hide InOrder, Insert;
    if |ms| == 0 {
      NothingInOrder();
    } else {
      OrderedSorts(ms[1..]);
      InsertInOrder(ms[0], Ordered(ms[1..]));
      InsertPermutes(ms[0], Ordered(ms[1..]));
      assert ms == [ms[0]] + ms[1..];
    }
  }

  lemma NothingInOrder()
    ensures InOrder([])
  {
  }

  /** The scheduling order is a function of the set of modules alone: any sorted arrangement, by
      any algorithm and from any discovery order, is the same sequence. */
  lemma {:induction false} SortedArrangementUnique(a: seq<TestModule>, b: seq<TestModule>)
    requires InOrder(a) && InOrder(b) && multiset(a) == multiset(b)
    ensures a == b
  {
    hide Precedes;
    assert |a| == |multiset(a)| == |multiset(b)| == |b|;
    if |a| > 0 {
      LeastIsFirst(a, b[0]);
      LeastIsFirst(b, a[0]);
      PrecedesTotal(a[0], b[0]);
      WithoutFirst(a);
      WithoutFirst(b);
      SortedArrangementUnique(a[1..], b[1..]);
    }
  }

  lemma WithoutFirst(a: seq<TestModule>)
    requires |a| > 0
    ensures a == [a[0]] + a[1..] && multiset(a[1..]) == multiset(a) - multiset{a[0]}
  {
    assert a == [a[0]] + a[1..];
  }

  lemma LeastIsFirst(a: seq<TestModule>, x: TestModule)
    requires InOrder(a) && x in multiset(a)
    ensures |a| > 0 && Precedes(a[0], x)
  {
    hide Precedes;
    var i :| 0 <= i < |a| && a[i] == x;
  }

  // ---- The assignment loop ----------------------------------------------------------------

  /** The modules placed on shard `s`, in scheduling order. */
  ghost function Placed(ms: seq<TestModule>, place: seq<nat>, s: nat): seq<TestModule>
    requires |ms| == |place|
  {
    if |ms| == 0 then []
    else
      var n := |ms| - 1;
      Placed(ms[..n], place[..n], s) + if place[n] == s then [ms[n]] else []
  }

  ghost function ShardOf(ms: seq<TestModule>, m: nat, s: nat): seq<TestModule>
    requires m > 0
  {
    Placed(Ordered(ms), Greedy(Predictions(Ordered(ms)), m), s)
  }

  method AssignShards(ordered: seq<TestModule>, m: nat)
    returns (shards: seq<seq<TestModule>>, shardLoads: seq<real>)
    requires m > 0
    ensures |shards| == |shardLoads| == m
    ensures var p := Predictions(ordered);
            forall s | 0 <= s < m ::
              && shards[s] == Placed(ordered, Greedy(p, m), s)
              && shardLoads[s] == Load(p, Greedy(p, m), s)
  {
    hide Placed, Load, Greedy, LeastLoaded;
    ghost var p := Predictions(ordered);
    ghost var place := Greedy(p, m);
    var lists := new seq<TestModule>[m](_ => []);
    var loads := new real[m](_ => 0.0);
    NothingPlaced(ordered, p, place);
    for n := 0 to |ordered|
      invariant forall s | 0 <= s < m :: lists[s] == Placed(ordered[..n], place[..n], s)
      invariant forall s | 0 <= s < m :: loads[s] == Load(p[..n], place[..n], s)
    {
      assert loads[..] == Loads(p[..n], place[..n], m);
      ChoiceAt(p, m, n);
      var target := LeastLoaded(loads[..]);
      forall s | 0 <= s < m
        ensures Placed(ordered[..n + 1], place[..n + 1], s)
             == Placed(ordered[..n], place[..n], s) + if target == s then [ordered[n]] else []
        ensures Load(p[..n + 1], place[..n + 1], s)
             == Load(p[..n], place[..n], s) + if target == s then ordered[n].predicted else 0.0
      {
        OneMorePlaced(ordered, p, place, n, s);
      }
      lists[target] := lists[target] + [ordered[n]];
      loads[target] := loads[target] + ordered[n].predicted;
    }
    assert ordered[..|ordered|] == ordered && place[..|ordered|] == place && p[..|ordered|] == p;
    shards, shardLoads := lists[..], loads[..];
  }

  lemma NothingPlaced(ordered: seq<TestModule>, p: seq<real>, place: seq<nat>)
    requires |ordered| == |p| == |place|
    ensures forall s: nat :: Placed(ordered[..0], place[..0], s) == [] && Load(p[..0], place[..0], s) == 0.0
  {
  }

  lemma OneMorePlaced(ordered: seq<TestModule>, p: seq<real>, place: seq<nat>, n: nat, s: nat)
    requires |ordered| == |p| == |place| && n < |p|
    ensures Placed(ordered[..n + 1], place[..n + 1], s)
         == Placed(ordered[..n], place[..n], s) + if place[n] == s then [ordered[n]] else []
    ensures Load(p[..n + 1], place[..n + 1], s)
         == Load(p[..n], place[..n], s) + if place[n] == s then p[n] else 0.0
  {
    assert ordered[..n + 1][..n] == ordered[..n] && place[..n + 1][..n] == place[..n] && p[..n + 1][..n] == p[..n];
  }

  /** Argument checks, scheduling and selection of one shard, as `main` performs them. */
  method SelectShard(payload: map<string, CacheValue>, files: seq<TestFile>, count: int, index: int)
    returns (r: Selection)
    ensures r == Rejected(ShardCountNotPositive) <==> count <= 0
    ensures r == Rejected(ShardIndexOutOfRange) <==> count > 0 && !(0 <= index < count)
    ensures r == Rejected(NoModulesDiscovered) <==> 0 <= index < count && files == []
    ensures r == Rejected(SelectedShardEmpty) <==>
              && 0 <= index < count && files != []
              && var p := Predictions(Ordered(PredictAll(payload, files)));
                 !(index < |p| && forall k | 0 <= k < index :: p[k] > 0.0)
    ensures r.Selected? ==>
              0 <= index < count && r.modules == ShardOf(PredictAll(payload, files), count, index)
  {
    if count <= 0 {
      return Rejected(ShardCountNotPositive);
    }
    if !(0 <= index < count) {
      return Rejected(ShardIndexOutOfRange);
    }
    if |files| == 0 {
      return Rejected(NoModulesDiscovered);
    }
    var modules := PredictAll(payload, files);
    var ordered := Ordered(modules);
    ghost var p := Predictions(ordered);
    PredictionsDescend(modules);
    PopulatedShards(p, count, index);
    PlacedEmpty(ordered, Greedy(p, count), index);
    var shards, _ := AssignShards(ordered, count);
    if |shards[index]| == 0 {
      return Rejected(SelectedShardEmpty);
    }
    return Selected(shards[index]);
  }

  lemma PredictionsDescend(ms: seq<TestModule>)
    requires forall i | 0 <= i < |ms| :: ms[i].predicted >= 0.0
    ensures Descending(Predictions(Ordered(ms))) && Nonnegative(Predictions(Ordered(ms)))
  {
    hide Ordered, LexLeq;
    OrderedSorts(ms);
    var ordered := Ordered(ms);
    forall i | 0 <= i < |ordered|
      ensures ordered[i].predicted >= 0.0
    {
      assert ordered[i] in multiset(ordered);
      assert ordered[i] in ms;
    }
  }

  lemma {:induction false} PlacedEmpty(ms: seq<TestModule>, place: seq<nat>, s: nat)
    requires |ms| == |place|
    ensures Placed(ms, place, s) == [] <==> s !in place
  {
    if |ms| > 0 {
      PlacedEmpty(ms[..|ms| - 1], place[..|ms| - 1], s);
      assert place == place[..|ms| - 1] + [place[|ms| - 1]];
    }
  }

  // ---- What independent processes run -----------------------------------------------------

  ghost function AllPlaced(ms: seq<TestModule>, place: seq<nat>, m: nat): multiset<TestModule>
    requires |ms| == |place|
  {
    if m == 0 then multiset{} else AllPlaced(ms, place, m - 1) + multiset(Placed(ms, place, m - 1))
  }

  /** The module, if the condition holds. */
  ghost function Only(condition: bool, x: TestModule): multiset<TestModule> {
    if condition then multiset{x} else multiset{}
  }

  lemma {:induction false} AllPlacedStep(ms: seq<TestModule>, place: seq<nat>, m: nat)
    requires |ms| == |place| > 0
    ensures var n := |ms| - 1;
            AllPlaced(ms, place, m) == AllPlaced(ms[..n], place[..n], m) + Only(place[n] < m, ms[n])
  {
    hide Placed, Only, AllPlaced;
    var n := |ms| - 1;
    var x, s := ms[n], place[n];
    AllPlacedUnfold(ms, place, m);
    AllPlacedUnfold(ms[..n], place[..n], m);
    if m == 0 {
      OnlyNothing(x);
    } else {
      AllPlacedStep(ms, place, m - 1);
      PlacedStep(ms, place, m - 1);
      Regroup(AllPlaced(ms[..n], place[..n], m - 1), Only(s < m - 1, x),
              multiset(Placed(ms[..n], place[..n], m - 1)), Only(s == m - 1, x));
      OnlySplits(s, m - 1, x);
    }
  }

  lemma AllPlacedUnfold(ms: seq<TestModule>, place: seq<nat>, m: nat)
    requires |ms| == |place|
    ensures AllPlaced(ms, place, m)
         == if m == 0 then multiset{} else AllPlaced(ms, place, m - 1) + multiset(Placed(ms, place, m - 1))
  {
  }

  lemma OnlyNothing(x: TestModule)
    ensures Only(false, x) == multiset{}
  {
  }

  lemma OnlySplits(s: nat, k: nat, x: TestModule)
    ensures Only(s < k, x) + Only(s == k, x) == Only(s < k + 1, x)
  {
  }

  lemma Regroup<T>(a: multiset<T>, b: multiset<T>, c: multiset<T>, d: multiset<T>)
    ensures a + b + (c + d) == a + c + (b + d)
  {
  }

  lemma PlacedStep(ms: seq<TestModule>, place: seq<nat>, s: nat)
    requires |ms| == |place| > 0
    ensures var n := |ms| - 1;
            multiset(Placed(ms, place, s)) == multiset(Placed(ms[..n], place[..n], s)) + Only(place[n] == s, ms[n])
  {
    var n := |ms| - 1;
    var before := Placed(ms[..n], place[..n], s);
    assert multiset(before + [ms[n]]) == multiset(before) + multiset{ms[n]};
    assert before + [] == before;
  }

  lemma {:induction false} AllPlacedNothing(m: nat)
    ensures AllPlaced([], [], m) == multiset{}
  {
    if m > 0 {
      AllPlacedNothing(m - 1);
    }
  }

  lemma {:induction false} PlacementConserves(ms: seq<TestModule>, place: seq<nat>, m: nat)
    requires |ms| == |place| && forall i | 0 <= i < |place| :: place[i] < m
    ensures AllPlaced(ms, place, m) == multiset(ms)
  {
    hide AllPlaced;
    if |ms| == 0 {
      assert ms == [] && place == [];
      AllPlacedNothing(m);
    } else {
      var n := |ms| - 1;
      AllPlacedStep(ms, place, m);
      PlacementConserves(ms[..n], place[..n], m);
      assert place[n] < m && Only(true, ms[n]) == multiset{ms[n]};
      LastOfMultiset(ms);
    }
  }

  lemma LastOfMultiset(ms: seq<TestModule>)
    requires |ms| > 0
    ensures multiset(ms) == multiset(ms[..|ms| - 1]) + multiset{ms[|ms| - 1]}
  {
    assert ms == ms[..|ms| - 1] + [ms[|ms| - 1]];
  }

  /** Separate processes that see the same modules, each in its own discovery order, select
      exactly the same shards; together the shards hold every module exactly as often as it was
      discovered. */
  lemma ProcessesAgreeAndCover(a: seq<TestModule>, b: seq<TestModule>, m: nat)
    requires m > 0 && multiset(a) == multiset(b)
    ensures forall s: nat :: ShardOf(a, m, s) == ShardOf(b, m, s)
    ensures AllPlaced(Ordered(a), Greedy(Predictions(Ordered(a)), m), m) == multiset(a)
  {
    OrderedSorts(a);
    OrderedSorts(b);
    SortedArrangementUnique(Ordered(a), Ordered(b));
    PlacementConserves(Ordered(a), Greedy(Predictions(Ordered(a)), m), m);
  }

  /** The agreement needs one set of predictions.  A process that has run the first of two modules
      and found it faster than the second leaves a later process to run it again and to leave out
      the second. */
  lemma ChangedTimingsSkipModule(x: string, y: string) returns (a: seq<TestModule>, b: seq<TestModule>)
    requires x != y
    ensures a == [TestModule(x, 2.0), TestModule(y, 1.0)] && b == [TestModule(x, 0.5), TestModule(y, 1.0)]
    ensures ShardOf(a, 2, 0) == [a[0]] && ShardOf(b, 2, 1) == [b[0]]
  {
    a, b := [TestModule(x, 2.0), TestModule(y, 1.0)], [TestModule(x, 0.5), TestModule(y, 1.0)];
    hide ShardOf, AllPlaced, Ordered;
    var swapped := [b[1], b[0]];
    TwoModules(a[0], a[1]);
    TwoModules(b[1], b[0]);
    assert multiset(b) == multiset(swapped);
    ProcessesAgreeAndCover(b, swapped, 2);
  }

  lemma TwoModules(u: TestModule, v: TestModule)
    requires u.predicted > v.predicted > 0.0
    ensures ShardOf([u, v], 2, 0) == [u] && ShardOf([u, v], 2, 1) == [v]
  {
    var ms := [u, v];
    assert ms[1..] == [v] && [v][1..] == [];
    assert Ordered([v]) == [v];
    assert Ordered(ms) == ms;
    var p := Predictions(ms);
    FirstPlacements(p, 2, 0);
    FirstPlacements(p, 2, 1);
    var place := Greedy(p, 2);
    assert place == [0, 1];
    hide Greedy, Ordered;
    forall s: nat
      ensures Placed(ms, place, s) == (if s == 0 then [u] else []) + (if s == 1 then [v] else [])
    {
      NothingPlaced(ms, p, place);
      OneMorePlaced(ms, p, place, 0, s);
      OneMorePlaced(ms, p, place, 1, s);
      assert ms[..2] == ms && place[..2] == place;
    }
  }
}
