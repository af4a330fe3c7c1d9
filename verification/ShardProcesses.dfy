/** The shard processes of one test run around their shared timing cache: which orders of starts and
    ends let the shards cover every module, whatever the measured durations turn out to be. */
module ShardProcesses {
  import opened ShardScheduling
  import opened ShardRunner

  type Timings = map<string, real>

  /** Measured durations, by shard process and module. */
  type Durations = (nat, string) -> real

  /** A process reads the cache when it starts and replaces it when it ends. */
  datatype Event = Start(shard: nat) | Finish(shard: nat)

  /** The cache file, and what each started process has read. */
  datatype World = World(cache: Timings, views: map<nat, Timings>)

  function Seen(cache: Timings, files: seq<TestFile>): (modules: seq<TestModule>)
    ensures |modules| == |files|
  {
    seq(|files|, i requires 0 <= i < |files| => Predict(cache, files[i]))
  }

  ghost function Paths(modules: seq<TestModule>): set<string> {
    set i | 0 <= i < |modules| :: modules[i].path
  }

  /** What a process writes: everything it has read, with its own modules' durations. */
  ghost function Rewritten(view: Timings, modules: seq<TestModule>, s: nat, d: Durations): Timings {
    map path | path in view.Keys + Paths(modules) :: if path in Paths(modules) then d(s, path) else view[path]
  }

  /** A process whose shard is empty stops with an error and writes nothing. */
  ghost function Do(files: seq<TestFile>, m: nat, d: Durations, w: World, e: Event): World
    requires m > 0
  {
    match e
    case Start(s) => w.(views := w.views[s := w.cache])
    case Finish(s) =>
      if s !in w.views || ShardOf(Seen(w.views[s], files), m, s) == [] then w
      else w.(cache := Rewritten(w.views[s], ShardOf(Seen(w.views[s], files), m, s), s, d))
  }

  ghost function After(files: seq<TestFile>, m: nat, d: Durations, cache: Timings, events: seq<Event>): World
    requires m > 0
  {
    if |events| == 0 then World(cache, map[])
    else Do(files, m, d, After(files, m, d, cache, events[..|events| - 1]), events[|events| - 1])
  }

  /** One process per shard index: each starts once and ends at most once, after its start. */
  ghost predicate ProperOrder(m: nat, events: seq<Event>) {
    && (forall s: nat | s < m :: Start(s) in events)
    && (forall i | 0 <= i < |events| :: events[i].shard < m)
    && (forall i, j | 0 <= i < j < |events| :: events[i] != events[j])
    && (forall i | 0 <= i < |events| && events[i].Finish? :: Start(events[i].shard) in events[..i])
  }

  /** Every module is run by some process. */
  ghost predicate Covered(files: seq<TestFile>, m: nat, d: Durations, cache: Timings, events: seq<Event>)
    requires m > 0
  {
    var views := After(files, m, d, cache, events).views;
    forall f | f in files :: exists s :: s in views && f.path in Paths(ShardOf(Seen(views[s], files), m, s))
  }

  ghost predicate Populated(modules: seq<TestModule>, m: nat, s: nat)
    requires m > 0
  {
    ShardOf(modules, m, s) != []
  }

  /** Under the first predictions, some process with modules starts after another with modules has
      ended. */
  ghost predicate StartsLate(modules: seq<TestModule>, m: nat, events: seq<Event>)
    requires m > 0
  {
    exists i, j :: 0 <= i < j < |events| && LateAt(modules, m, events, i, j)
  }

  ghost predicate LateAt(modules: seq<TestModule>, m: nat, events: seq<Event>, i: nat, j: nat)
    requires m > 0 && i < j < |events|
  {
    && events[i].Finish? && Populated(modules, m, events[i].shard)
    && events[j].Start? && Populated(modules, m, events[j].shard)
  }

  ghost predicate ProperDurations(d: Durations) {
    forall s, path :: d(s, path) >= 0.0
  }

  ghost predicate ProperFiles(cache: Timings, files: seq<TestFile>) {
    && (forall path | path in cache :: cache[path] >= 0.0)
    && (forall i, j | 0 <= i < j < |files| :: files[i].path != files[j].path)
  }

  // ---- Homes ------------------------------------------------------------------------------

  ghost predicate DistinctPaths(modules: seq<TestModule>) {
    forall i, j | 0 <= i < j < |modules| :: modules[i].path != modules[j].path
  }

  lemma {:induction false} DistinctCount(modules: seq<TestModule>)
    ensures |Paths(modules)| <= |modules|
    ensures |Paths(modules)| == |modules| <==> DistinctPaths(modules)
  {
    if |modules| > 0 {
      var n := |modules| - 1;
      var before, last := modules[..n], modules[n].path;
      DistinctCount(before);
      assert Paths(modules) == Paths(before) + {last};
      if last in Paths(before) {
        var i :| 0 <= i < n && before[i].path == last;
        assert modules[i].path == modules[n].path;
      } else {
        forall i, j | 0 <= i < j < |modules|
          ensures DistinctPaths(before) ==> modules[i].path != modules[j].path
        {
          assert before[i].path in Paths(before);
        }
        assert DistinctPaths(modules) ==> DistinctPaths(before);
      }
    }
  }

  lemma PathsOfPermutation(a: seq<TestModule>, b: seq<TestModule>)
    requires multiset(a) == multiset(b)
    ensures Paths(a) == Paths(b) && |a| == |b|
    ensures DistinctPaths(a) <==> DistinctPaths(b)
  {
    assert |a| == |multiset(a)| == |multiset(b)| == |b|;
    forall path
      ensures path in Paths(a) <==> path in Paths(b)
    {
      if path in Paths(a) {
        var i :| 0 <= i < |a| && a[i].path == path;
        assert a[i] in multiset(b);
        var j :| 0 <= j < |b| && b[j] == a[i];
        assert b[j].path in Paths(b);
      }
      if path in Paths(b) {
        var i :| 0 <= i < |b| && b[i].path == path;
        assert b[i] in multiset(a);
        var j :| 0 <= j < |a| && a[j] == b[i];
        assert a[j].path in Paths(a);
      }
    }
    DistinctCount(a);
    DistinctCount(b);
  }

  lemma {:induction false} PlacedMember(ms: seq<TestModule>, place: seq<nat>, s: nat, x: TestModule)
    requires |ms| == |place|
    ensures x in Placed(ms, place, s) <==> exists i :: 0 <= i < |ms| && ms[i] == x && place[i] == s
  {
    if |ms| > 0 {
      var n := |ms| - 1;
      PlacedMember(ms[..n], place[..n], s, x);
      if i :| 0 <= i < |ms| && ms[i] == x && place[i] == s {
        assert i < n ==> ms[..n][i] == x && place[..n][i] == s;
      }
    }
  }

  /** A module is run by exactly one shard: that of its position in the scheduling order. */
  lemma HomeIs(modules: seq<TestModule>, m: nat, i: nat, s: nat)
    requires m > 0 && DistinctPaths(modules) && i < |Ordered(modules)|
    ensures |Ordered(modules)| == |modules|
    ensures Ordered(modules)[i].path in Paths(ShardOf(modules, m, s))
       <==> s == Greedy(Predictions(Ordered(modules)), m)[i]
  {
    hide Ordered, Greedy;
    var o := Ordered(modules);
    OrderedSorts(modules);
    PathsOfPermutation(modules, o);
    var place := Greedy(Predictions(o), m);
    var shard := ShardOf(modules, m, s);
    if s == place[i] {
      PlacedMember(o, place, s, o[i]);
      var k :| 0 <= k < |shard| && shard[k] == o[i];
    }
    if o[i].path in Paths(shard) {
      var k :| 0 <= k < |shard| && shard[k].path == o[i].path;
      PlacedMember(o, place, s, shard[k]);
      var j :| 0 <= j < |o| && o[j] == shard[k] && place[j] == s;
      assert j == i;
    }
  }

  /** No other shard runs the module. */
  ghost predicate OnlyHome(modules: seq<TestModule>, m: nat, path: string, home: nat)
    requires m > 0
  {
    forall s: nat :: path in Paths(ShardOf(modules, m, s)) ==> s == home
  }

  lemma EveryModuleHasAHome(modules: seq<TestModule>, m: nat, path: string) returns (s: nat)
    requires m > 0 && DistinctPaths(modules) && path in Paths(modules)
    ensures s < m && path in Paths(ShardOf(modules, m, s))
  {
    hide Ordered, Greedy;
    var o := Ordered(modules);
    OrderedSorts(modules);
    PathsOfPermutation(modules, o);
    var i :| 0 <= i < |o| && o[i].path == path;
    s := Greedy(Predictions(o), m)[i];
    HomeIs(modules, m, i, s);
  }

  lemma PopulatedIff(modules: seq<TestModule>, m: nat, s: nat)
    requires m > 0 && s < m && forall i | 0 <= i < |modules| :: modules[i].predicted >= 0.0
    ensures |Ordered(modules)| == |modules|
    ensures Populated(modules, m, s) <==>
            s < |modules| && forall k | 0 <= k < s :: Ordered(modules)[k].predicted > 0.0
  {
    hide Ordered, Greedy;
    var o := Ordered(modules);
    var p := Predictions(o);
    OrderedSorts(modules);
    PathsOfPermutation(modules, o);
    PredictionsDescend(modules);
    PlacedEmpty(o, Greedy(p, m), s);
    PopulatedShards(p, m, s);
  }

  // ---- No late start: every module is covered ---------------------------------------------

  /** Until a process with modules has ended, everyone reads the first cache. */
  lemma {:induction false} UntouchedSoFar(
      files: seq<TestFile>, m: nat, d: Durations, cache: Timings, events: seq<Event>)
    requires m > 0
    requires forall i | 0 <= i < |events| && events[i].Finish? :: !Populated(Seen(cache, files), m, events[i].shard)
    ensures var w := After(files, m, d, cache, events);
            w.cache == cache && forall s | s in w.views :: w.views[s] == cache
  {
    hide ShardOf;
    if |events| > 0 {
      UntouchedSoFar(files, m, d, cache, events[..|events| - 1]);
    }
  }

  /** What a process has read stays what it has read. */
  lemma {:induction false} ViewIsKept(
      files: seq<TestFile>, m: nat, d: Durations, cache: Timings, events: seq<Event>, j: nat)
    requires m > 0 && j < |events| && events[j].Start?
    requires forall i, k | 0 <= i < k < |events| :: events[i] != events[k]
    ensures var views, s := After(files, m, d, cache, events).views, events[j].shard;
            s in views && views[s] == After(files, m, d, cache, events[..j]).cache
    decreases |events|
  {
    hide ShardOf, Rewritten;
    var n := |events| - 1;
    var before := events[..n];
    if j < n {
      ViewIsKept(files, m, d, cache, before, j);
      assert before[..j] == events[..j];
      assert events[n] != events[j];
    }
  }

  lemma PunctualOrderCovers(files: seq<TestFile>, m: nat, d: Durations, cache: Timings, events: seq<Event>)
    requires m > 0 && ProperOrder(m, events) && ProperFiles(cache, files)
    requires !StartsLate(Seen(cache, files), m, events)
    ensures Covered(files, m, d, cache, events)
  {
    hide ShardOf, After, Paths;
    var modules := Seen(cache, files);
    forall f | f in files
      ensures exists s :: s in After(files, m, d, cache, events).views
                && f.path in Paths(ShardOf(Seen(After(files, m, d, cache, events).views[s], files), m, s))
    {
      SeenPath(cache, files, f);
      var s := EveryModuleHasAHome(modules, m, f.path);
      PathsOfNothing(modules, m, s, f.path);
      assert Start(s) in events;
      var j :| 0 <= j < |events| && events[j] == Start(s);
      forall i | 0 <= i < j && events[i].Finish?
        ensures !Populated(modules, m, events[..j][i].shard)
      {
        assert !LateAt(modules, m, events, i, j);
      }
      UntouchedSoFar(files, m, d, cache, events[..j]);
      ViewIsKept(files, m, d, cache, events, j);
    }
  }

  lemma SeenPath(cache: Timings, files: seq<TestFile>, f: TestFile)
    requires ProperFiles(cache, files)
    ensures DistinctPaths(Seen(cache, files))
    ensures f in files ==> f.path in Paths(Seen(cache, files))
  {
    if f in files {
      var i :| 0 <= i < |files| && files[i] == f;
      assert Seen(cache, files)[i].path == f.path;
    }
  }

  lemma PathsOfNothing(modules: seq<TestModule>, m: nat, s: nat, path: string)
    requires m > 0 && path in Paths(ShardOf(modules, m, s))
    ensures Populated(modules, m, s)
  {
  }

  // ---- One changed prediction moves a module ----------------------------------------------

  /** The modules with one prediction replaced. */
  function Changed(modules: seq<TestModule>, y: string, v: real): (changed: seq<TestModule>)
    ensures |changed| == |modules|
  {
    seq(|modules|, i requires 0 <= i < |modules| => if modules[i].path == y then TestModule(y, v) else modules[i])
  }

  lemma ChangedIsPermuted(modules: seq<TestModule>, o: seq<TestModule>, w: nat, v: real)
    requires multiset(modules) == multiset(o) && DistinctPaths(modules) && w < |o|
    ensures DistinctPaths(Changed(modules, o[w].path, v))
    ensures multiset(Changed(modules, o[w].path, v)) == multiset(o[..w] + o[w + 1..]) + multiset{TestModule(o[w].path, v)}
  {
    var y := TestModule(o[w].path, v);
    assert o[w] in multiset(modules);
    var i :| 0 <= i < |modules| && modules[i] == o[w];
    assert Changed(modules, o[w].path, v) == modules[i := y];
    hide Changed, DistinctPaths;
    Replaced(modules, i, y);
    LeftOut(o, w);
  }

  lemma Replaced<T>(xs: seq<T>, i: nat, y: T)
    requires i < |xs|
    ensures multiset(xs[i := y]) == multiset(xs) - multiset{xs[i]} + multiset{y}
  {
  }

  lemma LeftOut<T>(xs: seq<T>, w: nat)
    requires w < |xs|
    ensures multiset(xs[..w] + xs[w + 1..]) == multiset(xs) - multiset{xs[w]}
  {
    assert xs == xs[..w] + [xs[w]] + xs[w + 1..];
  }

  /** Where the module at `w` of the order lands with another prediction. */
  lemma OrderOfChanged(modules: seq<TestModule>, w: nat, v: real)
    requires DistinctPaths(modules) && w < |Ordered(modules)|
    ensures var o := Ordered(modules);
            Ordered(Changed(modules, o[w].path, v)) == Insert(TestModule(o[w].path, v), o[..w] + o[w + 1..])
  {
    hide Ordered, Insert, Precedes;
    var o := Ordered(modules);
    var y, rest := TestModule(o[w].path, v), o[..w] + o[w + 1..];
    var changed := Changed(modules, o[w].path, v);
    OrderedSorts(modules);
    ChangedIsPermuted(modules, o, w, v);
    OrderedSorts(changed);
    InsertInOrder(y, rest);
    InsertPermutes(y, rest);
    SortedArrangementUnique(Ordered(changed), Insert(y, rest));
  }

  lemma {:induction false} InsertAfter(x: TestModule, ms: seq<TestModule>, j: nat)
    requires j <= |ms| && forall i | 0 <= i < j :: !Precedes(x, ms[i])
    ensures Insert(x, ms) == ms[..j] + Insert(x, ms[j..])
  {
    if j > 0 {
      InsertAfter(x, ms[1..], j - 1);
      assert ms[1..][j - 1..] == ms[j..];
      assert ms[..j] == [ms[0]] + ms[1..][..j - 1];
    } else {
      assert ms[0..] == ms;
    }
  }

  ghost predicate NonnegativeModules(modules: seq<TestModule>) {
    forall i | 0 <= i < |modules| :: modules[i].predicted >= 0.0
  }

  /** With a prediction above all others the module at `w` takes the first shard, and those before
      it move up by one. */
  lemma RaisedMovesUp(modules: seq<TestModule>, m: nat, w: nat, t: nat)
    requires m > 0 && DistinctPaths(modules) && NonnegativeModules(modules)
    requires t < w < m && Populated(modules, m, w)
    ensures |Ordered(modules)| == |modules| && w < |modules|
    ensures var o := Ordered(modules);
            OnlyHome(Changed(modules, o[w].path, o[0].predicted + 1.0), m, o[t].path, t + 1)
  {
    hide Ordered, Greedy, ShardOf, Paths;
    PopulatedIff(modules, m, w);
    var o := Ordered(modules);
    OrderedSorts(modules);
    var v := o[0].predicted + 1.0;
    var y, rest := TestModule(o[w].path, v), o[..w] + o[w + 1..];
    var changed := Changed(modules, o[w].path, v);
    OrderOfChanged(modules, w, v);
    assert Precedes(o[0], rest[0]);
    assert Insert(y, rest) == [y] + rest;
    var o' := Ordered(changed);
    assert o' == [y] + rest && o'[t + 1] == o[t];
    var p' := Predictions(o');
    forall i | 0 <= i < t + 1
      ensures p'[i] > 0.0
    {
      assert i > 0 ==> o'[i] == o[i - 1];
      assert o[0].predicted > 0.0;
    }
    FirstPlacements(p', m, t + 1);
    ChangedIsPermuted(modules, o, w, v);
    forall s: nat
      ensures o[t].path in Paths(ShardOf(changed, m, s)) ==> s == t + 1
    {
      HomeIs(changed, m, t + 1, s);
    }
  }

  /** With prediction zero the module at `w` falls behind, and those after it up to the last
      populated shard move down by one. */
  lemma LoweredMovesDown(modules: seq<TestModule>, m: nat, w: nat, t: nat)
    requires m > 0 && DistinctPaths(modules) && NonnegativeModules(modules)
    requires w < t < m && Populated(modules, m, t)
    ensures |Ordered(modules)| == |modules| && t < |modules|
    ensures var o := Ordered(modules);
            OnlyHome(Changed(modules, o[w].path, 0.0), m, o[t].path, t - 1)
  {
    hide Ordered, Greedy, ShardOf, Paths;
    PopulatedIff(modules, m, t);
    var o := Ordered(modules);
    var j := LoweredAt(modules, m, w, t);
    var changed := Changed(modules, o[w].path, 0.0);
    OrderedSorts(modules);
    ChangedIsPermuted(modules, o, w, 0.0);
    forall s: nat
      ensures o[t].path in Paths(ShardOf(changed, m, s)) ==> s == t - 1
    {
      HomeIs(changed, m, j, s);
    }
  }

  /** The order after lowering: the positive modules before `t` without the one at `w`, then the
      rest with the lowered module inserted. */
  lemma OrderOfLowered(modules: seq<TestModule>, w: nat, t: nat)
    requires DistinctPaths(modules) && w < t < |Ordered(modules)|
    requires forall k | 0 <= k < t :: Ordered(modules)[k].predicted > 0.0
    ensures var o := Ordered(modules);
            var rest := o[..w] + o[w + 1..];
            Ordered(Changed(modules, o[w].path, 0.0)) == rest[..t - 1] + Insert(TestModule(o[w].path, 0.0), rest[t - 1..])
    ensures forall i | 0 <= i < t - 1 :: Ordered(Changed(modules, Ordered(modules)[w].path, 0.0))[i].predicted > 0.0
  {
    hide Ordered, Insert, LexLeq;
    var o := Ordered(modules);
    OrderOfChanged(modules, w, 0.0);
    InsertAfter(TestModule(o[w].path, 0.0), o[..w] + o[w + 1..], t - 1);
  }

  lemma LoweredAt(modules: seq<TestModule>, m: nat, w: nat, t: nat) returns (j: nat)
    requires m > 0 && DistinctPaths(modules) && NonnegativeModules(modules)
    requires w < t < m && t < |Ordered(modules)| == |modules|
    requires forall k | 0 <= k < t :: Ordered(modules)[k].predicted > 0.0
    ensures var o' := Ordered(Changed(modules, Ordered(modules)[w].path, 0.0));
            j < |o'| && o'[j] == Ordered(modules)[t] && Greedy(Predictions(o'), m)[j] == t - 1
  {
    hide Ordered, Greedy, Insert, LexLeq;
    var o := Ordered(modules);
    var y, rest := TestModule(o[w].path, 0.0), o[..w] + o[w + 1..];
    OrderOfLowered(modules, w, t);
    var tail := Insert(y, rest[t - 1..]);
    var p' := Predictions(Ordered(Changed(modules, o[w].path, 0.0)));
    InsertPermutes(y, rest[t - 1..]);
    assert rest[t - 1..][0] == o[t];
    if o[t].predicted > 0.0 {
      FirstStays(y, rest[t - 1..]);
      j := t - 1;
      FirstPlacements(p', m, t - 1);
    } else {
      assert o[t] in multiset(tail);
      var i :| 0 <= i < |tail| && tail[i] == o[t];
      j := t - 1 + i;
      forall k | t - 1 <= k < |p'|
        ensures p'[k] == 0.0
      {
        TailIsZero(modules, w, t, k - (t - 1));
      }
      ZeroTail(p', m, t - 1, j);
    }
  }

  lemma FirstStays(x: TestModule, ms: seq<TestModule>)
    requires |ms| > 0 && x.predicted < ms[0].predicted
    ensures |Insert(x, ms)| > 0 && Insert(x, ms)[0] == ms[0]
  {
  }

  lemma TailIsZero(modules: seq<TestModule>, w: nat, t: nat, i: nat)
    requires NonnegativeModules(modules) && w < t < |Ordered(modules)| && Ordered(modules)[t].predicted <= 0.0
    requires var o := Ordered(modules);
             i < |Insert(TestModule(o[w].path, 0.0), (o[..w] + o[w + 1..])[t - 1..])|
    ensures var o := Ordered(modules);
            Insert(TestModule(o[w].path, 0.0), (o[..w] + o[w + 1..])[t - 1..])[i].predicted == 0.0
  {
    hide Ordered, Insert, LexLeq;
    var o := Ordered(modules);
    var y, rest := TestModule(o[w].path, 0.0), (o[..w] + o[w + 1..])[t - 1..];
    var tail := Insert(y, rest);
    OrderedSorts(modules);
    NonnegativeOrdered(modules);
    InsertPermutes(y, rest);
    assert tail[i] in multiset(tail);
    if tail[i] != y {
      var q :| 0 <= q < |rest| && rest[q] == tail[i];
      assert rest[q] == o[q + t] && Precedes(o[t], o[q + t]);
    }
  }

  lemma NonnegativeOrdered(modules: seq<TestModule>)
    requires NonnegativeModules(modules)
    ensures NonnegativeModules(Ordered(modules))
  {
    OrderedSorts(modules);
    forall i | 0 <= i < |Ordered(modules)|
      ensures Ordered(modules)[i].predicted >= 0.0
    {
      assert Ordered(modules)[i] in multiset(modules);
    }
  }

  // ---- Who sees the changed prediction ----------------------------------------------------

  /** Between `low` and `high`, from a member of the set to a nonmember, some member has a
      nonmember right above it. */
  lemma {:induction false} StepUp(b: set<nat>, low: nat, high: nat) returns (t: nat)
    requires low < high && low in b && high !in b
    ensures low <= t < high && t in b && t + 1 !in b
    decreases high - low
  {
    if low + 1 in b {
      t := StepUp(b, low + 1, high);
    } else {
      t := low;
    }
  }

  lemma {:induction false} StepDown(b: set<nat>, low: nat, high: nat) returns (t: nat)
    requires low < high && low !in b && high in b
    ensures low < t <= high && t in b && t - 1 !in b
    decreases high - low
  {
    if high - 1 in b {
      t := StepDown(b, low, high - 1);
    } else {
      t := high;
    }
  }

  /** The duration that the process at `w` reports for its first module: above everything if the
      late process has a smaller index, and zero otherwise. */
  function Surprise(modules: seq<TestModule>, w: nat, late: nat): real {
    if late < w && |modules| > 0 && |Ordered(modules)| > 0 then Ordered(modules)[0].predicted + 1.0 else 0.0
  }

  ghost function Surprised(modules: seq<TestModule>, w: nat, late: nat): seq<TestModule> {
    if w < |Ordered(modules)| then Changed(modules, Ordered(modules)[w].path, Surprise(modules, w, late)) else modules
  }

  /** If the processes in `b` see the changed prediction and the others do not, some module has its
      old home in `b` and its new home outside: nobody runs it. */
  lemma SomeModuleIsLost(modules: seq<TestModule>, m: nat, w: nat, late: nat, b: set<nat>) returns (u: string)
    requires m > 0 && DistinctPaths(modules) && NonnegativeModules(modules)
    requires w < m && late < m && Populated(modules, m, w) && Populated(modules, m, late)
    requires w !in b && late in b
    ensures u in Paths(modules)
    ensures forall s | s !in b :: u !in Paths(ShardOf(modules, m, s))
    ensures forall s | s in b :: u !in Paths(ShardOf(Surprised(modules, w, late), m, s))
  {
    hide Ordered, ShardOf, Greedy, Paths;
    PopulatedIff(modules, m, w);
    PopulatedIff(modules, m, late);
    var o := Ordered(modules);
    var t;
    if late < w {
      t := StepUp(b, late, w);
      RaisedMovesUp(modules, m, w, t);
      assert OnlyHome(Surprised(modules, w, late), m, o[t].path, t + 1);
    } else {
      t := StepDown(b, w, late);
      PopulatedIff(modules, m, t);
      LoweredMovesDown(modules, m, w, t);
      assert OnlyHome(Surprised(modules, w, late), m, o[t].path, t - 1);
    }
    PopulatedIff(modules, m, t);
    u := o[t].path;
    OldHome(modules, m, t);
  }

  lemma OldHome(modules: seq<TestModule>, m: nat, t: nat)
    requires m > 0 && DistinctPaths(modules) && NonnegativeModules(modules)
    requires t < m && Populated(modules, m, t)
    ensures t < |Ordered(modules)| && Ordered(modules)[t].path in Paths(modules)
    ensures Ordered(modules)[t].path in Paths(ShardOf(modules, m, t))
    ensures OnlyHome(modules, m, Ordered(modules)[t].path, t)
  {
    hide Ordered, ShardOf, Greedy;
    PopulatedIff(modules, m, t);
    var o := Ordered(modules);
    FirstPlacements(Predictions(o), m, t);
    OrderedSorts(modules);
    PathsOfPermutation(modules, o);
    forall s: nat
      ensures o[t].path in Paths(ShardOf(modules, m, s)) <==> s == t
    {
      HomeIs(modules, m, t, s);
    }
  }

  // ---- The order of events decides who sees it --------------------------------------------

  /** Whether the cache holds the changed prediction, and whether each process has read it. */
  datatype Paint = Paint(cache: bool, views: map<nat, bool>)

  ghost function Repaint(a: seq<TestModule>, b: seq<TestModule>, m: nat, w: nat, p: Paint, e: Event): Paint
    requires m > 0
  {
    match e
    case Start(s) => p.(views := p.views[s := p.cache])
    case Finish(s) =>
      if s == w then p.(cache := true)
      else if s !in p.views || !Populated(if p.views[s] then b else a, m, s) then p
      else p.(cache := p.views[s])
  }

  ghost function Painted(a: seq<TestModule>, b: seq<TestModule>, m: nat, w: nat, events: seq<Event>): Paint
    requires m > 0
  {
    if |events| == 0 then Paint(false, map[])
    else Repaint(a, b, m, w, Painted(a, b, m, w, events[..|events| - 1]), events[|events| - 1])
  }

  lemma {:induction false} PlainUntil(a: seq<TestModule>, b: seq<TestModule>, m: nat, w: nat, events: seq<Event>)
    requires m > 0 && Finish(w) !in events
    ensures var p := Painted(a, b, m, w, events);
            !p.cache && forall s | s in p.views :: !p.views[s]
  {
    if |events| > 0 {
      PlainUntil(a, b, m, w, events[..|events| - 1]);
    }
  }

  /** After the surprise and until the next process with modules ends, the cache keeps it. */
  lemma {:induction false} PaintedBetween(
      a: seq<TestModule>, b: seq<TestModule>, m: nat, w: nat, events: seq<Event>, i: nat)
    requires m > 0 && i < |events| && events[i] == Finish(w) && Finish(w) !in events[..i]
    requires forall k | i < k < |events| && events[k].Finish? :: !Populated(a, m, events[k].shard)
    ensures Painted(a, b, m, w, events).cache
    decreases |events|
  {
    var n := |events| - 1;
    var before := events[..n];
    if i < n {
      assert before[..i] == events[..i];
      PaintedBetween(a, b, m, w, before, i);
    }
  }

  lemma {:induction false} PaintIsKept(a: seq<TestModule>, b: seq<TestModule>, m: nat, w: nat, events: seq<Event>, j: nat)
    requires m > 0 && j < |events| && events[j].Start?
    requires forall i, k | 0 <= i < k < |events| :: events[i] != events[k]
    ensures var views, s := Painted(a, b, m, w, events).views, events[j].shard;
            s in views && views[s] == Painted(a, b, m, w, events[..j]).cache
    decreases |events|
  {
    var n := |events| - 1;
    var before := events[..n];
    if j < n {
      PaintIsKept(a, b, m, w, before, j);
      assert before[..j] == events[..j];
      assert events[n] != events[j];
    }
  }

  /** Views, once painted, stay painted: a prefix agrees with the whole. */
  lemma {:induction false} PrefixAgrees(a: seq<TestModule>, b: seq<TestModule>, m: nat, w: nat, events: seq<Event>, n: nat)
    requires m > 0 && n <= |events|
    requires forall i, k | 0 <= i < k < |events| :: events[i] != events[k]
    ensures var part, whole := Painted(a, b, m, w, events[..n]).views, Painted(a, b, m, w, events).views;
            forall s | s in part :: s in whole && whole[s] == part[s]
    decreases |events|
  {
    if n == |events| {
      assert events[..n] == events;
    } else {
      var last := |events| - 1;
      var before := events[..last];
      PrefixAgrees(a, b, m, w, before, n);
      assert before[..n] == events[..n];
      if events[last].Start? {
        NotYetStarted(a, b, m, w, before, events[last].shard);
      }
    }
  }

  lemma {:induction false} NotYetStarted(a: seq<TestModule>, b: seq<TestModule>, m: nat, w: nat, events: seq<Event>, s: nat)
    requires m > 0 && Start(s) !in events
    ensures s !in Painted(a, b, m, w, events).views
  {
    if |events| > 0 {
      NotYetStarted(a, b, m, w, events[..|events| - 1], s);
    }
  }

  // ---- Durations that follow the paint ----------------------------------------------------

  ghost function Lookup(modules: seq<TestModule>, path: string): real {
    if i :| 0 <= i < |modules| && modules[i].path == path then modules[i].predicted else 0.0
  }

  lemma LookupAt(modules: seq<TestModule>, i: nat)
    requires DistinctPaths(modules) && i < |modules|
    ensures Lookup(modules, modules[i].path) == modules[i].predicted
  {
  }

  /** Every process measures what it expected, but the one at `w` reports the surprise. */
  ghost function Following(a: seq<TestModule>, b: seq<TestModule>, w: nat, y: string, v: real, views: map<nat, bool>): Durations {
    (s: nat, path: string) =>
      if s == w && path == y then v
      else Lookup(if s in views && views[s] then b else a, path)
  }

  /** Writing expected durations leaves the predictions, and writing the surprise changes one. */
  lemma RewritingFollows(
      files: seq<TestFile>, view: Timings, ran: seq<TestModule>, s: nat, d: Durations, y: string, v: real, surprise: bool)
    requires surprise ==> y in Paths(ran)
    requires forall i | 0 <= i < |files| && files[i].path in Paths(ran) ::
               d(s, files[i].path) == if surprise && files[i].path == y then v else Seen(view, files)[i].predicted
    ensures Seen(Rewritten(view, ran, s, d), files) == if surprise then Changed(Seen(view, files), y, v) else Seen(view, files)
  {
    hide Paths;
    var after := Seen(Rewritten(view, ran, s, d), files);
    var expected := if surprise then Changed(Seen(view, files), y, v) else Seen(view, files);
    forall i | 0 <= i < |files|
      ensures after[i] == expected[i]
    {
    }
  }

  ghost predicate Matches(files: seq<TestFile>, a: seq<TestModule>, b: seq<TestModule>, w: World, p: Paint) {
    && Seen(w.cache, files) == (if p.cache then b else a)
    && w.views.Keys == p.views.Keys
    && forall s | s in w.views :: Seen(w.views[s], files) == if p.views[s] then b else a
  }

  /** What one event of the adverse run needs: the surprise is the process's own first module. */
  ghost predicate Adverse(files: seq<TestFile>, a: seq<TestModule>, b: seq<TestModule>, m: nat, w: nat, y: string, v: real)
    requires m > 0
  {
    && DistinctPaths(a) && |a| == |files| && (forall i | 0 <= i < |files| :: a[i].path == files[i].path)
    && b == Changed(a, y, v) && Populated(a, m, w) && y in Paths(ShardOf(a, m, w))
  }

  lemma FollowStep(
      files: seq<TestFile>, a: seq<TestModule>, b: seq<TestModule>, m: nat, w: nat, y: string, v: real,
      views: map<nat, bool>, world: World, p: Paint, e: Event)
    requires m > 0 && Adverse(files, a, b, m, w, y, v) && Matches(files, a, b, world, p)
    requires forall s | s in p.views :: s in views && views[s] == p.views[s]
    requires e == Finish(w) ==> w in p.views && !p.views[w]
    ensures Matches(files, a, b, Do(files, m, Following(a, b, w, y, v, views), world, e), Repaint(a, b, m, w, p, e))
  {
    hide ShardOf, Lookup, Rewritten, Paths;
    if e.Finish? && e.shard in world.views {
      var s, d := e.shard, Following(a, b, w, y, v, views);
      var x := if p.views[s] then b else a;
      var ran := ShardOf(x, m, s);
      forall i | 0 <= i < |files|
        ensures d(s, files[i].path) == if s == w && files[i].path == y then v else x[i].predicted
      {
        LookupAt(x, i);
      }
      RewritingFollows(files, world.views[s], ran, s, d, y, v, s == w);
    }
  }

  lemma {:induction false} RunFollows(
      files: seq<TestFile>, a: seq<TestModule>, b: seq<TestModule>, m: nat, w: nat, y: string, v: real,
      views: map<nat, bool>, cache: Timings, events: seq<Event>, n: nat)
    requires m > 0 && Adverse(files, a, b, m, w, y, v) && a == Seen(cache, files) && n <= |events|
    requires views == Painted(a, b, m, w, events).views
    requires forall i, k | 0 <= i < k < |events| :: events[i] != events[k]
    requires forall i | 0 <= i < |events| && events[i] == Finish(w) :: Start(w) in events[..i]
    ensures Matches(files, a, b, After(files, m, Following(a, b, w, y, v, views), cache, events[..n]),
                    Painted(a, b, m, w, events[..n]))
  {
    hide Do, Repaint, Adverse;
    var d := Following(a, b, w, y, v, views);
    if n > 0 {
      var before, e := events[..n - 1], events[n - 1];
      RunFollows(files, a, b, m, w, y, v, views, cache, events, n - 1);
      PrefixAgrees(a, b, m, w, events, n - 1);
      assert events[..n][..n - 1] == before;
      if e == Finish(w) {
        PlainUntil(a, b, m, w, before);
        var k :| 0 <= k < n - 1 && events[..n - 1][k] == Start(w);
        PaintIsKept(a, b, m, w, before, k);
      }
      FollowStep(files, a, b, m, w, y, v, views, After(files, m, d, cache, before), Painted(a, b, m, w, before), e);
    }
  }

  // ---- A late start: some durations lose a module -----------------------------------------

  /** The last process with modules to end before a late start. */
  lemma {:induction false} LastFinish(modules: seq<TestModule>, m: nat, events: seq<Event>, i: nat, j: nat) returns (last: nat)
    requires m > 0 && i < j < |events| && LateAt(modules, m, events, i, j)
    ensures i <= last < j && LateAt(modules, m, events, last, j)
    ensures forall k | last < k < j && events[k].Finish? :: !Populated(modules, m, events[k].shard)
    decreases j - i
  {
    if k :| i < k < j && LateAt(modules, m, events, k, j) {
      last := LastFinish(modules, m, events, k, j);
    } else {
      last := i;
      forall k | last < k < j && events[k].Finish?
        ensures !Populated(modules, m, events[k].shard)
      {
        assert !LateAt(modules, m, events, k, j);
      }
    }
  }

  ghost function Believers(views: map<nat, bool>): set<nat> {
    set s | s in views && views[s]
  }

  lemma LateOrderLoses(files: seq<TestFile>, m: nat, cache: Timings, events: seq<Event>) returns (d: Durations)
    requires m > 0 && ProperOrder(m, events) && ProperFiles(cache, files)
    requires StartsLate(Seen(cache, files), m, events)
    ensures ProperDurations(d) && !Covered(files, m, d, cache, events)
  {
    hide ShardOf, Ordered, After, Painted, Paths, Changed;
    var a := Seen(cache, files);
    var i0, j :| 0 <= i0 < j < |events| && LateAt(a, m, events, i0, j);
    var i := LastFinish(a, m, events, i0, j);
    var w, late := events[i].shard, events[j].shard;
    SeenProper(cache, files);
    OldHome(a, m, w);
    var y, v := Ordered(a)[w].path, Surprise(a, w, late);
    SurpriseNonnegative(a, w, late);
    var b := Surprised(a, w, late);
    var views := Painted(a, b, m, w, events).views;
    d := Following(a, b, w, y, v, views);
    FollowingNonnegative(a, b, w, y, v, views);
    WhoSeesIt(a, b, m, events, i, j);
    RunFollows(files, a, b, m, w, y, v, views, cache, events, |events|);
    assert events[..|events|] == events;
    var u := SomeModuleIsLost(a, m, w, late, Believers(views));
    NobodyRuns(files, m, d, cache, events, a, b, Painted(a, b, m, w, events), u);
  }

  lemma SeenProper(cache: Timings, files: seq<TestFile>)
    requires ProperFiles(cache, files)
    ensures DistinctPaths(Seen(cache, files)) && NonnegativeModules(Seen(cache, files))
  {
  }

  lemma SurpriseNonnegative(a: seq<TestModule>, w: nat, late: nat)
    requires NonnegativeModules(a)
    ensures Surprise(a, w, late) >= 0.0
    ensures NonnegativeModules(Surprised(a, w, late))
  {
    hide Ordered;
    NonnegativeOrdered(a);
  }

  lemma FollowingNonnegative(a: seq<TestModule>, b: seq<TestModule>, w: nat, y: string, v: real, views: map<nat, bool>)
    requires NonnegativeModules(a) && NonnegativeModules(b) && v >= 0.0
    ensures ProperDurations(Following(a, b, w, y, v, views))
  {
    hide Lookup;
    forall s: nat, path: string
      ensures Following(a, b, w, y, v, views)(s, path) >= 0.0
    {
      LookupNonnegative(a, path);
      LookupNonnegative(b, path);
    }
  }

  lemma LookupNonnegative(modules: seq<TestModule>, path: string)
    requires NonnegativeModules(modules)
    ensures Lookup(modules, path) >= 0.0
  {
  }

  /** The late process sees the surprise, and the surprising process does not. */
  lemma WhoSeesIt(a: seq<TestModule>, b: seq<TestModule>, m: nat, events: seq<Event>, i: nat, j: nat)
    requires m > 0 && ProperOrder(m, events) && i < j < |events| && LateAt(a, m, events, i, j)
    requires forall k | i < k < j && events[k].Finish? :: !Populated(a, m, events[k].shard)
    ensures var w, views := events[i].shard, Painted(a, b, m, events[i].shard, events).views;
            w !in Believers(views) && events[j].shard in Believers(views)
  {
    hide Painted, Populated;
    var w := events[i].shard;
    assert Start(w) in events[..i];
    var k :| 0 <= k < i && events[..i][k] == Start(w);
    PaintIsKept(a, b, m, w, events, k);
    PlainUntil(a, b, m, w, events[..k]);
    PaintIsKept(a, b, m, w, events, j);
    PaintedBetween(a, b, m, w, events[..j], i);
  }

  lemma NobodyRuns(
      files: seq<TestFile>, m: nat, d: Durations, cache: Timings, events: seq<Event>,
      a: seq<TestModule>, b: seq<TestModule>, p: Paint, u: string)
    requires m > 0 && a == Seen(cache, files) && Matches(files, a, b, After(files, m, d, cache, events), p)
    requires u in Paths(a)
    requires forall s | s !in Believers(p.views) :: u !in Paths(ShardOf(a, m, s))
    requires forall s | s in Believers(p.views) :: u !in Paths(ShardOf(b, m, s))
    ensures !Covered(files, m, d, cache, events)
  {
    hide ShardOf, After;
    var i :| 0 <= i < |a| && a[i].path == u;
    assert files[i] in files && files[i].path == u;
  }

  /** Whatever the durations, all modules are run, if and only if no process with modules starts
      after another process with modules has ended. */
  lemma CoverageIff(files: seq<TestFile>, m: nat, cache: Timings, events: seq<Event>)
    requires m > 0 && ProperOrder(m, events) && ProperFiles(cache, files)
    ensures (forall d: Durations | ProperDurations(d) :: Covered(files, m, d, cache, events))
            <==> !StartsLate(Seen(cache, files), m, events)
  {
    hide Covered, StartsLate, ProperOrder, ProperFiles;
    if StartsLate(Seen(cache, files), m, events) {
      var d := LateOrderLoses(files, m, cache, events);
    } else {
      forall d: Durations
        ensures Covered(files, m, d, cache, events)
      {
        PunctualOrderCovers(files, m, d, cache, events);
      }
    }
  }
}
