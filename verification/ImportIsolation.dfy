/** The isolated import runtime of the source replay: a scope that hides the loaded `acfqp` modules,
    puts a guard in front of all importers, and restores what it found. */
module ImportIsolation {

  // ---- Forbidden names --------------------------------------------------------------------

  predicate StartsWith(s: string, prefix: string) {
    prefix <= s
  }

  function Lower(s: string): (r: string)
    ensures |r| == |s|
  {
    seq(|s|, i requires 0 <= i < |s| =>
      if 'A' <= s[i] <= 'Z' then (s[i] as int + 32) as char else s[i])
  }

  predicate Contains(s: string, marker: string) {
    |marker| <= |s| && (marker <= s || Contains(s[1..], marker))
  }

  /** What follows the last dot. */
  function Leaf(name: string): (r: string)
    ensures |r| <= |name| && r == name[|name| - |r|..] && '.' !in r
    ensures |r| < |name| ==> name[|name| - |r| - 1] == '.'
  {
    if |name| == 0 || name[|name| - 1] == '.' then []
    else
      var shorter := Leaf(name[..|name| - 1]);
      shorter + [name[|name| - 1]]
  }

  const FORBIDDEN_NAMES: set<string> := {"acfqp." + "v072_confirmatory_execution_manifest_v1"}
  const FORBIDDEN_MARKERS: seq<string> := ["heldout", "target"]

  predicate IsForbidden(name: string) {
    || name in FORBIDDEN_NAMES
    || (StartsWith(name, "acfqp.") && exists m :: m in FORBIDDEN_MARKERS && Contains(Lower(Leaf(name)), m))
  }

  /** The package itself and everything below it. */
  predicate IsOwn(name: string) {
    name == "acfqp" || StartsWith(name, "acfqp.")
  }

  lemma ForbiddenIsOwn(name: string)
    requires IsForbidden(name)
    ensures IsOwn(name)
  {
  }

  // ---- What the tests on names mean -------------------------------------------------------

  ghost predicate OccursAt(s: string, marker: string, i: nat) {
    i + |marker| <= |s| && s[i..i + |marker|] == marker
  }

  /** A string contains a marker if and only if the marker stands at some position of it. */
  lemma {:induction false} ContainsIff(s: string, marker: string)
    ensures Contains(s, marker) <==> exists i: nat :: OccursAt(s, marker, i)
  {
    if marker <= s {
      assert OccursAt(s, marker, 0);
    } else if |marker| <= |s| {
      var rest := s[1..];
      ContainsIff(rest, marker);
      if i: nat :| OccursAt(rest, marker, i) {
        assert OccursAt(s, marker, i + 1);
      }
      if i: nat :| OccursAt(s, marker, i) {
        assert i > 0;
        assert OccursAt(rest, marker, i - 1);
      }
    }
  }

  const UPPER: string := "ABCDEFGHIJKLMNOPQRSTUVWXYZ"
  const LOWER: string := "abcdefghijklmnopqrstuvwxyz"

  /** Lowering maps the upper-case alphabet to the lower-case one and keeps every other character. */
  lemma LowerMaps(s: string, i: nat)
    requires i < |s|
    ensures forall k | 0 <= k < 26 :: s[i] == UPPER[k] ==> Lower(s)[i] == LOWER[k]
    ensures s[i] !in UPPER ==> Lower(s)[i] == s[i]
  {
    Alphabet();
    hide UPPER, LOWER;
    var k := s[i] as int - 'A' as int;
    if 0 <= k < 26 {
      assert s[i] == UPPER[k];
    }
  }

  lemma Alphabet()
    ensures |UPPER| == |LOWER| == 26
    ensures forall j | 0 <= j < 26 :: UPPER[j] as int == 65 + j && LOWER[j] as int == 97 + j
  {
  }

  lemma LowerSlice(s: string, i: nat, j: nat)
    requires i <= j <= |s|
    ensures Lower(s[i..j]) == Lower(s)[i..j]
  {
  }

  /** A marker stands, in either case, after the last dot. */
  ghost predicate Marks(name: string, dot: nat, i: nat, marker: string) {
    && dot < i && i + |marker| <= |name| && name[dot] == '.' && '.' !in name[dot + 1..]
    && Lower(name[i..i + |marker|]) == marker
  }

  ghost predicate MarkedBy(name: string, marker: string) {
    exists dot: nat, i: nat :: Marks(name, dot, i, marker)
  }

  /** A name is forbidden if and only if it is the registered manifest module or lies below the
      package and a marker stands after its last dot. */
  lemma IsForbiddenIff(name: string)
    ensures IsForbidden(name) <==>
            || name == "acfqp.v072_confirmatory_execution_manifest_v1"
            || (|name| >= 6 && name[..6] == "acfqp." && (MarkedBy(name, "heldout") || MarkedBy(name, "target")))
  {
    hide Lower, Leaf, Contains, MarkedBy, FORBIDDEN_NAMES, FORBIDDEN_MARKERS;
    Registered(name);
    if StartsWith(name, "acfqp.") {
      assert name[..6] == "acfqp." && name[5] == '.';
      MarkedIff(name, "heldout");
      MarkedIff(name, "target");
    }
  }

  lemma Registered(name: string)
    ensures name in FORBIDDEN_NAMES <==> name == "acfqp.v072_confirmatory_execution_manifest_v1"
    ensures (exists m :: m in FORBIDDEN_MARKERS && Contains(Lower(Leaf(name)), m)) <==>
            Contains(Lower(Leaf(name)), "heldout") || Contains(Lower(Leaf(name)), "target")
  {
    hide Lower, Leaf, Contains;
    assert "acfqp." + "v072_confirmatory_execution_manifest_v1" == "acfqp.v072_confirmatory_execution_manifest_v1";
    assert FORBIDDEN_MARKERS[0] == "heldout" && FORBIDDEN_MARKERS[1] == "target";
  }

  lemma MarkedIff(name: string, marker: string)
    requires |name| >= 6 && name[5] == '.'
    ensures Contains(Lower(Leaf(name)), marker) <==> MarkedBy(name, marker)
  {
    hide Lower, Leaf, Contains;
    var d := LastDot(name);
    LeafContains(name, d, marker);
    forall dot: nat, i: nat | Marks(name, dot, i, marker)
      ensures dot == d
    {
      if dot < d {
        DotBehind(name, dot, d);
      } else if d < dot {
        DotBehind(name, d, dot);
      }
    }
  }

  lemma DotBehind(name: string, d: nat, e: nat)
    requires d < e < |name| && name[e] == '.'
    ensures '.' in name[d + 1..]
  {
    assert name[d + 1..][e - d - 1] == '.';
  }

  lemma LastDot(name: string) returns (d: nat)
    requires |name| >= 6 && name[5] == '.'
    ensures d < |name| && name[d] == '.' && '.' !in name[d + 1..] && Leaf(name) == name[d + 1..]
  {
    var size := |Leaf(name)|;
    assert name[5] in name && name[0..] == name;
    if size == |name| {
      assert false;
    }
    d := |name| - size - 1;
  }

  lemma LeafContains(name: string, d: nat, marker: string)
    requires d < |name| && name[d] == '.' && '.' !in name[d + 1..] && Leaf(name) == name[d + 1..]
    ensures Contains(Lower(Leaf(name)), marker) <==> exists i: nat :: Marks(name, d, i, marker)
  {
    hide Leaf, Lower, Contains;
    var leaf := Leaf(name);
    ContainsIff(Lower(leaf), marker);
    if j: nat :| OccursAt(Lower(leaf), marker, j) {
      var i := d + 1 + j;
      LowerSlice(leaf, j, j + |marker|);
      assert leaf[j..j + |marker|] == name[i..i + |marker|];
      assert Marks(name, d, i, marker);
    }
    if i: nat :| Marks(name, d, i, marker) {
      var j := i - d - 1;
      LowerSlice(leaf, j, j + |marker|);
      assert leaf[j..j + |marker|] == name[i..i + |marker|];
      assert OccursAt(Lower(leaf), marker, j);
    }
  }

  /** The own names: the package's five letters, alone or followed by a dot. */
  lemma IsOwnIff(name: string)
    ensures IsOwn(name) <==> |name| >= 5 && name[..5] == "acfqp" && (|name| > 5 ==> name[5] == '.')
  {
    if |name| > 5 && name[..5] == "acfqp" && name[5] == '.' {
      assert name[..6] == name[..5] + ['.'] == "acfqp.";
    }
    if StartsWith(name, "acfqp.") {
      assert name[..6] == "acfqp.";
      assert name[..5] == name[..6][..5] == "acfqp";
    }
  }

  // ---- The interpreter's import state -----------------------------------------------------

  type Module = nat

  /** An entry of the importer list: the guard of this scope or another importer. */
  datatype Finder = Guard | Importer(id: nat)

  datatype State = State(modules: map<string, Module>, path: seq<string>, finders: seq<Finder>, denied: seq<string>)

  datatype Found = Located(found: Module) | Missing

  /** What the other importers find, given the name and the import path. */
  type Resolver = (nat, string, seq<string>) -> Found

  datatype Search = Loaded(loaded: Module) | NotFound | Denied

  /** Asking the importers in order; the guard denies forbidden names and passes on the rest. */
  function Find(finders: seq<Finder>, name: string, path: seq<string>, resolve: Resolver): Search {
    if |finders| == 0 then NotFound
    else
      match finders[0]
      case Guard => if IsForbidden(name) then Denied else Find(finders[1..], name, path, resolve)
      case Importer(id) =>
        match resolve(id, name, path)
        case Located(m) => Loaded(m)
        case Missing => Find(finders[1..], name, path, resolve)
  }

  /** An importer that decides nothing about a name. */
  ghost predicate Passes(f: Finder, name: string, path: seq<string>, resolve: Resolver) {
    match f
    case Guard => !IsForbidden(name)
    case Importer(id) => resolve(id, name, path).Missing?
  }

  /** The importer that decides is the first that does not pass: an importer answers with what it
      found, the guard denies; if all pass, nothing is found. */
  lemma {:induction false} FirstDecides(finders: seq<Finder>, name: string, path: seq<string>, resolve: Resolver, k: nat)
    requires k <= |finders| && forall j | 0 <= j < k :: Passes(finders[j], name, path, resolve)
    requires k < |finders| ==> !Passes(finders[k], name, path, resolve)
    ensures k == |finders| ==> Find(finders, name, path, resolve) == NotFound
    ensures k < |finders| && finders[k].Guard? ==> Find(finders, name, path, resolve) == Denied
    ensures k < |finders| && finders[k].Importer? ==>
              Find(finders, name, path, resolve).Loaded?
              && resolve(finders[k].id, name, path) == Located(Find(finders, name, path, resolve).loaded)
  {
    hide IsForbidden;
    if k > 0 {
      assert Passes(finders[0], name, path, resolve);
      FirstDecides(finders[1..], name, path, resolve, k - 1);
    }
  }

  /** What code inside the scope can do to the import state. */
  datatype Action =
    | Import(name: string)
    | Assign(name: string, target: Module)
    | Delete(name: string)
    | SetPath(path: seq<string>)
    | SetFinders(finders: seq<Finder>)

  function Do(s: State, a: Action, resolve: Resolver): State {
    match a
    case Import(name) =>
      if name in s.modules then s
      else
        (match Find(s.finders, name, s.path, resolve)
         case Loaded(m) => s.(modules := s.modules[name := m])
         case Denied => s.(denied := s.denied + [name])
         case NotFound => s)
    case Assign(name, target) => s.(modules := s.modules[name := target])
    case Delete(name) => s.(modules := s.modules - {name})
    case SetPath(path) => s.(path := path)
    case SetFinders(finders) => s.(finders := finders)
  }

  function After(s: State, body: seq<Action>, resolve: Resolver): State {
    if |body| == 0 then s else Do(After(s, body[..|body| - 1], resolve), body[|body| - 1], resolve)
  }

  // ---- Entering and leaving ---------------------------------------------------------------

  function Own(modules: map<string, Module>): map<string, Module> {
    map name | name in modules && IsOwn(name) :: modules[name]
  }

  function Foreign(modules: map<string, Module>): map<string, Module> {
    map name | name in modules && !IsOwn(name) :: modules[name]
  }

  function Entered(s: State, root: string): State {
    State(Foreign(s.modules), [root] + s.path, [Guard] + s.finders, [])
  }

  function RemoveGuard(finders: seq<Finder>): seq<Finder> {
    if |finders| == 0 then []
    else if finders[0].Guard? then finders[1..]
    else [finders[0]] + RemoveGuard(finders[1..])
  }

  class Interpreter {
    var modules: map<string, Module>
    var path: seq<string>
    var finders: seq<Finder>
    var denied: seq<string>

    function Current(): State
      reads this
    {
      State(modules, path, finders, denied)
    }

    /** Hide the own modules and put the snapshot root and the guard first. */
    method Enter(root: string) returns (stashed: map<string, Module>, originalPath: seq<string>)
      modifies this
      ensures Current() == Entered(old(Current()), root)
      ensures stashed == old(Own(modules)) && originalPath == old(path)
    {
      stashed := map name | name in modules && IsOwn(name) :: modules[name];
      modules := map name | name in modules && !IsOwn(name) :: modules[name];
      originalPath := path;
      path := [root] + path;
      finders := [Guard] + finders;
      denied := [];
    }

    method RunBody(body: seq<Action>, resolve: Resolver)
      modifies this
      ensures Current() == After(old(Current()), body, resolve)
    {
      hide Do;
      ghost var entered := Current();
      for n := 0 to |body|
        invariant Current() == After(entered, body[..n], resolve)
      {
        assert body[..n + 1][..n] == body[..n];
        Perform(body[n], resolve);
      }
      assert body[..|body|] == body;
    }

    /** The `finally` clause. */
    method Leave(stashed: map<string, Module>, originalPath: seq<string>)
      requires forall name | name in stashed :: IsOwn(name)
      modifies this
      ensures Own(modules) == stashed && Foreign(modules) == old(Foreign(modules))
      ensures path == originalPath && finders == old(RemoveGuard(finders)) && denied == old(denied)
    {
      hide IsOwn;
      if Guard in finders {
        finders := RemoveGuard(finders);
      } else {
        NothingToRemove(finders);
      }
      path := originalPath;
      modules := map name | name in modules && !IsOwn(name) :: modules[name];
      modules := modules + stashed;
    }

    /** The scope around an arbitrary body, which may end normally or by raising at any point. */
    method RunIsolated(root: string, body: seq<Action>, resolve: Resolver)
      requires Guard !in finders
      modifies this
      ensures var end := After(old(Entered(Current(), root)), body, resolve);
              && Own(modules) == old(Own(modules)) && Foreign(modules) == Foreign(end.modules)
              && path == old(path) && finders == RemoveGuard(end.finders) && denied == end.denied
    {
      hide IsOwn, Entered, After, RemoveGuard, Foreign;
      var stashed, originalPath := Enter(root);
      RunBody(body, resolve);
      Leave(stashed, originalPath);
    }

    method Perform(action: Action, resolve: Resolver)
      modifies this
      ensures Current() == Do(old(Current()), action, resolve)
    {
      match action
      case Import(name) =>
        if name !in modules {
          match Find(finders, name, path, resolve) {
            case Loaded(m) => modules := modules[name := m];
            case Denied => denied := denied + [name];
            case NotFound =>
          }
        }
      case Assign(name, target) => modules := modules[name := target];
      case Delete(name) => modules := modules - {name};
      case SetPath(newPath) => path := newPath;
      case SetFinders(newFinders) => finders := newFinders;
    }
  }

  lemma {:induction false} NothingToRemove(finders: seq<Finder>)
    requires Guard !in finders
    ensures RemoveGuard(finders) == finders
  {
    if |finders| > 0 {
      NothingToRemove(finders[1..]);
    }
  }

  // ---- What the scope guarantees ----------------------------------------------------------

  ghost function Guards(finders: seq<Finder>): nat {
    multiset(finders)[Guard]
  }

  lemma {:induction false} RemoveGuardOnce(finders: seq<Finder>)
    ensures multiset(RemoveGuard(finders)) == multiset(finders) - multiset{Guard}
  {
    if |finders| > 0 {
      assert finders == [finders[0]] + finders[1..];
      RemoveGuardOnce(finders[1..]);
    }
  }

  /** Removing takes out the first guard and keeps the order of all others. */
  lemma {:induction false} FirstGuardRemoved(finders: seq<Finder>, i: nat)
    requires i < |finders| && finders[i] == Guard && Guard !in finders[..i]
    ensures RemoveGuard(finders) == finders[..i] + finders[i + 1..]
  {
    if i > 0 {
      assert finders[0] in finders[..i];
      assert finders[1..][..i - 1] == finders[..i][1..];
      FirstGuardRemoved(finders[1..], i - 1);
    }
  }

  /** The guard is gone after the scope exactly when it stood at most once at the end of the body. */
  lemma GuardRemovedIff(finders: seq<Finder>)
    ensures Guard !in RemoveGuard(finders) <==> Guards(finders) <= 1
  {
    RemoveGuardOnce(finders);
    assert Guard in RemoveGuard(finders) <==> Guard in multiset(RemoveGuard(finders));
  }

  /** A body that leaves the importer list alone gets it back unchanged. */
  lemma UntouchedFindersRestored(finders: seq<Finder>)
    ensures RemoveGuard([Guard] + finders) == finders
  {
  }

  /** A body that only imports and sets the path. */
  ghost predicate OnlyImports(body: seq<Action>) {
    forall i | 0 <= i < |body| :: body[i].Import? || body[i].SetPath?
  }

  /** The forbidden names a body imports, in order. */
  ghost function Attempts(body: seq<Action>): seq<string> {
    if |body| == 0 then []
    else
      var last := body[|body| - 1];
      Attempts(body[..|body| - 1]) + if last.Import? && IsForbidden(last.name) then [last.name] else []
  }

  ghost predicate Clean(s: State) {
    |s.finders| > 0 && s.finders[0].Guard? && forall name | name in s.modules :: !IsForbidden(name)
  }

  lemma GuardedStep(s: State, a: Action, resolve: Resolver)
    requires Clean(s) && (a.Import? || a.SetPath?)
    ensures Clean(Do(s, a, resolve)) && Do(s, a, resolve).finders == s.finders
    ensures Do(s, a, resolve).denied == s.denied + if a.Import? && IsForbidden(a.name) then [a.name] else []
  {
    hide IsForbidden;
    if a.Import? && !IsForbidden(a.name) {
      OnlyForbiddenDenied(s.finders, a.name, s.path, resolve);
    }
  }

  lemma {:induction false} OnlyForbiddenDenied(finders: seq<Finder>, name: string, path: seq<string>, resolve: Resolver)
    requires !IsForbidden(name)
    ensures !Find(finders, name, path, resolve).Denied?
  {
    if |finders| > 0 {
      OnlyForbiddenDenied(finders[1..], name, path, resolve);
    }
  }

  lemma EntersClean(s: State, root: string)
    ensures Clean(Entered(s, root))
  {
    hide IsForbidden, IsOwn;
    forall name | name in Foreign(s.modules)
      ensures !IsForbidden(name)
    {
      if IsForbidden(name) {
        ForbiddenIsOwn(name);
      }
    }
  }

  /** Inside the scope, code that only imports never gets a forbidden module loaded, and the record
      of denied attempts is exactly its sequence of forbidden imports. */
  lemma {:induction false} ForbiddenNeverLoaded(s: State, root: string, body: seq<Action>, resolve: Resolver)
    requires OnlyImports(body)
    ensures var end := After(Entered(s, root), body, resolve);
            && end.finders == [Guard] + s.finders && end.denied == Attempts(body)
            && forall name | name in end.modules :: !IsForbidden(name)
  {
    hide IsForbidden, Do;
    EntersClean(s, root);
    for n := 0 to |body|
      invariant var end := After(Entered(s, root), body[..n], resolve);
                Clean(end) && end.finders == [Guard] + s.finders && end.denied == Attempts(body[..n])
    {
      assert body[..n + 1][..n] == body[..n];
      GuardedStep(After(Entered(s, root), body[..n], resolve), body[n], resolve);
    }
    assert body[..|body|] == body;
  }

  // ---- The state assertion ----------------------------------------------------------------

  datatype Assertion = Holds(observed: set<string>) | Violated

  /** The check made inside the scope: no denied attempt, no forbidden module, exactly the
      allowlisted own modules, each with a trusted origin. */
  method AssertSourceOnly(s: State, allowlist: set<string>, trusted: (string, Module) -> bool) returns (r: Assertion)
    ensures r.Holds? <==> && s.denied == [] && Own(s.modules).Keys == allowlist
                          && (forall name | name in allowlist :: !IsForbidden(name))
                          && (forall name | name in Own(s.modules) :: trusted(name, s.modules[name]))
    ensures r.Holds? ==> r.observed == allowlist && forall name | name in s.modules :: !IsForbidden(name)
  {
    hide IsForbidden, IsOwn;
    forall name | IsForbidden(name)
      ensures IsOwn(name)
    {
      ForbiddenIsOwn(name);
    }
    var forbidden := set name | name in s.modules && IsForbidden(name);
    if s.denied != [] || forbidden != {} {
      return Violated;
    }
    var observed := set name | name in s.modules && IsOwn(name);
    assert observed == Own(s.modules).Keys;
    if observed != allowlist {
      return Violated;
    }
    var untrusted := set name | name in observed && !trusted(name, s.modules[name]);
    assert untrusted == {} <==> forall name | name in observed :: name !in untrusted;
    if untrusted != {} {
      return Violated;
    }
    return Holds(observed);
  }

  /** Leaving the scope leaks nothing forbidden: such a module is loaded afterwards exactly when it
      was loaded before, and is then the same one. */
  lemma NothingForbiddenLeaks(entry: map<string, Module>, exit: map<string, Module>, name: string)
    requires Own(exit) == Own(entry) && IsForbidden(name)
    ensures name in exit <==> name in entry
    ensures name in exit ==> exit[name] == entry[name]
  {
    ForbiddenIsOwn(name);
    assert name in Own(exit) <==> name in exit;
    assert name in Own(entry) <==> name in entry;
  }
}
