/** Owner-bound mints: the recursive fingerprint of an authority's public fields, the mint that is
    bound to one object identity, and what a whole process can do with both. */
module RuntimeAuthority {

  // ---- Values and fingerprints ------------------------------------------------------------

  datatype Scalar = Nothing | Text(text: string) | Integer(number: int) | Boolean(truth: bool) | Binary(bytes: seq<bv8>)

  /** A field value: a scalar of exact built-in type, an enumeration member with a scalar value, an
      exact tuple, or any other object, known by its class and identity. */
  datatype Value =
    | Plain(scalar: Scalar)
    | Member(enumeration: nat, value: Scalar)
    | Tuple(items: seq<Value>)
    | Object(classId: nat, id: nat)

  /** The parts fingerprints are made of; classes are known by identity. */
  datatype Print = Atom(scalar: Scalar) | Class(id: nat) | Row(items: seq<Print>)

  /** The enumeration classes; a class is one or it is not. */
  type Enumerations = nat -> bool

  function Component(value: Value): Print {
    match value
    case Plain(scalar) => Atom(scalar)
    case Member(enumeration, v) => Row([Class(enumeration), Atom(v)])
    case Tuple(items) => Row(seq(|items|, i requires 0 <= i < |items| => Component(items[i])))
    case Object(c, id) => Row([Class(c), Atom(Integer(id))])
  }

  datatype Field = Field(name: string, value: Value)

  predicate IsPublic(f: Field) {
    f.name == [] || f.name[0] != '_'
  }

  function Public(fields: seq<Field>): seq<Field> {
    if |fields| == 0 then []
    else Public(fields[..|fields| - 1]) + if IsPublic(fields[|fields| - 1]) then [fields[|fields| - 1]] else []
  }

  function Fingerprint(fields: seq<Field>): Print {
    var public := Public(fields);
    Row(seq(|public|, i requires 0 <= i < |public| => Row([Atom(Text(public[i].name)), Component(public[i].value)])))
  }

  /** Python's `==` on scalars: a boolean equals the integer 0 or 1. */
  predicate SameScalar(a: Scalar, b: Scalar) {
    match (a, b)
    case (Boolean(x), Integer(n)) => n == if x then 1 else 0
    case (Integer(n), Boolean(x)) => n == if x then 1 else 0
    case _ => a == b
  }

  /** Scalars are equal if and only if they are the same, or one is true and the other 1, or one is
      false and the other 0; and equality is an equivalence. */
  lemma SameScalarIff(a: Scalar, b: Scalar, c: Scalar)
    ensures SameScalar(a, b) <==> a == b || {a, b} == {Boolean(true), Integer(1)} || {a, b} == {Boolean(false), Integer(0)}
    ensures SameScalar(a, b) ==> SameScalar(b, a)
    ensures SameScalar(a, b) && SameScalar(b, c) ==> SameScalar(a, c)
  {
    var one, zero := {Boolean(true), Integer(1)}, {Boolean(false), Integer(0)};
    assert {a, b} == one ==> a in one && b in one;
    assert {a, b} == zero ==> a in zero && b in zero;
  }

  /** The public fields in their order: those whose name does not start with an underscore. */
  lemma PublicKeeps(f: seq<Field>, g: seq<Field>, x: Field)
    ensures Public(f + g) == Public(f) + Public(g)
    ensures Public([x]) == if |x.name| > 0 && x.name[..1] == "_" then [] else [x]
  {
    PublicAdds(f, g);
    assert [x][..0] == [];
    assert |x.name| > 0 ==> x.name[..1] == [x.name[0]];
  }

  lemma {:induction false} PublicAdds(f: seq<Field>, g: seq<Field>)
    ensures Public(f + g) == Public(f) + Public(g)
    decreases |g|
  {
    hide IsPublic;
    if |g| == 0 {
      assert f + g == f;
    } else {
      var all, n := f + g, |g| - 1;
      assert all[..|all| - 1] == f + g[..n];
      PublicAdds(f, g[..n]);
    }
  }

  /** Python's `==` on fingerprints. */
  predicate SamePrint(p: Print, q: Print) {
    match (p, q)
    case (Atom(a), Atom(b)) => SameScalar(a, b)
    case (Class(c), Class(d)) => c == d
    case (Row(xs), Row(ys)) => |xs| == |ys| && forall i | 0 <= i < |xs| :: SamePrint(xs[i], ys[i])
    case _ => false
  }

  /** Agreement of two field values: same tuple shape, members of the same class and identity, same
      enumeration members, scalars up to `True == 1`. */
  ghost predicate Agree(v: Value, w: Value) {
    match (v, w)
    case (Plain(a), Plain(b)) => SameScalar(a, b)
    case (Member(e, a), Member(f, b)) => e == f && SameScalar(a, b)
    case (Tuple(xs), Tuple(ys)) => |xs| == |ys| && forall i | 0 <= i < |xs| :: Agree(xs[i], ys[i])
    case (Object(c, i), Object(d, j)) => c == d && i == j
    case _ => false
  }

  /** Members belong to enumeration classes and other objects do not. */
  ghost predicate Typed(enums: Enumerations, v: Value) {
    match v
    case Plain(_) => true
    case Member(e, _) => enums(e)
    case Tuple(items) => forall i | 0 <= i < |items| :: Typed(enums, items[i])
    case Object(c, _) => !enums(c)
  }

  ghost predicate TypedFields(enums: Enumerations, fields: seq<Field>) {
    forall i | 0 <= i < |fields| :: Typed(enums, fields[i].value)
  }

  /** Equal components mean agreeing values, and conversely. */
  lemma {:induction false} ComponentIsFaithful(enums: Enumerations, v: Value, w: Value)
    requires Typed(enums, v) && Typed(enums, w)
    ensures SamePrint(Component(v), Component(w)) <==> Agree(v, w)
    decreases v
  {
    match (v, w) {
      case (Tuple(xs), Tuple(ys)) =>
        if |xs| == |ys| {
          forall i | 0 <= i < |xs|
            ensures SamePrint(Component(xs[i]), Component(ys[i])) <==> Agree(xs[i], ys[i])
          {
            ComponentIsFaithful(enums, xs[i], ys[i]);
          }
          TupleComponents(xs, ys);
        }
      case (Tuple(xs), Member(e, a)) =>
        NotAClass(xs, Class(e), Atom(a));
      case (Tuple(xs), Object(c, i)) =>
        NotAClass(xs, Class(c), Atom(Integer(i)));
      case (Member(e, a), Tuple(ys)) =>
        NotAClass(ys, Class(e), Atom(a));
      case (Object(c, i), Tuple(ys)) =>
        NotAClass(ys, Class(c), Atom(Integer(i)));
      case (Member(e, a), Member(f, b)) =>
        PairsAgree(Class(e), Atom(a), Class(f), Atom(b));
      case (Member(e, a), Object(d, j)) =>
        PairsAgree(Class(e), Atom(a), Class(d), Atom(Integer(j)));
      case (Object(c, i), Member(f, b)) =>
        PairsAgree(Class(c), Atom(Integer(i)), Class(f), Atom(b));
      case (Object(c, i), Object(d, j)) =>
        PairsAgree(Class(c), Atom(Integer(i)), Class(d), Atom(Integer(j)));
      case _ =>
    }
  }

  lemma PairsAgree(a: Print, b: Print, c: Print, d: Print)
    ensures SamePrint(Row([a, b]), Row([c, d])) <==> SamePrint(a, c) && SamePrint(b, d)
  {
    var xs, ys := [a, b], [c, d];
    if SamePrint(Row(xs), Row(ys)) {
      assert SamePrint(xs[0], ys[0]) && SamePrint(xs[1], ys[1]);
    }
  }

  lemma TupleComponents(xs: seq<Value>, ys: seq<Value>)
    requires |xs| == |ys|
    ensures SamePrint(Component(Tuple(xs)), Component(Tuple(ys))) <==>
            forall i | 0 <= i < |xs| :: SamePrint(Component(xs[i]), Component(ys[i]))
  {
    var ps, qs := Component(Tuple(xs)).items, Component(Tuple(ys)).items;
    if SamePrint(Row(ps), Row(qs)) {
      forall i | 0 <= i < |xs|
        ensures SamePrint(Component(xs[i]), Component(ys[i]))
      {
        assert SamePrint(ps[i], qs[i]);
      }
    }
  }

  /** The component of a tuple never starts with a class. */
  lemma NotAClass(xs: seq<Value>, c: Print, a: Print)
    requires c.Class?
    ensures !SamePrint(Component(Tuple(xs)), Row([c, a])) && !SamePrint(Row([c, a]), Component(Tuple(xs)))
  {
    var ps := Component(Tuple(xs)).items;
    var qs := [c, a];
    if |ps| == 2 {
      assert ps[0] == Component(xs[0]);
      assert !SamePrint(ps[0], qs[0]) && !SamePrint(qs[0], ps[0]);
    }
  }

  /** Agreement of two records: the same public names in the same order, and agreeing values. */
  ghost predicate RecordsAgree(f: seq<Field>, g: seq<Field>) {
    && |Public(f)| == |Public(g)|
    && forall i | 0 <= i < |Public(f)| :: Public(f)[i].name == Public(g)[i].name && Agree(Public(f)[i].value, Public(g)[i].value)
  }

  lemma {:induction false} PublicTyped(enums: Enumerations, fields: seq<Field>)
    requires TypedFields(enums, fields)
    ensures TypedFields(enums, Public(fields))
  {
    if |fields| > 0 {
      PublicTyped(enums, fields[..|fields| - 1]);
    }
  }

  /** Fingerprints are equal exactly when the public fields agree one by one. */
  lemma FingerprintIsFaithful(enums: Enumerations, f: seq<Field>, g: seq<Field>)
    requires TypedFields(enums, f) && TypedFields(enums, g)
    ensures SamePrint(Fingerprint(f), Fingerprint(g)) <==> RecordsAgree(f, g)
  {
    hide Component, Public, Agree;
    var p, q := Public(f), Public(g);
    var xs, ys := Fingerprint(f).items, Fingerprint(g).items;
    PublicTyped(enums, f);
    PublicTyped(enums, g);
    if |p| == |q| {
      forall i | 0 <= i < |p|
        ensures SamePrint(xs[i], ys[i]) <==> p[i].name == q[i].name && Agree(p[i].value, q[i].value)
      {
        PairsAgree(Atom(Text(p[i].name)), Component(p[i].value), Atom(Text(q[i].name)), Component(q[i].value));
        ComponentIsFaithful(enums, p[i].value, q[i].value);
      }
    }
  }

  // ---- The mint ---------------------------------------------------------------------------

  datatype Owner = Unbound | BoundTo(id: nat)

  /** A mint's fields, as a value. */
  datatype MintState = MintState(issuer: nat, fingerprint: Print, owner: Owner)

  /** Construction validation: same issuer, same fingerprint, and no other owner. */
  predicate Validates(m: MintState, id: nat, issuer: nat, fingerprint: Print) {
    m.issuer == issuer && SamePrint(m.fingerprint, fingerprint) && (m.owner.Unbound? || m.owner.id == id)
  }

  class Mint {
    const issuer: nat
    const fingerprint: Print
    var owner: Owner

    constructor (issuer: nat, fingerprint: Print)
      ensures State() == MintState(issuer, fingerprint, Unbound)
    {
      this.issuer, this.fingerprint, owner := issuer, fingerprint, Unbound;
    }

    function State(): MintState
      reads this
    {
      MintState(issuer, fingerprint, owner)
    }

    method ValidateConstruction(id: nat, issuer: nat, fingerprint: Print) returns (ok: bool)
      ensures ok <==> Validates(State(), id, issuer, fingerprint)
    {
      if this.issuer != issuer || !SamePrint(this.fingerprint, fingerprint) {
        return false;
      }
      if owner.BoundTo? && owner.id != id {
        return false;
      }
      return true;
    }

    /** Binds an unbound mint, once; a refused call changes nothing. */
    method Bind(id: nat, issuer: nat, fingerprint: Print) returns (ok: bool)
      modifies this
      ensures ok <==> old(owner.Unbound? && Validates(State(), id, issuer, fingerprint))
      ensures owner == if ok then BoundTo(id) else old(owner)
    {
      ok := ValidateConstruction(id, issuer, fingerprint);
      if !ok || owner.BoundTo? {
        return false;
      }
      owner := BoundTo(id);
    }

    /** Passes exactly the bound identity with the issuer and fingerprint of the mint. */
    method Require(id: nat, issuer: nat, fingerprint: Print) returns (ok: bool)
      ensures ok <==> owner == BoundTo(id) && issuer == this.issuer && SamePrint(this.fingerprint, fingerprint)
    {
      ok := ValidateConstruction(id, issuer, fingerprint);
      if owner.Unbound? {
        return false;
      }
    }
  }

  // ---- A whole process --------------------------------------------------------------------

  /** A live object, authority or retained member: a serial number that is never reused, its class,
      whether its mint field holds the mint, and its current fields. */
  datatype Instance = Instance(serial: nat, classId: nat, carries: bool, fields: seq<Field>)

  datatype Bearer = NoBearer | Bearer(serial: nat)

  /** `heap` maps the identities of live objects to them; identities of dead objects are reused.
      `bearer` remembers which object the mint was bound to. */
  datatype Process = Process(heap: map<nat, Instance>, next: nat, mint: MintState, bearer: Bearer)

  datatype Action =
    | Allocate(id: nat, classId: nat, carries: bool, fields: seq<Field>)
    | Copy(source: nat, id: nat)
    | Free(id: nat)
    | SetFields(id: nat, fields: seq<Field>)
    | Validate(id: nat, issuer: nat)
    | BindMint(id: nat, issuer: nat)
    | RequireMint(id: nat, issuer: nat)

  function Do(p: Process, a: Action): Process {
    match a
    case Allocate(id, classId, carries, fields) =>
      if id in p.heap then p else p.(heap := p.heap[id := Instance(p.next, classId, carries, fields)], next := p.next + 1)
    case Copy(source, id) =>
      if source !in p.heap || id in p.heap then p
      else p.(heap := p.heap[id := p.heap[source].(serial := p.next)], next := p.next + 1)
    case Free(id) => p.(heap := p.heap - {id})
    case SetFields(id, fields) =>
      if id in p.heap then p.(heap := p.heap[id := p.heap[id].(fields := fields)]) else p
    case Validate(_, _) => p
    case BindMint(id, issuer) =>
      if id in p.heap && p.mint.owner.Unbound? && Validates(p.mint, id, issuer, Fingerprint(p.heap[id].fields))
      then p.(mint := p.mint.(owner := BoundTo(id)), bearer := Bearer(p.heap[id].serial)) else p
    case RequireMint(_, _) => p
  }

  function After(p: Process, actions: seq<Action>): Process {
    if |actions| == 0 then p else Do(After(p, actions[..|actions| - 1]), actions[|actions| - 1])
  }

  /** The object at an identity passes the authority requirement. */
  predicate Passes(p: Process, id: nat, issuer: nat) {
    && id in p.heap && p.heap[id].carries
    && p.mint.owner.BoundTo? && Validates(p.mint, id, issuer, Fingerprint(p.heap[id].fields))
  }

  ghost predicate Live(p: Process, serial: nat) {
    exists id :: id in p.heap && p.heap[id].serial == serial
  }

  ghost predicate Initial(p: Process) {
    && p.mint.owner.Unbound? && p.bearer.NoBearer? && Numbered(p)
  }

  /** Serial numbers are below `next` and name one live object each. */
  ghost predicate Numbered(p: Process) {
    && (forall id | id in p.heap :: p.heap[id].serial < p.next)
    && (forall i, j | i in p.heap && j in p.heap && p.heap[i].serial == p.heap[j].serial :: i == j)
  }

  ghost predicate Consistent(p: Process) {
    && Numbered(p)
    && (p.mint.owner.BoundTo? <==> p.bearer.Bearer?)
    && (p.bearer.Bearer? ==>
          && p.bearer.serial < p.next
          && forall id | id in p.heap && p.heap[id].serial == p.bearer.serial :: id == p.mint.owner.id)
  }

  lemma DoKeeps(p: Process, a: Action)
    requires Consistent(p)
    ensures Consistent(Do(p, a))
    ensures p.mint.owner.BoundTo? ==> Do(p, a).mint == p.mint && Do(p, a).bearer == p.bearer
    ensures Do(p, a).mint.issuer == p.mint.issuer && Do(p, a).mint.fingerprint == p.mint.fingerprint
  {
  }

  lemma {:induction false} AlwaysConsistent(p: Process, actions: seq<Action>)
    requires Consistent(p)
    ensures Consistent(After(p, actions))
    ensures After(p, actions).mint.issuer == p.mint.issuer && After(p, actions).mint.fingerprint == p.mint.fingerprint
    ensures p.mint.owner.BoundTo? ==> After(p, actions).mint == p.mint && After(p, actions).bearer == p.bearer
  {
    hide Do, Consistent;
    if |actions| > 0 {
      AlwaysConsistent(p, actions[..|actions| - 1]);
      DoKeeps(After(p, actions[..|actions| - 1]), actions[|actions| - 1]);
    }
  }

  lemma {:induction false} AfterSplits(p: Process, first: seq<Action>, rest: seq<Action>)
    ensures After(p, first + rest) == After(After(p, first), rest)
    decreases |rest|
  {
    if |rest| == 0 {
      assert first + rest == first;
    } else {
      var all := first + rest;
      assert all[..|all| - 1] == first + rest[..|rest| - 1];
      AfterSplits(p, first, rest[..|rest| - 1]);
    }
  }

  /** Over every sequence of actions the owner is set at most once and never changes. */
  lemma OwnerNeverChanges(p: Process, first: seq<Action>, rest: seq<Action>)
    requires Initial(p) && After(p, first).mint.owner.BoundTo?
    ensures After(p, first + rest).mint.owner == After(p, first).mint.owner
    ensures After(p, first + rest).bearer == After(p, first).bearer
  {
    AlwaysConsistent(p, first);
    AfterSplits(p, first, rest);
    AlwaysConsistent(After(p, first), rest);
  }

  /** At any time at most one live object passes, and it is the bound object exactly when that
      object is still live: identities, not objects, are remembered. */
  lemma AtMostOnePasses(p: Process, actions: seq<Action>, i: nat, j: nat, a: nat, b: nat)
    requires Initial(p) && Passes(After(p, actions), i, a)
    ensures Passes(After(p, actions), j, b) ==> i == j
    ensures After(p, actions).bearer.Bearer?
    ensures Live(After(p, actions), After(p, actions).bearer.serial) <==>
            After(p, actions).heap[i].serial == After(p, actions).bearer.serial
  {
    AlwaysConsistent(p, actions);
  }

  /** While the bound object lives, it passes exactly when it still carries the mint and its public
      fields agree with those the mint was made for; so a later change of a public field to a value
      that does not agree is rejected. */
  lemma BearerPassesIffUnchanged(enums: Enumerations, p: Process, minted: seq<Field>, actions: seq<Action>, id: nat, issuer: nat)
    requires Initial(p) && p.mint.fingerprint == Fingerprint(minted) && TypedFields(enums, minted)
    requires var q := After(p, actions);
             && q.bearer.Bearer? && id in q.heap && q.heap[id].serial == q.bearer.serial
             && TypedFields(enums, q.heap[id].fields)
    ensures var q := After(p, actions);
            Passes(q, id, issuer) <==> issuer == p.mint.issuer && q.heap[id].carries && RecordsAgree(minted, q.heap[id].fields)
  {
    hide Fingerprint, RecordsAgree, SamePrint;
    AlwaysConsistent(p, actions);
    FingerprintIsFaithful(enums, minted, After(p, actions).heap[id].fields);
  }

  /** Setting the bound object's fields decides whether it still passes: exactly when the new public
      fields agree with the minted ones. */
  lemma ChangedFieldsDecide(
      enums: Enumerations, p: Process, minted: seq<Field>, actions: seq<Action>, id: nat, issuer: nat, fields: seq<Field>)
    requires Initial(p) && p.mint.fingerprint == Fingerprint(minted) && TypedFields(enums, minted) && TypedFields(enums, fields)
    requires var q := After(p, actions); q.bearer.Bearer? && id in q.heap && q.heap[id].serial == q.bearer.serial
    ensures var q := After(p, actions);
            Passes(After(p, actions + [SetFields(id, fields)]), id, issuer) <==>
            issuer == p.mint.issuer && q.heap[id].carries && RecordsAgree(minted, fields)
  {
    hide Passes, Fingerprint, RecordsAgree, TypedFields, Initial;
    AfterOneMore(p, actions, SetFields(id, fields));
    BearerPassesIffUnchanged(enums, p, minted, actions + [SetFields(id, fields)], id, issuer);
  }

  /** Copies of the bound object never pass while it lives. */
  lemma CopiesAreRejected(p: Process, actions: seq<Action>, id: nat, issuer: nat)
    requires Initial(p)
    requires var q := After(p, actions);
             q.bearer.Bearer? && Live(q, q.bearer.serial) && id in q.heap && q.heap[id].serial != q.bearer.serial
    ensures !Passes(After(p, actions), id, issuer)
  {
    AlwaysConsistent(p, actions);
  }

  lemma AfterOneMore(p: Process, actions: seq<Action>, a: Action)
    ensures After(p, actions + [a]) == Do(After(p, actions), a)
  {
    assert (actions + [a])[..|actions|] == actions;
  }

  /** Once the bound object is dead, a copy of a copy allocated at its identity passes: the bound
      object is required to be live in the results above for a reason. */
  lemma ReusedIdentityPasses(issuer: nat, fields: seq<Field>) returns (p: Process, actions: seq<Action>)
    ensures Initial(p) && p.mint.fingerprint == Fingerprint(fields) && Passes(After(p, actions), 1, issuer)
    ensures After(p, actions).bearer == Bearer(0) && After(p, actions).heap[1].serial != 0
  {
    hide After, Fingerprint, SamePrint;
    p := Process(map[1 := Instance(0, 0, true, fields)], 1, MintState(issuer, Fingerprint(fields), Unbound), NoBearer);
    SamePrintReflexive(Fingerprint(fields));
    AfterNothing(p);
    AfterOneMore(p, [], BindMint(1, issuer));
    var bound := [] + [BindMint(1, issuer)];
    AfterOneMore(p, bound, Copy(1, 2));
    AfterOneMore(p, bound + [Copy(1, 2)], Free(1));
    AfterOneMore(p, bound + [Copy(1, 2)] + [Free(1)], Copy(2, 1));
    actions := bound + [Copy(1, 2)] + [Free(1)] + [Copy(2, 1)];
  }

  lemma AfterNothing(p: Process)
    ensures After(p, []) == p
  {
  }

  lemma {:induction false} SamePrintReflexive(p: Print)
    ensures SamePrint(p, p)
  {
    if p.Row? {
      forall i | 0 <= i < |p.items|
        ensures SamePrint(p.items[i], p.items[i])
      {
        SamePrintReflexive(p.items[i]);
      }
    }
  }

  // ---- Retained members -------------------------------------------------------------------

  /** An object never moves: its serial number is only ever found at its first identity. */
  ghost predicate OnlyAt(p: Process, serial: nat, id: nat) {
    serial < p.next && forall j | j in p.heap && p.heap[j].serial == serial :: j == id
  }

  lemma {:induction false} ObjectsStayPut(p: Process, actions: seq<Action>, serial: nat, id: nat)
    requires Consistent(p) && OnlyAt(p, serial, id)
    ensures OnlyAt(After(p, actions), serial, id)
  {
    if |actions| > 0 {
      var before := actions[..|actions| - 1];
      AlwaysConsistent(p, before);
      ObjectsStayPut(p, before, serial, id);
      StaysPut(After(p, before), actions[|actions| - 1], serial, id);
    }
  }

  lemma StaysPut(p: Process, a: Action, serial: nat, id: nat)
    requires OnlyAt(p, serial, id)
    ensures OnlyAt(Do(p, a), serial, id)
  {
  }

  /** A field that still names a retained member's class and identity denotes the retained object
      itself exactly when that object is still live. */
  lemma MemberIsOriginalIffLive(p: Process, actions: seq<Action>, id: nat)
    requires Initial(p) && id in p.heap && id in After(p, actions).heap
    ensures After(p, actions).heap[id].serial == p.heap[id].serial <==> Live(After(p, actions), p.heap[id].serial)
  {
    ObjectsStayPut(p, actions, p.heap[id].serial, id);
  }

  /** A passing authority still holds the retained objects it was minted with exactly when those
      objects are live: the fingerprint alone fixes only their classes and identities. */
  lemma PassingHoldsOriginalIff(
      enums: Enumerations, p: Process, minted: seq<Field>, actions: seq<Action>, id: nat, issuer: nat, n: nat)
    requires Initial(p) && p.mint.fingerprint == Fingerprint(minted) && TypedFields(enums, minted)
    requires var q := After(p, actions); Passes(q, id, issuer) && TypedFields(enums, q.heap[id].fields)
    requires n < |Public(minted)| && Public(minted)[n].value.Object?
    ensures var q, member := After(p, actions), Public(minted)[n].value.id;
            && n < |Public(q.heap[id].fields)| && Public(q.heap[id].fields)[n].value == Public(minted)[n].value
            && (member in p.heap && member in q.heap ==>
                  (q.heap[member].serial == p.heap[member].serial <==> Live(q, p.heap[member].serial)))
  {
    hide Fingerprint, SamePrint, Public, After;
    AlwaysConsistent(p, actions);
    var q, member := After(p, actions), Public(minted)[n].value.id;
    FingerprintIsFaithful(enums, minted, q.heap[id].fields);
    assert Agree(Public(minted)[n].value, Public(q.heap[id].fields)[n].value);
    if member in p.heap && member in q.heap {
      MemberIsOriginalIffLive(p, actions, member);
    }
  }

  /** A member replaced by a new object of its class at its old identity is not noticed. */
  lemma ReplacedMemberPasses(issuer: nat, classId: nat) returns (p: Process, actions: seq<Action>)
    ensures Initial(p) && 2 in p.heap && 2 in After(p, actions).heap && Passes(After(p, actions), 1, issuer)
    ensures p.mint.fingerprint == Fingerprint([Field("member", Object(classId, 2))])
    ensures After(p, actions).heap[2].serial != p.heap[2].serial
    ensures After(p, actions).heap[2].classId == p.heap[2].classId == classId
    ensures After(p, actions).bearer == Bearer(After(p, actions).heap[1].serial)
  {
    hide After, Fingerprint, SamePrint;
    var fields := [Field("member", Object(classId, 2))];
    p := Process(map[1 := Instance(0, 0, true, fields), 2 := Instance(1, classId, false, [])], 2,
                 MintState(issuer, Fingerprint(fields), Unbound), NoBearer);
    SamePrintReflexive(Fingerprint(fields));
    AfterNothing(p);
    var a := [] + [BindMint(1, issuer)];
    AfterOneMore(p, [], BindMint(1, issuer));
    var b := a + [SetFields(1, [])];
    AfterOneMore(p, a, SetFields(1, []));
    var c := b + [Free(2)];
    AfterOneMore(p, b, Free(2));
    var d := c + [Allocate(2, classId, false, [])];
    AfterOneMore(p, c, Allocate(2, classId, false, []));
    actions := d + [SetFields(1, fields)];
    AfterOneMore(p, d, SetFields(1, fields));
  }
}
