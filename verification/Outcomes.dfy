/** Exact finite outcome lists and their coalesced measures.

    An outcome carries a probability and an atom: successor state, reward features, the failure
    flag and the terminal flag.  `F` is the type of a canonical reward-feature tuple. */
module Outcomes {

  datatype Atom<S, F> = Atom(next: S, features: F, failure: bool, terminal: bool)

  datatype Outcome<S, F> = Outcome(probability: real, atom: Atom<S, F>)

  type Outcomes<S, F> = seq<Outcome<S, F>>

  /** The outcome constructor rejects probabilities that are not positive. */
  ghost predicate Positive<S, F>(os: Outcomes<S, F>) {
    forall i | 0 <= i < |os| :: os[i].probability > 0.0
  }

  ghost function Mass<S, F>(os: Outcomes<S, F>, a: Atom<S, F>): real {
    if |os| == 0 then 0.0
    else (if os[0].atom == a then os[0].probability else 0.0) + Mass(os[1..], a)
  }

  ghost function Expect<S, F>(os: Outcomes<S, F>, f: Atom<S, F> -> real): real {
    if |os| == 0 then 0.0 else os[0].probability * f(os[0].atom) + Expect(os[1..], f)
  }

  lemma ExpectOne<S, F>(o: Outcome<S, F>, f: Atom<S, F> -> real)
    ensures Expect([o], f) == o.probability * f(o.atom)
  {
    assert [o][1..] == [];
  }

  lemma ExpectTwo<S, F>(o: Outcome<S, F>, p: Outcome<S, F>, f: Atom<S, F> -> real)
    ensures Expect([o, p], f) == o.probability * f(o.atom) + p.probability * f(p.atom)
  {
    assert [o, p][1..] == [p];
    ExpectOne(p, f);
  }

  ghost predicate SameMass<S(!new), F(!new)>(xs: Outcomes<S, F>, ys: Outcomes<S, F>) {
    forall a: Atom<S, F> :: Mass(xs, a) == Mass(ys, a)
  }

  function MapAtom<S, F>(a: Atom<S, F>, t: S -> S): Atom<S, F> {
    a.(next := t(a.next))
  }

  /** Applying a state transform to every successor. */
  function Mapped<S, F>(os: Outcomes<S, F>, t: S -> S): (r: Outcomes<S, F>)
    ensures |r| == |os|
    ensures forall i | 0 <= i < |os| ::
              r[i].probability == os[i].probability && r[i].atom == MapAtom(os[i].atom, t)
  {
    if |os| == 0 then []
    else [Outcome(os[0].probability, MapAtom(os[0].atom, t))] + Mapped(os[1..], t)
  }

  // ---- Expectations depend only on the measure --------------------------------------------

  ghost function Without<S, F>(os: Outcomes<S, F>, a: Atom<S, F>): (r: Outcomes<S, F>)
    ensures |r| <= |os|
    ensures |os| > 0 && os[0].atom == a ==> |r| < |os|
  {
    if |os| == 0 then []
    else if os[0].atom == a then Without(os[1..], a)
    else [os[0]] + Without(os[1..], a)
  }

  lemma {:induction false} MassWithout<S, F>(os: Outcomes<S, F>, a: Atom<S, F>, b: Atom<S, F>)
    ensures Mass(Without(os, a), b) == if a == b then 0.0 else Mass(os, b)
  {
    if |os| > 0 {
      MassWithout(os[1..], a, b);
      assert ([os[0]] + Without(os[1..], a))[1..] == Without(os[1..], a);
    }
  }

  lemma Distribute(x: real, y: real, z: real)
    ensures (x + y) * z == x * z + y * z
  {
  }

  lemma ExpectFirst<S, F>(os: Outcomes<S, F>, f: Atom<S, F> -> real)
    ensures Expect(os, f) == if |os| == 0 then 0.0 else os[0].probability * f(os[0].atom) + Expect(os[1..], f)
  {
  }

  lemma MassFirst<S, F>(os: Outcomes<S, F>, a: Atom<S, F>)
    ensures Mass(os, a) == if |os| == 0 then 0.0 else (if os[0].atom == a then os[0].probability else 0.0) + Mass(os[1..], a)
  {
  }

  lemma {:induction false} ExpectWithout<S, F>(os: Outcomes<S, F>, a: Atom<S, F>, f: Atom<S, F> -> real)
    ensures Expect(os, f) == Mass(os, a) * f(a) + Expect(Without(os, a), f)
  {
    hide Expect, Mass;
    ExpectFirst(os, f);
    MassFirst(os, a);
    if |os| > 0 {
      ExpectWithout(os[1..], a, f);
      var rest := Mass(os[1..], a);
      if os[0].atom == a {
        Distribute(os[0].probability, rest, f(a));
      } else {
        assert Without(os, a)[1..] == Without(os[1..], a);
        ExpectFirst(Without(os, a), f);
        hide Without;
        assert Mass(os, a) * f(a) == rest * f(a);
      }
    } else {
      ExpectFirst(Without(os, a), f);
    }
  }

  /** Equal measures give equal expectations of every function of the atom. */
  lemma {:induction false} SameMassSameExpect<S(!new), F(!new)>(
      xs: Outcomes<S, F>, ys: Outcomes<S, F>, f: Atom<S, F> -> real)
    requires SameMass(xs, ys)
    ensures Expect(xs, f) == Expect(ys, f)
    decreases |xs| + |ys|
  {
    hide Mass, Expect, Without;
    if |xs| + |ys| > 0 {
      var a := if |xs| > 0 then xs[0].atom else ys[0].atom;
      var xs', ys' := Without(xs, a), Without(ys, a);
      forall b: Atom<S, F>
        ensures Mass(xs', b) == Mass(ys', b)
      {
        MassWithout(xs, a, b);
        MassWithout(ys, a, b);
      }
      ExpectWithout(xs, a, f);
      ExpectWithout(ys, a, f);
      SameMassSameExpect(xs', ys', f);
    }
  }

  lemma {:induction false} ExpectAdd<S, F>(
      os: Outcomes<S, F>, f: Atom<S, F> -> real, g: Atom<S, F> -> real, h: Atom<S, F> -> real)
    requires forall a :: h(a) == f(a) + g(a)
    ensures Expect(os, h) == Expect(os, f) + Expect(os, g)
  {
    if |os| > 0 {
      ExpectAdd(os[1..], f, g, h);
      Scale(os[0].probability, f(os[0].atom), g(os[0].atom));
    }
  }

  lemma Scale(p: real, x: real, y: real)
    ensures p * (x + y) == p * x + p * y
  {
  }

  lemma {:induction false} ExpectMonotone<S, F>(os: Outcomes<S, F>, f: Atom<S, F> -> real, g: Atom<S, F> -> real)
    requires Positive(os) && forall i | 0 <= i < |os| :: f(os[i].atom) <= g(os[i].atom)
    ensures Expect(os, f) <= Expect(os, g)
  {
    if |os| > 0 {
      assert forall i | 0 <= i < |os[1..]| :: os[1..][i] == os[i + 1];
      ExpectMonotone(os[1..], f, g);
      ScaleMonotone(os[0].probability, f(os[0].atom), g(os[0].atom));
    }
  }

  lemma ScaleMonotone(p: real, x: real, y: real)
    requires p > 0.0 && x <= y
    ensures p * x <= p * y
  {
  }

  lemma {:induction false} ExpectCongruent<S, F>(
      os: Outcomes<S, F>, f: Atom<S, F> -> real, g: Atom<S, F> -> real)
    requires forall i | 0 <= i < |os| :: f(os[i].atom) == g(os[i].atom)
    ensures Expect(os, f) == Expect(os, g)
  {
    if |os| > 0 {
      assert f(os[0].atom) == g(os[0].atom);
      forall i | 0 <= i < |os[1..]|
        ensures f(os[1..][i].atom) == g(os[1..][i].atom)
      {
        assert os[1..][i] == os[i + 1];
      }
      ExpectCongruent(os[1..], f, g);
    }
  }

  /** Change of variables under a state transform. */
  lemma {:induction false} ExpectMapped<S, F>(os: Outcomes<S, F>, t: S -> S, f: Atom<S, F> -> real)
    ensures Expect(Mapped(os, t), f) == Expect(os, a => f(MapAtom(a, t)))
  {
    if |os| > 0 {
      ExpectMapped(os[1..], t, f);
      assert Mapped(os, t)[1..] == Mapped(os[1..], t);
    }
  }

  ghost function Indicator<S, F>(a: Atom<S, F>): Atom<S, F> -> real {
    b => if b == a then 1.0 else 0.0
  }

  lemma {:induction false} MassIsExpect<S, F>(os: Outcomes<S, F>, a: Atom<S, F>)
    ensures Mass(os, a) == Expect(os, Indicator(a))
  {
    if |os| > 0 {
      MassIsExpect(os[1..], a);
    }
  }

  /** Coalescing commutes with a state transform: equal measures stay equal. */
  lemma SameMassMapped<S(!new), F(!new)>(xs: Outcomes<S, F>, ys: Outcomes<S, F>, t: S -> S)
    requires SameMass(xs, ys)
    ensures SameMass(Mapped(xs, t), Mapped(ys, t))
  {
    forall a: Atom<S, F>
      ensures Mass(Mapped(xs, t), a) == Mass(Mapped(ys, t), a)
    {
      MassIsExpect(Mapped(xs, t), a);
      MassIsExpect(Mapped(ys, t), a);
      ExpectMapped(xs, t, Indicator(a));
      ExpectMapped(ys, t, Indicator(a));
      SameMassSameExpect(xs, ys, b => Indicator(a)(MapAtom(b, t)));
    }
  }

  lemma {:induction false} MassConcat<S, F>(xs: Outcomes<S, F>, ys: Outcomes<S, F>, a: Atom<S, F>)
    ensures Mass(xs + ys, a) == Mass(xs, a) + Mass(ys, a)
  {
    if |xs| == 0 {
      assert xs + ys == ys;
    } else {
      MassConcat(xs[1..], ys, a);
      assert (xs + ys)[1..] == xs[1..] + ys;
    }
  }

  lemma MassRemove<S, F>(os: Outcomes<S, F>, i: nat, a: Atom<S, F>)
    requires i < |os|
    ensures Mass(os, a) == Mass([os[i]], a) + Mass(os[..i] + os[i + 1..], a)
  {
    MassConcat(os[..i], os[i..], a);
    MassConcat([os[i]], os[i + 1..], a);
    MassConcat(os[..i], os[i + 1..], a);
    assert os == os[..i] + os[i..] && os[i..] == [os[i]] + os[i + 1..];
  }

  lemma RemoveMatching<T>(xs: seq<T>, ys: seq<T>, i: nat)
    requires multiset(xs) == multiset(ys) && |xs| > 0 && i < |ys| && ys[i] == xs[0]
    ensures multiset(xs[1..]) == multiset(ys[..i] + ys[i + 1..])
  {
    assert xs == [xs[0]] + xs[1..];
    assert ys == ys[..i] + [ys[i]] + ys[i + 1..];
    calc {
      multiset(xs[1..]);
      multiset(xs) - multiset{xs[0]};
      multiset(ys) - multiset{xs[0]};
      multiset(ys[..i]) + multiset(ys[i + 1..]);
      multiset(ys[..i] + ys[i + 1..]);
    }
  }

  /** The order of an outcome list is irrelevant. */
  lemma {:induction false} PermutationSameMass<S(!new), F(!new)>(xs: Outcomes<S, F>, ys: Outcomes<S, F>)
    requires multiset(xs) == multiset(ys)
    ensures SameMass(xs, ys)
  {
    if |xs| == 0 {
      assert |multiset(ys)| == 0;
    } else {
      assert xs[0] in multiset(ys);
      var i :| 0 <= i < |ys| && ys[i] == xs[0];
      var rest := ys[..i] + ys[i + 1..];
      RemoveMatching(xs, ys, i);
      PermutationSameMass(xs[1..], rest);
      forall a: Atom<S, F>
        ensures Mass(xs, a) == Mass(ys, a)
      {
        MassRemove(ys, i, a);
        MassConcat([xs[0]], xs[1..], a);
        assert xs == [xs[0]] + xs[1..];
      }
    }
  }

  // ---- The coalescing loop ----------------------------------------------------------------

  ghost function Atoms<S, F>(os: Outcomes<S, F>): set<Atom<S, F>> {
    set i | 0 <= i < |os| :: os[i].atom
  }

  ghost predicate IsMeasureOf<S, F>(measure: map<Atom<S, F>, real>, os: Outcomes<S, F>) {
    && measure.Keys == Atoms(os)
    && forall a | a in measure :: measure[a] == Mass(os, a)
  }

  method CoalescedOutcomeMeasure<S(==), F(==)>(os: Outcomes<S, F>, transform: S -> S)
    returns (measure: map<Atom<S, F>, real>)
    ensures IsMeasureOf(measure, Mapped(os, transform))
  {
    measure := map[];
    ghost var mapped := Mapped(os, transform);
    for n := 0 to |os|
      invariant IsMeasureOf(measure, mapped[..n])
    {
      var key := MapAtom(os[n].atom, transform);
      assert mapped[..n + 1] == mapped[..n] + [mapped[n]];
      forall a: Atom<S, F>
        ensures Mass(mapped[..n + 1], a) ==
                Mass(mapped[..n], a) + if a == key then os[n].probability else 0.0
      {
        MassConcat(mapped[..n], [mapped[n]], a);
      }
      AtomsSnoc(mapped[..n], mapped[n]);
      AbsentMass(mapped[..n], key);
      var mass := if key in measure then measure[key] else 0.0;
      measure := measure[key := mass + os[n].probability];
    }
    assert mapped[..|os|] == mapped;
  }

  lemma AtomsSnoc<S, F>(os: Outcomes<S, F>, o: Outcome<S, F>)
    ensures Atoms(os + [o]) == Atoms(os) + {o.atom}
  {
    var all := os + [o];
    forall i | 0 <= i < |os|
      ensures os[i].atom in Atoms(all)
    {
      assert all[i] == os[i];
    }
    assert all[|os|] == o;
  }

  lemma {:induction false} AbsentMass<S, F>(os: Outcomes<S, F>, a: Atom<S, F>)
    ensures (forall i | 0 <= i < |os| :: os[i].atom != a) ==> Mass(os, a) == 0.0
  {
    if |os| > 0 && forall i | 0 <= i < |os| :: os[i].atom != a {
      forall i | 0 <= i < |os[1..]|
        ensures os[1..][i].atom != a
      {
        assert os[1..][i] == os[i + 1];
      }
      AbsentMass(os[1..], a);
    }
  }

  lemma {:induction false} PresentMass<S, F>(os: Outcomes<S, F>, i: nat)
    requires Positive(os) && i < |os|
    ensures Mass(os, os[i].atom) > 0.0
  {
    MassNonnegative(os[1..], os[i].atom);
    if i > 0 {
      assert os[1..][i - 1] == os[i];
      PresentMass(os[1..], i - 1);
    }
  }

  lemma {:induction false} MassNonnegative<S, F>(os: Outcomes<S, F>, a: Atom<S, F>)
    requires Positive(os)
    ensures Mass(os, a) >= 0.0
  {
    if |os| > 0 {
      MassNonnegative(os[1..], a);
    }
  }

  /** Comparing two coalesced dictionaries decides exactly whether the measures agree. */
  lemma MeasuresEqualIffSameMass<S(!new), F(!new)>(
      m: map<Atom<S, F>, real>, xs: Outcomes<S, F>, n: map<Atom<S, F>, real>, ys: Outcomes<S, F>)
    requires Positive(xs) && Positive(ys) && IsMeasureOf(m, xs) && IsMeasureOf(n, ys)
    ensures m == n <==> SameMass(xs, ys)
  {
    forall a: Atom<S, F>
      ensures a in m <==> Mass(xs, a) != 0.0
      ensures a in n <==> Mass(ys, a) != 0.0
    {
      SupportIsPositive(m, xs, a);
      SupportIsPositive(n, ys, a);
    }
    if SameMass(xs, ys) {
      assert forall a | a in m :: Mass(xs, a) == Mass(ys, a);
      assert forall a | a in n :: Mass(xs, a) == Mass(ys, a);
      assert m.Keys == n.Keys;
    }
  }

  lemma SupportIsPositive<S, F>(m: map<Atom<S, F>, real>, os: Outcomes<S, F>, a: Atom<S, F>)
    requires Positive(os) && IsMeasureOf(m, os)
    ensures a in m <==> Mass(os, a) != 0.0
  {
    if a in m {
      var i :| 0 <= i < |os| && os[i].atom == a;
      PresentMass(os, i);
    } else {
      forall i | 0 <= i < |os|
        ensures os[i].atom != a
      {
        assert os[i].atom in m.Keys;
      }
      AbsentMass(os, a);
    }
  }

  // ---- Conservation -----------------------------------------------------------------------

  ghost function TotalProbability<S, F>(os: Outcomes<S, F>): real {
    if |os| == 0 then 0.0 else os[0].probability + TotalProbability(os[1..])
  }

  ghost function MeasureTotal<S, F>(m: map<Atom<S, F>, real>): real {
    if m == map[] then 0.0
    else
      var a :| a in m;
      m[a] + MeasureTotal(m - {a})
  }

  lemma {:induction false} MeasureTotalRemove<S, F>(m: map<Atom<S, F>, real>, a: Atom<S, F>)
    requires a in m
    ensures MeasureTotal(m) == m[a] + MeasureTotal(m - {a})
    decreases |m|
  {
    var b :| b in m && MeasureTotal(m) == m[b] + MeasureTotal(m - {b});
    if a != b {
      assert |m - {b}| < |m| && |m - {a}| < |m| by {
        assert (m - {b}).Keys == m.Keys - {b} && (m - {a}).Keys == m.Keys - {a};
      }
      MeasureTotalRemove(m - {b}, a);
      MeasureTotalRemove(m - {a}, b);
      assert m - {b} - {a} == m - {a} - {b};
    }
  }

  /** Coalescing conserves total probability. */
  lemma {:induction false} MeasureConservesTotal<S, F>(m: map<Atom<S, F>, real>, os: Outcomes<S, F>)
    requires IsMeasureOf(m, os)
    ensures MeasureTotal(m) == TotalProbability(os)
    decreases |os|
  {
    if |os| == 0 {
      assert m == map[];
    } else {
      var a := os[0].atom;
      var rest := Without(os, a);
      assert a in m.Keys;
      WithoutMeasure(m, os, a);
      MeasureConservesTotal(m - {a}, rest);
      MeasureTotalRemove(m, a);
      TotalIsExpect(os);
      TotalIsExpect(rest);
      ExpectWithout(os, a, One<S, F>());
    }
  }

  ghost function One<S, F>(): Atom<S, F> -> real {
    a => 1.0
  }

  lemma {:induction false} TotalIsExpect<S, F>(os: Outcomes<S, F>)
    ensures TotalProbability(os) == Expect(os, One<S, F>())
  {
    if |os| > 0 {
      TotalIsExpect(os[1..]);
    }
  }

  lemma WithoutMeasure<S, F>(m: map<Atom<S, F>, real>, os: Outcomes<S, F>, a: Atom<S, F>)
    requires IsMeasureOf(m, os)
    ensures IsMeasureOf(m - {a}, Without(os, a))
  {
    WithoutKeys(os, a);
    var rest := Without(os, a);
    assert (m - {a}).Keys == m.Keys - {a};
    forall b | b in m - {a}
      ensures m[b] == Mass(rest, b)
    {
      MassWithout(os, a, b);
    }
  }

  lemma {:induction false} WithoutKeys<S, F>(os: Outcomes<S, F>, a: Atom<S, F>)
    ensures var rest := Without(os, a);
            Atoms(rest) == Atoms(os) - {a}
  {
    if |os| > 0 {
      WithoutKeys(os[1..], a);
      AtomsCons(os[0], os[1..]);
      AtomsCons(os[0], Without(os[1..], a));
      assert os == [os[0]] + os[1..];
    }
  }

  lemma AtomsCons<S, F>(o: Outcome<S, F>, os: Outcomes<S, F>)
    ensures var all := [o] + os;
            Atoms(all) == {o.atom} + Atoms(os)
  {
    var all := [o] + os;
    forall i | 0 <= i < |os|
      ensures os[i].atom in Atoms(all)
    {
      assert all[i + 1] == os[i];
    }
    assert all[0] == o;
  }
}
