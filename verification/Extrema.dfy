/** Largest and smallest values of a real function on a finite nonempty set. */
module Extrema {

  ghost predicate Attains<A>(actions: set<A>, f: A -> real, v: real) {
    exists a :: a in actions && f(a) == v
  }

  ghost predicate IsMaximum<A>(actions: set<A>, f: A -> real, v: real) {
    Attains(actions, f, v) && forall a | a in actions :: f(a) <= v
  }

  lemma {:induction false} MaximumExists<A>(actions: set<A>, f: A -> real) returns (v: real)
    requires actions != {}
    ensures IsMaximum(actions, f, v)
    decreases |actions|
  {
    var a :| a in actions;
    var rest := actions - {a};
    v := f(a);
    if rest != {} {
      var u := MaximumExists(rest, f);
      var b :| b in rest && f(b) == u;
      v := if f(a) <= u then u else f(a);
    }
    forall b | b in actions
      ensures f(b) <= v
    {
      assert b == a || b in rest;
    }
  }

  /** The largest value of `f` on a finite nonempty set. */
  ghost function MaxOver<A>(actions: set<A>, f: A -> real): (v: real)
    requires actions != {}
  {
    var w := MaximumWitness(actions, f);
    f(w)
  }

  ghost function MaximumWitness<A>(actions: set<A>, f: A -> real): (a: A)
    requires actions != {}
    ensures a in actions && IsMaximum(actions, f, f(a))
  {
    MaximumAttained(actions, f);
    var a :| a in actions && IsMaximum(actions, f, f(a));
    a
  }

  lemma MaximumAttained<A>(actions: set<A>, f: A -> real)
    requires actions != {}
    ensures exists a :: a in actions && IsMaximum(actions, f, f(a))
  {
    var v := MaximumExists(actions, f);
    var a :| a in actions && f(a) == v;
  }

  lemma EqualMaxima<A>(xs: set<A>, f: A -> real, ys: set<A>, g: A -> real)
    requires xs != {} && ys != {}
    requires forall x | x in xs :: Attains(ys, g, f(x))
    requires forall y | y in ys :: Attains(xs, f, g(y))
    ensures MaxOver(xs, f) == MaxOver(ys, g)
  {
    var x, y := MaximumWitness(xs, f), MaximumWitness(ys, g);
    assert Attains(ys, g, f(x)) && Attains(xs, f, g(y));
  }

  lemma MaxCongruent<A>(xs: set<A>, f: A -> real, g: A -> real)
    requires xs != {} && forall a | a in xs :: f(a) == g(a)
    ensures MaxOver(xs, f) == MaxOver(xs, g)
  {
    var a, b := MaximumWitness(xs, f), MaximumWitness(xs, g);
  }

  lemma MaxIsUpperBound<A>(xs: set<A>, f: A -> real, a: A)
    requires a in xs
    ensures f(a) <= MaxOver(xs, f)
  {
    var w := MaximumWitness(xs, f);
  }

  ghost function MinOver<A>(xs: set<A>, f: A -> real): real
    requires xs != {}
  {
    -MaxOver(xs, a => -f(a))
  }

  lemma MinIsLowerBound<A>(xs: set<A>, f: A -> real, a: A)
    requires a in xs
    ensures MinOver(xs, f) <= f(a)
  {
    MaxIsUpperBound(xs, b => -f(b), a);
  }

  lemma MaxOfConstant<A>(xs: set<A>, f: A -> real, v: real)
    requires xs != {} && forall a | a in xs :: f(a) == v
    ensures MaxOver(xs, f) == v && MinOver(xs, f) == v
  {
    var w, u := MaximumWitness(xs, f), MaximumWitness(xs, a => -f(a));
  }

  /** Where the smallest value is attained. */
  ghost function MinimumWitness<A>(xs: set<A>, f: A -> real): (a: A)
    requires xs != {}
    ensures a in xs && f(a) == MinOver(xs, f)
  {
    MaximumWitness(xs, a => -f(a))
  }
}
