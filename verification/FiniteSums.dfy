/** Sums of real functions over finite sets. */
module FiniteSums {

  ghost function SumOver<A>(xs: set<A>, f: A -> real): real {
    if xs == {} then 0.0
    else
      var a :| a in xs;
      f(a) + SumOver(xs - {a}, f)
  }

  lemma SumEmpty<A>(f: A -> real)
    ensures SumOver({}, f) == 0.0
  {
  }

  lemma {:induction false} SumRemove<A>(xs: set<A>, f: A -> real, a: A)
    requires a in xs
    ensures SumOver(xs, f) == f(a) + SumOver(xs - {a}, f)
    decreases |xs|
  {
    var b :| b in xs && SumOver(xs, f) == f(b) + SumOver(xs - {b}, f);
    if a != b {
      SumRemove(xs - {b}, f, a);
      SumRemove(xs - {a}, f, b);
      assert xs - {b} - {a} == xs - {a} - {b};
    }
  }

  lemma {:induction false} SumCongruent<A>(xs: set<A>, f: A -> real, g: A -> real)
    requires forall a | a in xs :: f(a) == g(a)
    ensures SumOver(xs, f) == SumOver(xs, g)
    decreases |xs|
  {
    if xs != {} {
      var a :| a in xs;
      SumRemove(xs, f, a);
      SumRemove(xs, g, a);
      SumCongruent(xs - {a}, f, g);
    }
  }

  lemma {:induction false} SumMonotone<A>(xs: set<A>, f: A -> real, g: A -> real)
    requires forall a | a in xs :: f(a) <= g(a)
    ensures SumOver(xs, f) <= SumOver(xs, g)
    decreases |xs|
  {
    if xs != {} {
      var a :| a in xs;
      SumRemove(xs, f, a);
      SumRemove(xs, g, a);
      SumMonotone(xs - {a}, f, g);
    }
  }

  lemma {:induction false} SumAdd<A>(xs: set<A>, f: A -> real, g: A -> real, h: A -> real)
    requires forall a | a in xs :: h(a) == f(a) + g(a)
    ensures SumOver(xs, h) == SumOver(xs, f) + SumOver(xs, g)
    decreases |xs|
  {
    if xs != {} {
      var a :| a in xs;
      SumRemove(xs, f, a);
      SumRemove(xs, g, a);
      SumRemove(xs, h, a);
      SumAdd(xs - {a}, f, g, h);
    }
  }

  lemma {:induction false} SumOfConstant<A>(xs: set<A>, f: A -> real, v: real)
    requires forall a | a in xs :: f(a) == v
    ensures SumOver(xs, f) == |xs| as real * v
    decreases |xs|
  {
    if xs != {} {
      var a :| a in xs;
      SumRemove(xs, f, a);
      SumOfConstant(xs - {a}, f, v);
      var n := |xs - {a}|;
      assert |xs| == n + 1;
      assert (n + 1) as real * v == n as real * v + v;
    }
  }

  /** The uniform average over a nonempty set. */
  ghost function Uniform<A>(xs: set<A>, f: A -> real): real
    requires xs != {}
  {
    SumOver(xs, f) / |xs| as real
  }

  lemma UniformOfConstant<A>(xs: set<A>, f: A -> real, v: real)
    requires xs != {} && forall a | a in xs :: f(a) == v
    ensures Uniform(xs, f) == v
  {
    SumOfConstant(xs, f, v);
    var n := |xs| as real;
    assert n > 0.0;
    assert n * v / n == v;
  }

  lemma UniformIsMean<A>(xs: set<A>, f: A -> real)
    requires xs != {}
    ensures |xs| as real * Uniform(xs, f) == SumOver(xs, f)
  {
    var n, total := |xs| as real, SumOver(xs, f);
    assert n > 0.0;
    assert n * (total / n) == total;
  }

  lemma {:induction false} SumScale<A>(xs: set<A>, f: A -> real, g: A -> real, k: real)
    requires forall a | a in xs :: g(a) == k * f(a)
    ensures SumOver(xs, g) == k * SumOver(xs, f)
    decreases |xs|
  {
    hide SumOver;
    if xs == {} {
      SumEmpty(f);
      SumEmpty(g);
    } else {
      var a :| a in xs;
      var rest := xs - {a};
      SumRemove(xs, f, a);
      SumRemove(xs, g, a);
      SumScale(rest, f, g, k);
      DistributeSum(k, f(a), SumOver(rest, f));
    }
  }

  lemma DistributeSum(k: real, x: real, y: real)
    ensures k * (x + y) == k * x + k * y
  {
  }

  ghost function InnerSum<A, B>(ys: set<B>, f: (A, B) -> real): A -> real {
    (a: A) => SumOver(ys, b => f(a, b))
  }

  lemma InnerSumIs<A, B>(ys: set<B>, f: (A, B) -> real, a: A, g: B -> real)
    requires forall b | b in ys :: g(b) == f(a, b)
    ensures InnerSum(ys, f)(a) == SumOver(ys, g)
  {
    hide SumOver;
    SumCongruent(ys, (b: B) => f(a, b), g);
  }

  /** The order of two sums does not matter. */
  lemma {:induction false} SumSwap<A, B>(xs: set<A>, ys: set<B>, f: (A, B) -> real)
    ensures SumOver(xs, InnerSum(ys, f)) == SumOver(ys, InnerSum(xs, (b, a) => f(a, b)))
    decreases |xs|
  {
    hide SumOver;
    var turned: (B, A) -> real := (b, a) => f(a, b);
    if xs == {} {
      SumEmpty(InnerSum(ys, f));
      forall b
        ensures InnerSum(xs, turned)(b) == 0.0
      {
        SumEmpty((a: A) => turned(b, a));
      }
      SumOfConstant(ys, InnerSum(xs, turned), 0.0);
    } else {
      var a :| a in xs;
      var rest := xs - {a};
      SumRemove(xs, InnerSum(ys, f), a);
      SumSwap(rest, ys, f);
      forall b
        ensures InnerSum(xs, turned)(b) == f(a, b) + InnerSum(rest, turned)(b)
      {
        SumRemove(xs, (c: A) => turned(b, c), a);
      }
      SumAdd(ys, b => f(a, b), InnerSum(rest, turned), InnerSum(xs, turned));
    }
  }

  /** Elements where the summand vanishes may be dropped. */
  lemma {:induction false} SumRestrict<A>(xs: set<A>, ys: set<A>, f: A -> real)
    requires xs <= ys && forall a | a in ys - xs :: f(a) == 0.0
    ensures SumOver(xs, f) == SumOver(ys, f)
    decreases |ys|
  {
    if xs != ys {
      var a :| a in ys && a !in xs;
      SumRemove(ys, f, a);
      SumRestrict(xs, ys - {a}, f);
    }
  }

  lemma {:induction false} SumUnion<A>(xs: set<A>, ys: set<A>, f: A -> real)
    requires xs !! ys
    ensures SumOver(xs + ys, f) == SumOver(xs, f) + SumOver(ys, f)
    decreases |xs|
  {
    if xs == {} {
      assert xs + ys == ys;
    } else {
      var a :| a in xs;
      SumRemove(xs, f, a);
      SumRemove(xs + ys, f, a);
      SumUnion(xs - {a}, ys, f);
      assert xs + ys - {a} == (xs - {a}) + ys;
    }
  }

  lemma {:induction false} SumNonnegative<A>(xs: set<A>, f: A -> real)
    requires forall a | a in xs :: f(a) >= 0.0
    ensures SumOver(xs, f) >= 0.0
    decreases |xs|
  {
    if xs != {} {
      var a :| a in xs;
      SumRemove(xs, f, a);
      SumNonnegative(xs - {a}, f);
    }
  }

  /** A sum of nonnegative terms vanishes only if every term does. */
  lemma SumZero<A>(xs: set<A>, f: A -> real, a: A)
    requires (forall b | b in xs :: f(b) >= 0.0) && SumOver(xs, f) <= 0.0 && a in xs
    ensures f(a) == 0.0
  {
    SumRemove(xs, f, a);
    SumNonnegative(xs - {a}, f);
  }

  function Abs(x: real): real {
    if x < 0.0 then -x else x
  }

  lemma {:induction false} SumTriangle<A>(xs: set<A>, f: A -> real)
    ensures Abs(SumOver(xs, f)) <= SumOver(xs, a => Abs(f(a)))
    decreases |xs|
  {
    if xs != {} {
      var a :| a in xs;
      SumRemove(xs, f, a);
      SumRemove(xs, b => Abs(f(b)), a);
      SumTriangle(xs - {a}, f);
    }
  }
}
