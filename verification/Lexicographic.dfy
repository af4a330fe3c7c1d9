/** The lexicographic order of sequences, as Python compares tuples and strings. */
module Lexicographic {

  predicate Leq(a: seq<int>, b: seq<int>) {
    |a| == 0 || (|b| > 0 && (a[0] < b[0] || (a[0] == b[0] && Leq(a[1..], b[1..]))))
  }

  /** Position `k` is the first where the two differ, and `a` is smaller there. */
  ghost predicate SmallerAt(a: seq<int>, b: seq<int>, k: nat) {
    k < |a| && k < |b| && a[..k] == b[..k] && a[k] < b[k]
  }

  /** One sequence is at most another if and only if it is a prefix of it or smaller at the first
      position where they differ. */
  lemma {:induction false} LeqIff(a: seq<int>, b: seq<int>)
    ensures Leq(a, b) <==> a <= b || exists k: nat :: SmallerAt(a, b, k)
  {
    if |a| > 0 && |b| > 0 {
      var a', b' := a[1..], b[1..];
      LeqIff(a', b');
      if a[0] == b[0] {
        assert a' <= b' <==> a <= b by {
          assert a == [a[0]] + a' && b == [a[0]] + b';
        }
        if k: nat :| SmallerAt(a', b', k) {
          assert a[..k + 1] == [a[0]] + a'[..k] && b[..k + 1] == [a[0]] + b'[..k];
          assert SmallerAt(a, b, k + 1);
        }
        if k: nat :| SmallerAt(a, b, k) {
          assert k > 0;
          assert a'[..k - 1] == a[..k][1..] && b'[..k - 1] == b[..k][1..];
          assert SmallerAt(a', b', k - 1);
        }
      } else {
        if a[0] < b[0] {
          assert SmallerAt(a, b, 0);
        }
        if k: nat :| SmallerAt(a, b, k) {
          assert k > 0 ==> a[..k][0] == b[..k][0];
        }
      }
    }
  }

  /** On strings: a prefix, or the smaller character where they first differ. */
  lemma CodesLeqIff(s: string, t: string)
    ensures Leq(Codes(s), Codes(t)) <==>
            s <= t || exists k: nat :: k < |s| && k < |t| && s[..k] == t[..k] && s[k] < t[k]
  {
    var a, b := Codes(s), Codes(t);
    LeqIff(a, b);
    if s <= t {
      assert a == Codes(t)[..|s|];
    }
    if a <= b {
      CodesPrefix(s, t, |s|);
    }
    if k: nat :| SmallerAt(a, b, k) {
      CodesPrefix(s, t, k);
      assert s[k] < t[k];
    }
    if k: nat :| k < |s| && k < |t| && s[..k] == t[..k] && s[k] < t[k] {
      CodesPrefix(s, t, k);
      assert SmallerAt(a, b, k);
    }
  }

  lemma CodesPrefix(s: string, t: string, k: nat)
    requires k <= |s| && k <= |t|
    ensures Codes(s)[..k] == Codes(t)[..k] <==> s[..k] == t[..k]
  {
    assert Codes(s)[..k] == Codes(s[..k]) && Codes(t)[..k] == Codes(t[..k]);
    if Codes(s[..k]) == Codes(t[..k]) {
      CodesInjective(s[..k], t[..k]);
    }
  }

  lemma {:induction false} Total(a: seq<int>, b: seq<int>)
    ensures Leq(a, b) || Leq(b, a)
    ensures Leq(a, b) && Leq(b, a) ==> a == b
  {
    if |a| > 0 && |b| > 0 {
      Total(a[1..], b[1..]);
      assert a == [a[0]] + a[1..] && b == [b[0]] + b[1..];
    }
  }

  lemma {:induction false} Transitive(a: seq<int>, b: seq<int>, c: seq<int>)
    requires Leq(a, b) && Leq(b, c)
    ensures Leq(a, c)
  {
    if |a| > 0 && a[0] == b[0] == c[0] {
      Transitive(a[1..], b[1..], c[1..]);
    }
  }

  /** The code points of a string. */
  function Codes(s: string): (codes: seq<int>)
    ensures |codes| == |s|
  {
    seq(|s|, i requires 0 <= i < |s| => s[i] as int)
  }

  lemma CodesInjective(s: string, t: string)
    requires Codes(s) == Codes(t)
    ensures s == t
  {
    forall i | 0 <= i < |s|
      ensures s[i] == t[i]
    {
      assert Codes(s)[i] == Codes(t)[i];
    }
  }
}
