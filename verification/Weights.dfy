/** Greatest common divisors, and the weight list of a scheduler as its users give it. */
module Weights {
  /** Host and port, joined by a colon. */
  type Address = string

  datatype Entry = Entry(address: Address, weight: nat)

  // ----- divisors

  ghost predicate Divides(d: nat, a: nat) { exists k: nat :: a == d * k }

  ghost predicate IsGcd(g: nat, a: nat, b: nat) {
    forall d: nat :: Divides(d, g) <==> Divides(d, a) && Divides(d, b)
  }

  lemma DividesSelf(d: nat)
    ensures Divides(d, d)
  {
    assert d == d * 1;
  }

  lemma DividesTimes(d: nat, a: nat, k: nat)
    requires Divides(d, a)
    ensures Divides(d, a * k)
  {
    var m: nat :| a == d * m;
    assert a * k == d * (m * k);
  }

  lemma DividesPlus(d: nat, a: nat, b: nat)
    requires Divides(d, a)
    ensures Divides(d, a + b) <==> Divides(d, b)
  {
    var m: nat :| a == d * m;
    if Divides(d, b) {
      var k: nat :| b == d * k;
      assert a + b == d * (m + k);
    }
    if Divides(d, a + b) {
      var k: nat :| a + b == d * k;
      FactorsApart(d, m, k, b);
    }
  }

  lemma FactorsApart(d: nat, m: nat, k: nat, b: nat)
    requires d * m + b == d * k
    ensures Divides(d, b)
  {
    if k < m {
      assert d * m == d * k + d * (m - k);
      assert b == 0 == d * 0;
    } else {
      assert d * k == d * m + d * (k - m);
      assert b == d * (k - m);
    }
  }

  lemma DividesMod(d: nat, a: nat, b: nat)
    requires b > 0 && Divides(d, b)
    ensures Divides(d, a) <==> Divides(d, a % b)
  {
    var q := a / b;
    assert a == b * q + a % b;
    DividesTimes(d, b, q);
    DividesPlus(d, b * q, a % b);
  }

  lemma DividesZero(d: nat)
    ensures Divides(d, 0)
  {
    assert 0 == d * 0;
  }

  function Euclid(a: nat, b: nat): nat
    decreases b
  {
    if b == 0 then a else Euclid(b, a % b)
  }

  lemma {:induction false} EuclidIsGcd(a: nat, b: nat)
    ensures IsGcd(Euclid(a, b), a, b)
    decreases b
  {
    if b == 0 {
      forall d: nat ensures Divides(d, 0) { DividesZero(d); }
    } else {
      EuclidIsGcd(b, a % b);
      forall d: nat | Divides(d, b) ensures Divides(d, a) <==> Divides(d, a % b) { DividesMod(d, a, b); }
    }
  }

  method Gcd(a: nat, b: nat) returns (g: nat)
    ensures g == Euclid(a, b)
  {
    var b': nat := b;
    g := a;
    while b' > 0
      invariant Euclid(g, b') == Euclid(a, b)
      decreases b'
    {
      g, b' := b', g % b';
    }
  }

  // ----- a whole list of weights

  ghost predicate DividesAll(d: nat, ws: seq<nat>) { forall k :: 0 <= k < |ws| ==> Divides(d, ws[k]) }

  /** The common divisors of the list are the divisors of `g`. */
  ghost predicate IsGcdOf(g: nat, ws: seq<nat>) { forall d: nat :: Divides(d, g) <==> DividesAll(d, ws) }

  lemma FactorBound(d: nat, k: nat)
    ensures d * k > 0 ==> 0 < d <= d * k
  {
    if k > 0 { assert d * k == d + d * (k - 1); }
  }

  lemma DividesBound(d: nat, a: nat)
    ensures Divides(d, a) && a > 0 ==> 0 < d <= a
  {
    if Divides(d, a) {
      var k: nat :| a == d * k;
      FactorBound(d, k);
    }
  }

  lemma ZeroDivides(a: nat)
    ensures Divides(0, a) <==> a == 0
  {
    DividesZero(0);
  }

  lemma GcdPositive(g: nat, ws: seq<nat>)
    requires IsGcdOf(g, ws) && forall k :: 0 <= k < |ws| ==> ws[k] > 0
    ensures g == 0 <==> ws == []
  {
    DividesSelf(g);
    if ws == [] {
      assert Divides(0, g);
      ZeroDivides(g);
    } else {
      assert Divides(g, ws[0]);
      ZeroDivides(ws[0]);
    }
  }

  /** One more weight, as the loops fold it in; a zero weight is skipped. */
  lemma GcdStep(g: nat, ws: seq<nat>, w: nat, h: nat)
    requires IsGcdOf(g, ws) && (forall k :: 0 <= k < |ws| ==> ws[k] > 0)
    requires if g == 0 then h == w else IsGcd(h, g, w)
    ensures IsGcdOf(h, ws + [w])
  {
    var all := ws + [w];
    GcdPositive(g, ws);
    forall d: nat ensures Divides(d, h) <==> DividesAll(d, all) {
      if DividesAll(d, all) {
        assert all[|ws|] == w;
        forall k | 0 <= k < |ws| ensures Divides(d, ws[k]) { assert all[k] == ws[k]; }
      }
    }
  }

  /** Divided by their greatest common divisor, weights have no common divisor but 1. */
  lemma QuotientsCoprime(g: nat, ws: seq<nat>, qs: seq<nat>)
    requires g > 0 && IsGcdOf(g, ws) && |qs| == |ws| && forall k :: 0 <= k < |ws| ==> ws[k] == qs[k] * g
    ensures IsGcdOf(1, qs)
  {
    forall d: nat ensures Divides(d, 1) <==> DividesAll(d, qs) {
      if DividesAll(d, qs) {
        forall k | 0 <= k < |ws| ensures Divides(d * g, ws[k]) { DividesScaled(d, qs[k], g); }
        assert DividesAll(d * g, ws);
        UnitDivisor(d, g);
      }
      if Divides(d, 1) {
        forall k | 0 <= k < |qs| ensures Divides(d, qs[k]) { DividesTimes(d, 1, qs[k]); }
      }
    }
  }

  lemma DividesScaled(d: nat, a: nat, g: nat)
    requires Divides(d, a)
    ensures Divides(d * g, a * g)
  {
    var m: nat :| a == d * m;
    Regroup(d, m, g);
  }

  lemma Regroup(d: nat, m: nat, g: nat)
    ensures d * m * g == (d * g) * m
  {
  }

  lemma UnitDivisor(d: nat, g: nat)
    requires g > 0 && Divides(d * g, g)
    ensures Divides(d, 1)
  {
    var m: nat :| g == (d * g) * m;
    Regroup(d, m, g);
    var x := d * m;
    assert g == x * g;
    assert (x - 1) * g == x * g - g == 0;
    assert x == 1;
  }
}
