/**
 * The scale reducer. A scale `NOM / DENOM` says how many seconds one tick is
 * (for durations and instants) or how many hertz one raw unit is (for
 * rates). Given a left scale `L = Ln / Ld` and a right scale `R = Rn / Rd`,
 * the helper constants are the cross products `Ld * Rn` and `Rd * Ln`
 * divided by their gcd, so that a cross-base comparison or rescaling needs
 * one small multiply instead of the full products.
 *
 * The constants are `u64`; every product of two `u32` scale components fits
 * in `u64`, so none of them overflows.
 */
module Helpers {
  import opened Primitives
  import opened Arith
  import opened Divisibility

  /** The compile-time assertion `greater_than_0::<N>()`: it rejects `N == 0`. */
  predicate GreaterThan0(n: nat) {
    n > 0
  }

  /** A scale `nom / denom`; both are `u32` const generics. */
  datatype Scale = Scale(nom: nat, denom: nat) {
    /** The scales every constructor accepts. */
    predicate Valid() {
      GreaterThan0(nom) && GreaterThan0(denom) && nom <= U32_MAX && denom <= U32_MAX
    }
  }

  lemma ProductBounds(a: nat, b: nat)
    requires 0 < a <= U32_MAX && 0 < b <= U32_MAX
    ensures 0 < a * b <= U64_MAX
  {
    MulMonotone(a, U32_MAX, b);
    MulMonotone(b, U32_MAX, U32_MAX);
    MulAtLeast(a, b);
  }

  /** `DIVISOR = gcd(Ld * Rn, Rd * Ln)` */
  function Divisor(l: Scale, r: Scale): (g: nat)
    requires l.Valid() && r.Valid()
    ensures Divides(g, l.denom * r.nom) && Divides(g, r.denom * l.nom)
  {
    ProductBounds(l.denom, r.nom);
    ProductBounds(r.denom, l.nom);
    GcdDivides(l.denom * r.nom, r.denom * l.nom);
    Gcd(l.denom * r.nom, r.denom * l.nom)
  }

  /** `RD_TIMES_LN = (Rd * Ln) / DIVISOR` */
  function RdTimesLn(l: Scale, r: Scale): (f: nat)
    requires l.Valid() && r.Valid()
    ensures 0 < f <= U64_MAX
    ensures f * Divisor(l, r) == r.denom * l.nom
  {
    var g := Divisor(l, r);
    ProductBounds(r.denom, l.nom);
    Cofactor(r.denom * l.nom, g);
    DivMonotone(r.denom * l.nom, U64_MAX * g, g);
    MultipleMod(U64_MAX, g);
    (r.denom * l.nom) / g
  }

  /** `LD_TIMES_RN = (Ld * Rn) / DIVISOR` */
  function LdTimesRn(l: Scale, r: Scale): (f: nat)
    requires l.Valid() && r.Valid()
    ensures 0 < f <= U64_MAX
    ensures f * Divisor(l, r) == l.denom * r.nom
  {
    var g := Divisor(l, r);
    ProductBounds(l.denom, r.nom);
    Cofactor(l.denom * r.nom, g);
    DivMonotone(l.denom * r.nom, U64_MAX * g, g);
    MultipleMod(U64_MAX, g);
    (l.denom * r.nom) / g
  }

  /** `DIVISOR_2 = gcd(Ln * Rn, Rd * Ld)` */
  function Divisor2(l: Scale, r: Scale): (g: nat)
    requires l.Valid() && r.Valid()
    ensures Divides(g, l.nom * r.nom) && Divides(g, r.denom * l.denom)
  {
    ProductBounds(l.nom, r.nom);
    ProductBounds(r.denom, l.denom);
    GcdDivides(l.nom * r.nom, r.denom * l.denom);
    Gcd(l.nom * r.nom, r.denom * l.denom)
  }

  /** `LN_TIMES_RN = (Ln * Rn) / DIVISOR_2` */
  function LnTimesRn(l: Scale, r: Scale): (f: nat)
    requires l.Valid() && r.Valid()
    ensures f > 0 && f * Divisor2(l, r) == l.nom * r.nom
  {
    ProductBounds(l.nom, r.nom);
    Cofactor(l.nom * r.nom, Divisor2(l, r));
    (l.nom * r.nom) / Divisor2(l, r)
  }

  /** `RD_TIMES_LD = (Rd * Ld) / DIVISOR_2` */
  function RdTimesLd(l: Scale, r: Scale): (f: nat)
    requires l.Valid() && r.Valid()
    ensures f > 0 && f * Divisor2(l, r) == r.denom * l.denom
  {
    ProductBounds(r.denom, l.denom);
    Cofactor(r.denom * l.denom, Divisor2(l, r));
    (r.denom * l.denom) / Divisor2(l, r)
  }

  /**
   * `RATE_TO_DURATION_NUMERATOR = RD_TIMES_LD / LN_TIMES_RN`: the reduction
   * by `DIVISOR_2` does not change the truncated quotient `(Rd * Ld) / (Ln * Rn)`.
   */
  function RateToDurationNumerator(l: Scale, r: Scale): (f: nat)
    requires l.Valid() && r.Valid()
    ensures l.nom * r.nom > 0
    ensures f == (r.denom * l.denom) / (l.nom * r.nom)
  {
    var g := Divisor2(l, r);
    ProductBounds(l.nom, r.nom);
    assert g > 0;
    MulDivCancel(RdTimesLd(l, r), LnTimesRn(l, r), g);
    RdTimesLd(l, r) / LnTimesRn(l, r)
  }

  /** `SAME_BASE`: the two reduced cross factors coincide. */
  predicate SameBase(l: Scale, r: Scale)
    requires l.Valid() && r.Valid()
  {
    LdTimesRn(l, r) == RdTimesLn(l, r)
  }

  /** The reduced factors fit in the width `w`, so the `as T` casts of them lose nothing. */
  predicate FactorsFit(w: Width, l: Scale, r: Scale)
    requires l.Valid() && r.Valid()
  {
    RdTimesLn(l, r) <= Max(w) && LdTimesRn(l, r) <= Max(w)
  }

  /**
   * The exact meaning of moving `t` units of scale `from` into scale `to`:
   * `t * from / to`, rounded down.
   */
  function Rescale(t: nat, from: Scale, to: Scale): nat
    requires from.Valid() && to.Valid()
  {
    ProductBounds(from.denom, to.nom);
    var num, den := t * (from.nom * to.denom), from.denom * to.nom;
    MulMonotone(0, t, from.nom * to.denom);
    num / den
  }

  // ---------------------------------------------------------------------
  // Properties of the reducer
  // ---------------------------------------------------------------------

  /** `DIVISOR` is the greatest common divisor: every common divisor of the two cross products divides it. */
  lemma DivisorIsGreatest(l: Scale, r: Scale, d: nat)
    requires l.Valid() && r.Valid()
    requires Divides(d, l.denom * r.nom) && Divides(d, r.denom * l.nom)
    ensures Divides(d, Divisor(l, r))
  {
    GcdGreatest(l.denom * r.nom, r.denom * l.nom, d);
  }

  /** `DIVISOR_2` is the greatest common divisor of `Ln * Rn` and `Rd * Ld`. */
  lemma Divisor2IsGreatest(l: Scale, r: Scale, d: nat)
    requires l.Valid() && r.Valid()
    requires Divides(d, l.nom * r.nom) && Divides(d, r.denom * l.denom)
    ensures Divides(d, Divisor2(l, r))
  {
    GcdGreatest(l.nom * r.nom, r.denom * l.denom, d);
  }

  /** The reduced factors keep the ratio of the cross products. */
  lemma ReducedFactorsKeepRatio(l: Scale, r: Scale)
    requires l.Valid() && r.Valid()
    ensures RdTimesLn(l, r) * (l.denom * r.nom) == LdTimesRn(l, r) * (r.denom * l.nom)
  {
    var g, rd, ld := Divisor(l, r), RdTimesLn(l, r), LdTimesRn(l, r);
    calc {
      rd * (l.denom * r.nom);
      rd * (ld * g);
      { assert rd * (ld * g) == ld * (rd * g); }
      ld * (rd * g);
      ld * (r.denom * l.nom);
    }
  }

  /** The reduced factors are minimal: they have no common divisor but 1. */
  lemma ReducedFactorsCoprime(l: Scale, r: Scale)
    requires l.Valid() && r.Valid()
    ensures Gcd(LdTimesRn(l, r), RdTimesLn(l, r)) == 1
  {
    ProductBounds(l.denom, r.nom);
    ProductBounds(r.denom, l.nom);
    CofactorsCoprime(l.denom * r.nom, r.denom * l.nom);
  }

  /**
   * `SAME_BASE` holds exactly when the two scales are the same rational
   * number (`2 / 2000` and `1 / 1000` are), and then both factors are 1.
   */
  lemma SameBaseIff(l: Scale, r: Scale)
    requires l.Valid() && r.Valid()
    ensures SameBase(l, r) <==> l.nom * r.denom == r.nom * l.denom
    ensures SameBase(l, r) ==> RdTimesLn(l, r) == 1 && LdTimesRn(l, r) == 1
  {
    var g, rd, ld := Divisor(l, r), RdTimesLn(l, r), LdTimesRn(l, r);
    assert l.nom * r.denom == r.denom * l.nom;
    assert r.nom * l.denom == l.denom * r.nom;
    if rd == ld {
      assert l.denom * r.nom == r.denom * l.nom;
    }
    if l.denom * r.nom == r.denom * l.nom {
      var a := l.denom * r.nom;
      GcdSelf(a);
      assert g == a;
      ProductBounds(l.denom, r.nom);
      MultipleMod(1, a);
    }
  }

  /** On `SAME_BASE` both reduced factors are 1. */
  lemma SameBaseFactors(l: Scale, r: Scale)
    requires l.Valid() && r.Valid()
    ensures SameBase(l, r) ==> RdTimesLn(l, r) == 1 && LdTimesRn(l, r) == 1
  {
    SameBaseIff(l, r);
  }

  /** On `SAME_BASE` the factors (both 1) fit every width. */
  lemma SameBaseFits(w: Width, l: Scale, r: Scale)
    requires l.Valid() && r.Valid()
    ensures SameBase(l, r) ==> FactorsFit(w, l, r)
  {
    SameBaseFactors(l, r);
  }

  /** A scale is always in the same base as itself. */
  lemma SameBaseReflexive(s: Scale)
    requires s.Valid()
    ensures SameBase(s, s)
    ensures RdTimesLn(s, s) == 1 && LdTimesRn(s, s) == 1
  {
    SameBaseIff(s, s);
  }

  /** Swapping the scales swaps the two reduced factors and keeps `SAME_BASE`. */
  lemma SwapScales(l: Scale, r: Scale)
    requires l.Valid() && r.Valid()
    ensures Divisor(r, l) == Divisor(l, r)
    ensures RdTimesLn(r, l) == LdTimesRn(l, r) && LdTimesRn(r, l) == RdTimesLn(l, r)
    ensures SameBase(r, l) == SameBase(l, r)
  {
    GcdSymmetric(l.denom * r.nom, r.denom * l.nom);
  }

  /** On a 64-bit value every reduced factor fits, so the casts are exact. */
  lemma FactorsFitU64(l: Scale, r: Scale)
    requires l.Valid() && r.Valid()
    ensures FactorsFit(U64, l, r)
  {
  }

  /**
   * Rescaling through the reduced factors gives the exact rescaled value:
   * `t * LD_TIMES_RN / RD_TIMES_LN` moves `t` from `r` into `l`, and
   * `t * RD_TIMES_LN / LD_TIMES_RN` moves it from `l` into `r`.
   */
  lemma RescaleViaFactors(t: nat, l: Scale, r: Scale)
    requires l.Valid() && r.Valid()
    ensures (t * LdTimesRn(l, r)) / RdTimesLn(l, r) == Rescale(t, r, l)
    ensures (t * RdTimesLn(l, r)) / LdTimesRn(l, r) == Rescale(t, l, r)
  {
    var g, rd, ld := Divisor(l, r), RdTimesLn(l, r), LdTimesRn(l, r);
    ReducedQuotient(t, ld, rd, g, r.nom * l.denom, r.denom * l.nom);
    ReducedQuotient(t, rd, ld, g, l.nom * r.denom, l.denom * r.nom);
  }

  /** Scaling by `n / d` gives the same floor as scaling by `(n * g) / (d * g)`. */
  lemma ReducedQuotient(t: nat, n: nat, d: nat, g: nat, ng: nat, dg: nat)
    requires d > 0 && g > 0 && n * g == ng && d * g == dg
    ensures dg > 0 && (t * n) / d == (t * ng) / dg
  {
    MulDivCancel(t * n, d, g);
    assert t * ng == (t * n) * g;
  }

  lemma CmpScaled(a: nat, b: nat, g: nat)
    requires g > 0
    ensures Cmp(a * g, b * g) == Cmp(a, b)
  {
    if a < b {
      MulStrictMonotone(a, b, g);
    } else if b < a {
      MulStrictMonotone(b, a, g);
    }
  }

  /**
   * Comparing `x * RD_TIMES_LN` with `y * LD_TIMES_RN` orders `x` units of
   * `l` against `y` units of `r` exactly: `x * Ln / Ld` against `y * Rn / Rd`.
   */
  lemma CompareViaFactors(x: nat, y: nat, l: Scale, r: Scale)
    requires l.Valid() && r.Valid()
    ensures Cmp(x * RdTimesLn(l, r), y * LdTimesRn(l, r))
         == Cmp(x * (l.nom * r.denom), y * (r.nom * l.denom))
  {
    var g, rd, ld := Divisor(l, r), RdTimesLn(l, r), LdTimesRn(l, r);
    CmpScaled(x * rd, y * ld, g);
    assert (x * rd) * g == x * (l.nom * r.denom) by {
      assert rd * g == l.nom * r.denom;
    }
    assert (y * ld) * g == y * (r.nom * l.denom) by {
      assert ld * g == r.nom * l.denom;
    }
  }

  /** On the same base rescaling changes nothing. */
  lemma RescaleSameBase(t: nat, l: Scale, r: Scale)
    requires l.Valid() && r.Valid() && SameBase(l, r)
    ensures Rescale(t, r, l) == t && Rescale(t, l, r) == t
  {
    SameBaseIff(l, r);
    RescaleViaFactors(t, l, r);
  }

  /**
   * Moving `t` from `a` to `b` and back never gains anything, and gives
   * `t` back exactly when the first move did not round.
   */
  lemma RescaleRoundTrip(t: nat, a: Scale, b: Scale)
    requires a.Valid() && b.Valid()
    ensures Rescale(Rescale(t, a, b), b, a) <= t
    ensures (t * (a.nom * b.denom)) % (a.denom * b.nom) == 0 ==> Rescale(Rescale(t, a, b), b, a) == t
  {
    ProductBounds(a.nom, b.denom);
    ProductBounds(a.denom, b.nom);
    var p, q := a.nom * b.denom, a.denom * b.nom;
    var u := Rescale(t, a, b);
    assert u == (t * p) / q;
    assert b.nom * a.denom == q && b.denom * a.nom == p;
    assert Rescale(u, b, a) == (u * q) / p;
    DivMulLe(t * p, q);
    DivMonotone(u * q, t * p, p);
    MultipleMod(t, p);
    if (t * p) % q == 0 {
      assert u * q == t * p;
    }
  }
}
