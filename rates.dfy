/**
 * `Rate<T, NOM, DENOM>` of src/rate.rs: a frequency of `raw * NOM / DENOM`
 * hertz held in a `u32` or a `u64`. Its arithmetic mirrors `Duration`'s,
 * except that conversion to another scale multiplies in `u64` and checks
 * the quotient against `T::MAX` afterwards, and that a rate turns into the
 * duration of one period.
 */
module Rates {
  import opened Primitives
  import opened Arith
  import opened Helpers
  import opened CrossBase
  import opened Durations

  datatype Rate = Rate(width: Width, scale: Scale, raw: nat) {
    /** The scale passed `greater_than_0` and the raw value fits in `T`. */
    predicate Valid() {
      scale.Valid() && raw <= Max(width)
    }
  }

  /** `from_raw`; `raw()` is the field `raw`. */
  function FromRaw(w: Width, s: Scale, raw: nat): (r: Rate)
    requires s.Valid() && raw <= Max(w)
    ensures r.Valid() && r.width == w && r.scale == s && r.raw == raw
    ensures GreaterThan0(r.scale.nom) && GreaterThan0(r.scale.denom)
  {
    Rate(w, s, raw)
  }

  // ---------------------------------------------------------------------
  // Checked arithmetic and conversion
  // ---------------------------------------------------------------------

  /** `checked_add`: `b` rescaled into `a`'s scale and added; `None` on overflow. */
  function CheckedAdd(a: Rate, b: Rate): (r: Option<Rate>)
    requires a.Valid() && b.Valid() && a.width == b.width
    requires OtherInBaseDefined(a.width, a.scale, b.raw, b.scale)
    ensures r.Some? ==> r.value.Valid() && r.value.width == a.width && r.value.scale == a.scale
    ensures FactorsFit(a.width, a.scale, b.scale) ==>
      (r.Some? <==> b.raw * LdTimesRn(a.scale, b.scale) <= Max(a.width)
                    && a.raw + Rescale(b.raw, b.scale, a.scale) <= Max(a.width))
    ensures FactorsFit(a.width, a.scale, b.scale) && r.Some? ==>
      r.value.raw == a.raw + Rescale(b.raw, b.scale, a.scale)
  {
    match AddInBase(a.width, a.raw, a.scale, b.raw, b.scale)
    case None => None
    case Some(v) => Some(FromRaw(a.width, a.scale, v))
  }

  /** `checked_sub`: `b` rescaled into `a`'s scale and subtracted; `None` on overflow or underflow. */
  function CheckedSub(a: Rate, b: Rate): (r: Option<Rate>)
    requires a.Valid() && b.Valid() && a.width == b.width
    requires OtherInBaseDefined(a.width, a.scale, b.raw, b.scale)
    ensures r.Some? ==> r.value.Valid() && r.value.width == a.width && r.value.scale == a.scale
    ensures r.Some? ==> r.value.raw <= a.raw
    ensures FactorsFit(a.width, a.scale, b.scale) ==>
      (r.Some? <==> b.raw * LdTimesRn(a.scale, b.scale) <= Max(a.width)
                    && Rescale(b.raw, b.scale, a.scale) <= a.raw)
    ensures FactorsFit(a.width, a.scale, b.scale) && r.Some? ==>
      r.value.raw == a.raw - Rescale(b.raw, b.scale, a.scale)
  {
    match SubInBase(a.width, a.raw, a.scale, b.raw, b.scale)
    case None => None
    case Some(v) => Some(FromRaw(a.width, a.scale, v))
  }

  /**
   * `const_try_into`: the same frequency in scale `to`, rounded down. The
   * multiply is done in `u64` with the uncast factor, so the only failures
   * are a `u64` overflow and a quotient above `T::MAX`; no width condition
   * is needed for the exact result.
   */
  function ConstTryInto(r: Rate, to: Scale): (o: Option<Rate>)
    requires r.Valid() && to.Valid()
    ensures o.Some? <==> r.raw * RdTimesLn(r.scale, to) <= U64_MAX && Rescale(r.raw, r.scale, to) <= Max(r.width)
    ensures o.Some? ==> o.value.Valid() && o.value.width == r.width && o.value.scale == to
    ensures o.Some? ==> o.value.raw == Rescale(r.raw, r.scale, to)
  {
    match IntoViaU64(r.width, r.raw, r.scale, to)
    case None => None
    case Some(v) => Some(FromRaw(r.width, to, v))
  }

  /** `convert`: `const_try_into`, panicking on `None`. */
  function Convert(r: Rate, to: Scale): (o: Rate)
    requires r.Valid() && to.Valid() && ConstTryInto(r, to).Some?
    ensures o.Valid() && o.width == r.width && o.scale == to
    ensures o.raw == Rescale(r.raw, r.scale, to)
  {
    ConstTryInto(r, to).value
  }

  /**
   * `try_into_duration`: the period of the rate as a duration of scale `to`,
   * `RATE_TO_DURATION_NUMERATOR as T / raw`; `None` exactly for a zero rate.
   * When the numerator fits the width the period is exact, rounded down:
   * `(Rd * Ld) / (Ln * Rn * raw)` ticks.
   */
  function TryIntoDuration(r: Rate, to: Scale): (d: Option<Duration>)
    requires r.Valid() && to.Valid()
    ensures d.Some? <==> r.raw > 0
    ensures d.Some? ==> d.value.Valid() && d.value.width == r.width && d.value.scale == to
    ensures d.Some? && RateToDurationNumerator(r.scale, to) <= Max(r.width) ==>
      r.scale.nom * to.nom * r.raw > 0 &&
      d.value.ticks == (to.denom * r.scale.denom) / (r.scale.nom * to.nom * r.raw)
  {
    if r.raw > 0 then
      Some(Durations.FromTicks(r.width, to, PeriodTicks(r.width, r.scale, to, r.raw)))
    else
      None
  }

  /**
   * The period in ticks of scale `to` of `raw` counts of scale `l`:
   * `RATE_TO_DURATION_NUMERATOR as T / raw`, which fits the width.
   */
  function PeriodTicks(w: Width, l: Scale, to: Scale, raw: nat): (q: nat)
    requires l.Valid() && to.Valid() && raw > 0
    ensures q <= Max(w)
    ensures RateToDurationNumerator(l, to) <= Max(w) ==>
      l.nom * to.nom * raw > 0 && q == (to.denom * l.denom) / (l.nom * to.nom * raw)
  {
    var n := Truncate(w, RateToDurationNumerator(l, to));
    DivAtMost(n, raw);
    PeriodExact(w, l, to, raw);
    n / raw
  }

  /**
   * When the numerator fits the width, dividing it by the raw rate is the
   * one truncated division `(Rd * Ld) / (Ln * Rn * raw)`.
   */
  lemma PeriodExact(w: Width, l: Scale, to: Scale, raw: nat)
    requires l.Valid() && to.Valid() && raw > 0
    ensures RateToDurationNumerator(l, to) <= Max(w) ==>
      l.nom * to.nom * raw > 0 &&
      Truncate(w, RateToDurationNumerator(l, to)) / raw == (to.denom * l.denom) / (l.nom * to.nom * raw)
  {
    if RateToDurationNumerator(l, to) <= Max(w) {
      DivDiv(to.denom * l.denom, l.nom * to.nom, raw);
    }
  }

  /** `into_duration`: `try_into_duration`, panicking on a zero rate. */
  function IntoDuration(r: Rate, to: Scale): (d: Duration)
    requires r.Valid() && to.Valid() && r.raw > 0
    ensures d.Valid() && d.width == r.width && d.scale == to
    ensures RateToDurationNumerator(r.scale, to) <= Max(r.width) ==>
      r.scale.nom * to.nom * r.raw > 0 &&
      d.ticks == (to.denom * r.scale.denom) / (r.scale.nom * to.nom * r.raw)
  {
    TryIntoDuration(r, to).value
  }

  // ---------------------------------------------------------------------
  // Hertz constructors and accessors
  // ---------------------------------------------------------------------

  /** The reference scales of the constructors and accessors, in hertz. */
  const HZ := Scale(1, 1)
  const KHZ := Scale(1_000, 1)
  const MHZ := Scale(1_000_000, 1)

  /** What `Hz`/`kHz`/`MHz` need of `val` against the reference scale `unit`. */
  predicate FromUnitFits(w: Width, unit: Scale, s: Scale, val: nat)
    requires unit.Valid() && s.Valid()
  {
    val <= Max(w)
    && Truncate(w, RdTimesLn(unit, s)) * val <= Max(w)
    && LdCastNonZero(w, unit, s)
  }

  /** What `to_Hz`/`to_kHz`/`to_MHz` need of the rate against the reference scale `unit`. */
  predicate ToUnitFits(r: Rate, unit: Scale)
    requires r.Valid() && unit.Valid()
  {
    Truncate(r.width, LdTimesRn(unit, r.scale)) * r.raw <= Max(r.width)
    && RdCastNonZero(r.width, unit, r.scale)
  }

  /**
   * Against whole hertz the reduced factors are `s.denom / g` and
   * `s.nom / g`, both at most a `u32` scale component, so they fit every
   * width and `Hz`/`to_Hz` are always exact.
   */
  lemma HzFactorsFit(w: Width, s: Scale)
    requires s.Valid()
    ensures FactorsFit(w, HZ, s)
  {
    var g := Divisor(HZ, s);
    var rd, ld := RdTimesLn(HZ, s), LdTimesRn(HZ, s);
    assert rd * g == s.denom && ld * g == s.nom;
    MulAtLeast(g, rd);
    MulAtLeast(g, ld);
    assert g * rd == rd * g && g * ld == ld * g;
  }

  /** `Hz(val)`: `val` hertz as a rate of scale `s`; the multiply is unchecked and required not to overflow. */
  function Hz(w: Width, s: Scale, val: nat): (r: Rate)
    requires s.Valid() && FromUnitFits(w, HZ, s, val)
    ensures r.Valid() && r.width == w && r.scale == s
    ensures r.raw == (val * s.denom) / s.nom
  {
    HzFactorsFit(w, s);
    FromRaw(w, s, FromUnit(w, HZ, s, val))
  }

  /** `kHz(val)`. */
  function KHz(w: Width, s: Scale, val: nat): (r: Rate)
    requires s.Valid() && FromUnitFits(w, KHZ, s, val)
    ensures r.Valid() && r.width == w && r.scale == s
    ensures FactorsFit(w, KHZ, s) ==> r.raw == (val * (1_000 * s.denom)) / s.nom
  {
    FromRaw(w, s, FromUnit(w, KHZ, s, val))
  }

  /** `MHz(val)`. */
  function MHz(w: Width, s: Scale, val: nat): (r: Rate)
    requires s.Valid() && FromUnitFits(w, MHZ, s, val)
    ensures r.Valid() && r.width == w && r.scale == s
    ensures FactorsFit(w, MHZ, s) ==> r.raw == (val * (1_000_000 * s.denom)) / s.nom
  {
    FromRaw(w, s, FromUnit(w, MHZ, s, val))
  }

  /** `to_Hz()`: the rate in whole hertz; the multiply is unchecked and required not to overflow. */
  function ToHz(r: Rate): (v: nat)
    requires r.Valid() && ToUnitFits(r, HZ)
    ensures v <= Max(r.width)
    ensures v == (r.raw * r.scale.nom) / r.scale.denom
  {
    HzFactorsFit(r.width, r.scale);
    ToUnit(r.width, r.scale, HZ, r.raw)
  }

  /** `to_kHz()`. */
  function ToKHz(r: Rate): (v: nat)
    requires r.Valid() && ToUnitFits(r, KHZ)
    ensures v <= Max(r.width)
    ensures FactorsFit(r.width, KHZ, r.scale) ==> v == (r.raw * r.scale.nom) / (r.scale.denom * 1_000)
  {
    ToUnit(r.width, r.scale, KHZ, r.raw)
  }

  /** `to_MHz()`. */
  function ToMHz(r: Rate): (v: nat)
    requires r.Valid() && ToUnitFits(r, MHZ)
    ensures v <= Max(r.width)
    ensures FactorsFit(r.width, MHZ, r.scale) ==> v == (r.raw * r.scale.nom) / (r.scale.denom * 1_000_000)
  {
    ToUnit(r.width, r.scale, MHZ, r.raw)
  }

  // ---------------------------------------------------------------------
  // Comparison
  // ---------------------------------------------------------------------

  /**
   * `const_partial_cmp` (and `partial_cmp`): `None` when a scaled product
   * overflows, otherwise the exact order of the two frequencies.
   */
  function ConstPartialCmp(a: Rate, b: Rate): (c: Option<Ordering>)
    requires a.Valid() && b.Valid() && a.width == b.width
    ensures FactorsFit(a.width, a.scale, b.scale) ==>
      (c.None? <==> a.raw * RdTimesLn(a.scale, b.scale) > Max(a.width)
                    || b.raw * LdTimesRn(a.scale, b.scale) > Max(a.width))
    ensures FactorsFit(a.width, a.scale, b.scale) && c.Some? ==>
      c.value == Cmp(a.raw * (a.scale.nom * b.scale.denom), b.raw * (b.scale.nom * a.scale.denom))
  {
    CmpInBase(a.width, a.raw, a.scale, b.raw, b.scale)
  }

  /** `Ord::cmp` between rates of one type (`_const_cmp` on the raw values). */
  function OrdCmp(a: Rate, b: Rate): (c: Ordering)
    requires a.Valid() && b.Valid() && a.width == b.width && a.scale == b.scale
    ensures c == Less <==> a.raw < b.raw
    ensures c == Greater <==> a.raw > b.raw
    ensures ConstPartialCmp(a, b) == Some(c)
  {
    SameBaseReflexive(a.scale);
    Cmp(a.raw, b.raw)
  }

  /** `const_eq` (and `eq`): `false` when a scaled product overflows, otherwise exact equality. */
  function ConstEq(a: Rate, b: Rate): (e: bool)
    requires a.Valid() && b.Valid() && a.width == b.width
    ensures e <==> ConstPartialCmp(a, b) == Some(Equal)
    ensures a.scale == b.scale ==> (e <==> a.raw == b.raw)
  {
    SameBaseReflexive(a.scale);
    EqInBase(a.width, a.raw, a.scale, b.raw, b.scale)
  }

  // ---------------------------------------------------------------------
  // Operators
  // ---------------------------------------------------------------------

  /** `Rate + Rate` (and `+=`) of one type: the sum, required not to overflow. */
  function Add(a: Rate, b: Rate): (r: Rate)
    requires a.Valid() && b.Valid() && a.width == b.width && a.scale == b.scale
    requires a.raw + b.raw <= Max(a.width)
    ensures r.Valid() && r.width == a.width && r.scale == a.scale
    ensures r.raw == a.raw + b.raw
  {
    SameBaseReflexive(a.scale);
    SameBaseFits(a.width, a.scale, a.scale);
    RescaleSameBase(b.raw, a.scale, a.scale);
    CheckedAdd(a, b).value
  }

  /** `Rate - Rate` of one type: the difference, required not to underflow. */
  function Sub(a: Rate, b: Rate): (r: Rate)
    requires a.Valid() && b.Valid() && a.width == b.width && a.scale == b.scale
    requires b.raw <= a.raw
    ensures r.Valid() && r.width == a.width && r.scale == a.scale
    ensures r.raw == a.raw - b.raw
  {
    SameBaseReflexive(a.scale);
    SameBaseFits(a.width, a.scale, a.scale);
    RescaleSameBase(b.raw, a.scale, a.scale);
    CheckedSub(a, b).value
  }

  /** `Rate * u32` (`u32 * Rate`, `*=`): the unchecked `*=` on the raw value, required not to overflow. */
  function Mul(r: Rate, k: nat): (o: Rate)
    requires r.Valid() && k <= U32_MAX && r.raw * k <= Max(r.width)
    ensures o.Valid() && o.width == r.width && o.scale == r.scale
    ensures k > 0 ==> o.raw >= r.raw && o.raw % k == 0 && o.raw / k == r.raw
    ensures k == 0 ==> o.raw == 0
  {
    MulMonotone(1, k, r.raw);
    var o := Rate(r.width, r.scale, r.raw * k);
    if k > 0 then MultipleMod(r.raw, k); o else o
  }

  /** `Rate / u32` (`/=`): the raw value divided, rounding down; the divisor must not be 0. */
  function Div(r: Rate, k: nat): (o: Rate)
    requires r.Valid() && 0 < k <= U32_MAX
    ensures o.Valid() && o.width == r.width && o.scale == r.scale
    ensures o.raw * k <= r.raw < (o.raw + 1) * k
  {
    DivAtMost(r.raw, k);
    Rate(r.width, r.scale, r.raw / k)
  }

  /**
   * `Rate / Rate`: `a` converted into `b`'s scale (panicking if that fails),
   * then the raw values divided: how many times `b` fits into `a`, rounded
   * down twice.
   */
  function DivRate(a: Rate, b: Rate): (q: nat)
    requires a.Valid() && b.Valid() && a.width == b.width
    requires ConstTryInto(a, b.scale).Some? && b.raw > 0
    ensures q <= Max(a.width)
    ensures q * b.raw <= Rescale(a.raw, a.scale, b.scale) < (q + 1) * b.raw
  {
    FloorDiv(Convert(a, b.scale).raw, b.raw)
  }

  // ---------------------------------------------------------------------
  // The u32 <-> u64 bridge
  // ---------------------------------------------------------------------

  /** `From<Rate<u32, ..>> for Rate<u64, ..>`: `raw as u64`. */
  function Widen(r: Rate): (o: Rate)
    requires r.Valid() && r.width == U32
    ensures o.Valid() && o.width == U64 && o.scale == r.scale && o.raw == r.raw
  {
    FromRaw(U64, r.scale, r.raw)
  }

  /** `TryFrom<Rate<u64, ..>> for Rate<u32, ..>`: fails exactly when the raw value exceeds `u32::MAX`. */
  function TryNarrow(r: Rate): (o: Option<Rate>)
    requires r.Valid() && r.width == U64
    ensures o.Some? <==> r.raw <= U32_MAX
    ensures o.Some? ==> o.value.Valid() && o.value.width == U32 && Widen(o.value) == r
  {
    if r.raw <= U32_MAX then Some(FromRaw(U32, r.scale, r.raw)) else None
  }

  /** `Rate<u64> + Rate<u32>` (and `+=`) of one scale: the `u32` operand widened first. */
  function AddWide(a: Rate, b: Rate): (r: Rate)
    requires a.Valid() && b.Valid() && a.width == U64 && b.width == U32 && a.scale == b.scale
    requires a.raw + b.raw <= U64_MAX
    ensures r.Valid() && r.width == U64 && r.scale == a.scale
    ensures r.raw == a.raw + b.raw
  {
    Add(a, Widen(b))
  }

  /** `Rate<u64> - Rate<u32>` (and `-=`) of one scale: the `u32` operand widened first. */
  function SubWide(a: Rate, b: Rate): (r: Rate)
    requires a.Valid() && b.Valid() && a.width == U64 && b.width == U32 && a.scale == b.scale
    requires b.raw <= a.raw
    ensures r.Valid() && r.width == U64 && r.scale == a.scale
    ensures r.raw == a.raw - b.raw
  {
    Sub(a, Widen(b))
  }

  /** `PartialOrd<Rate<u32, ..>> for Rate<u64, ..>`: exact in 64 bits. */
  function PartialCmpWide(a: Rate, b: Rate): (c: Option<Ordering>)
    requires a.Valid() && b.Valid() && a.width == U64 && b.width == U32
    ensures c.None? <==> a.raw * RdTimesLn(a.scale, b.scale) > U64_MAX
                         || b.raw * LdTimesRn(a.scale, b.scale) > U64_MAX
    ensures c.Some? ==>
      c.value == Cmp(a.raw * (a.scale.nom * b.scale.denom), b.raw * (b.scale.nom * a.scale.denom))
  {
    FactorsFitU64(a.scale, b.scale);
    ConstPartialCmp(a, Widen(b))
  }

  /** `PartialOrd<Rate<u64, ..>> for Rate<u32, ..>`: exact in 64 bits. */
  function PartialCmpNarrow(a: Rate, b: Rate): (c: Option<Ordering>)
    requires a.Valid() && b.Valid() && a.width == U32 && b.width == U64
    ensures c.None? <==> a.raw * RdTimesLn(a.scale, b.scale) > U64_MAX
                         || b.raw * LdTimesRn(a.scale, b.scale) > U64_MAX
    ensures c.Some? ==>
      c.value == Cmp(a.raw * (a.scale.nom * b.scale.denom), b.raw * (b.scale.nom * a.scale.denom))
  {
    FactorsFitU64(a.scale, b.scale);
    ConstPartialCmp(Widen(a), b)
  }

  /** `PartialEq<Rate<u32, ..>> for Rate<u64, ..>`. */
  function EqWide(a: Rate, b: Rate): (e: bool)
    requires a.Valid() && b.Valid() && a.width == U64 && b.width == U32
    ensures e <==> PartialCmpWide(a, b) == Some(Equal)
  {
    FactorsFitU64(a.scale, b.scale);
    ConstEq(a, Widen(b))
  }

  /** `PartialEq<Rate<u64, ..>> for Rate<u32, ..>`. */
  function EqNarrow(a: Rate, b: Rate): (e: bool)
    requires a.Valid() && b.Valid() && a.width == U32 && b.width == U64
    ensures e <==> PartialCmpNarrow(a, b) == Some(Equal)
  {
    FactorsFitU64(a.scale, b.scale);
    ConstEq(Widen(a), b)
  }
}

module RateLaws {
  import opened Primitives
  import opened Arith
  import opened Helpers
  import opened CrossBase
  import Durations
  import opened Rates

  /** Subtracting what was just added gives the original rate back. */
  lemma SubUndoesAdd(a: Rate, b: Rate, s: Rate)
    requires a.Valid() && b.Valid() && a.width == b.width
    requires OtherInBaseDefined(a.width, a.scale, b.raw, b.scale)
    requires Rates.CheckedAdd(a, b) == Some(s)
    ensures Rates.CheckedSub(s, b) == Some(a)
  {
  }

  /** Adding back what was just subtracted gives the original rate back. */
  lemma AddUndoesSub(a: Rate, b: Rate, s: Rate)
    requires a.Valid() && b.Valid() && a.width == b.width
    requires OtherInBaseDefined(a.width, a.scale, b.raw, b.scale)
    requires Rates.CheckedSub(a, b) == Some(s)
    ensures Rates.CheckedAdd(s, b) == Some(a)
  {
  }

  /**
   * A rate that converts to another scale always converts back, never
   * gains anything on the way, and loses nothing when the first
   * conversion did not round.
   */
  lemma ConvertRoundTrip(r: Rate, to: Scale)
    requires r.Valid() && to.Valid() && ConstTryInto(r, to).Some?
    ensures ConstTryInto(ConstTryInto(r, to).value, r.scale).Some?
    ensures ConstTryInto(ConstTryInto(r, to).value, r.scale).value.raw <= r.raw
    ensures (r.raw * (r.scale.nom * to.denom)) % (r.scale.denom * to.nom) == 0 ==>
      ConstTryInto(ConstTryInto(r, to).value, r.scale).value == r
  {
    var x, rd, ld := r.raw, RdTimesLn(r.scale, to), LdTimesRn(r.scale, to);
    var e := ConstTryInto(r, to).value;
    SwapScales(r.scale, to);
    RescaleViaFactors(x, r.scale, to);
    DivMulLe(x * rd, ld);
    assert e.raw * RdTimesLn(to, r.scale) <= U64_MAX by {
      assert e.raw * ld <= x * rd;
    }
    RescaleRoundTrip(x, r.scale, to);
  }

  /** Comparing the other way round reverses the answer (and keeps a `None`). */
  lemma PartialCmpSwap(a: Rate, b: Rate)
    requires a.Valid() && b.Valid() && a.width == b.width
    ensures FactorsFit(a.width, a.scale, b.scale) ==> FactorsFit(a.width, b.scale, a.scale)
    ensures ConstPartialCmp(b, a).None? <==> ConstPartialCmp(a, b).None?
    ensures ConstPartialCmp(a, b).Some? ==> ConstPartialCmp(b, a).value == ConstPartialCmp(a, b).value.Reverse()
    ensures ConstEq(a, b) == ConstEq(b, a)
  {
    SwapScales(a.scale, b.scale);
  }

  /** Dividing by the factor just multiplied in gives the rate back. */
  lemma DivUndoesMul(r: Rate, k: nat)
    requires r.Valid() && 0 < k <= U32_MAX && r.raw * k <= Max(r.width)
    ensures Div(Mul(r, k), k) == r
  {
    MultipleMod(r.raw, k);
  }

  /** Widening to `u64` and narrowing back is lossless. */
  lemma NarrowUndoesWiden(r: Rate)
    requires r.Valid() && r.width == U32
    ensures TryNarrow(Widen(r)) == Some(r)
  {
  }

  /**
   * Building a rate from whole hertz and reading it back in hertz never
   * gains anything, and gives the value back when the scale holds it
   * exactly.
   */
  lemma HzRoundTrip(w: Width, s: Scale, val: nat)
    requires s.Valid() && FromUnitFits(w, HZ, s, val)
    ensures ToUnitFits(Hz(w, s, val), HZ)
    ensures ToHz(Hz(w, s, val)) <= val
    ensures (val * s.denom) % s.nom == 0 ==> ToHz(Hz(w, s, val)) == val
  {
    HzFactorsFit(w, s);
    UnitRoundTrip(w, HZ, s, val);
  }

  /** At its own reference scale each hertz constructor and accessor is the identity. */
  lemma UnitsAtMatchingScale(w: Width, val: nat)
    requires val <= Max(w)
    ensures FromUnitFits(w, HZ, HZ, val) && Hz(w, HZ, val).raw == val
    ensures FromUnitFits(w, KHZ, KHZ, val) && KHz(w, KHZ, val).raw == val
    ensures FromUnitFits(w, MHZ, MHZ, val) && MHz(w, MHZ, val).raw == val
    ensures ToUnitFits(FromRaw(w, HZ, val), HZ) && ToHz(FromRaw(w, HZ, val)) == val
    ensures ToUnitFits(FromRaw(w, KHZ, val), KHZ) && ToKHz(FromRaw(w, KHZ, val)) == val
    ensures ToUnitFits(FromRaw(w, MHZ, val), MHZ) && ToMHz(FromRaw(w, MHZ, val)) == val
  {
    SameBaseReflexive(HZ);
    SameBaseReflexive(KHZ);
    SameBaseReflexive(MHZ);
    RescaleSameBase(val, HZ, HZ);
    RescaleSameBase(val, KHZ, KHZ);
    RescaleSameBase(val, MHZ, MHZ);
  }

  /**
   * Of two nonzero rates of one type, the faster one never has the longer
   * period.
   */
  lemma FasterRateShorterPeriod(slow: Rate, fast: Rate, to: Scale)
    requires slow.Valid() && fast.Valid() && to.Valid()
    requires slow.width == fast.width && slow.scale == fast.scale
    requires 0 < slow.raw <= fast.raw
    ensures IntoDuration(fast, to).ticks <= IntoDuration(slow, to).ticks
  {
    DivByLarger(Truncate(slow.width, RateToDurationNumerator(slow.scale, to)), slow.raw, fast.raw);
  }

  // ---------------------------------------------------------------------
  // Worked examples
  // ---------------------------------------------------------------------

  const HUNDREDTH := Scale(1, 100)
  const THOUSANDTH := Scale(1, 1_000)

  /** 1 + 2 is 3 and 1 + `u32::MAX` overflows; 2 - 1 is 1 and 1 - `u32::MAX` underflows. */
  lemma CheckedExamples()
    ensures Rates.CheckedAdd(FromRaw(U32, THOUSANDTH, 1), FromRaw(U32, THOUSANDTH, 2)) == Some(FromRaw(U32, THOUSANDTH, 3))
    ensures Rates.CheckedAdd(FromRaw(U32, THOUSANDTH, 1), FromRaw(U32, THOUSANDTH, U32_MAX)) == None
    ensures Rates.CheckedSub(FromRaw(U32, THOUSANDTH, 2), FromRaw(U32, THOUSANDTH, 1)) == Some(FromRaw(U32, THOUSANDTH, 1))
    ensures Rates.CheckedSub(FromRaw(U32, THOUSANDTH, 1), FromRaw(U32, THOUSANDTH, U32_MAX)) == None
  {
    SameBaseReflexive(THOUSANDTH);
    SameBaseFits(U32, THOUSANDTH, THOUSANDTH);
    RescaleSameBase(2, THOUSANDTH, THOUSANDTH);
    RescaleSameBase(1, THOUSANDTH, THOUSANDTH);
    RescaleSameBase(U32_MAX, THOUSANDTH, THOUSANDTH);
  }

  /**
   * One count of 1/100 Hz is ten of 1/1000 Hz, compares greater than one
   * of them and equal to ten; `u32::MAX - 10` counts of 1/100 Hz do not fit
   * at 1/200 Hz.
   */
  lemma ConvertExamples()
    ensures ConstTryInto(FromRaw(U32, HUNDREDTH, 1), THOUSANDTH) == Some(FromRaw(U32, THOUSANDTH, 10))
    ensures Convert(FromRaw(U64, HUNDREDTH, 1), THOUSANDTH) == FromRaw(U64, THOUSANDTH, 10)
    ensures ConstPartialCmp(FromRaw(U32, HUNDREDTH, 1), FromRaw(U32, THOUSANDTH, 1)) == Some(Greater)
    ensures ConstEq(FromRaw(U32, HUNDREDTH, 1), FromRaw(U32, THOUSANDTH, 10))
    ensures ConstTryInto(FromRaw(U32, HUNDREDTH, U32_MAX - 10), Scale(1, 200)) == None
  {
  }

  /** One hertz has a period of 1000 ms; zero hertz has none. */
  lemma PeriodExamples()
    ensures TryIntoDuration(FromRaw(U32, Scale(1, 1), 1), Scale(1, 1_000)) == Some(Durations.FromTicks(U32, Scale(1, 1_000), 1_000))
    ensures TryIntoDuration(FromRaw(U32, Scale(1, 1), 0), Scale(1, 1_000)) == None
    ensures IntoDuration(FromRaw(U32, KHZ, 4), Scale(1, 1_000_000)).ticks == 250
  {
  }

  /** The hertz constructors and accessors at 1/1000 Hz. */
  lemma HertzExamples()
    ensures Hz(U32, THOUSANDTH, 3).raw == 3_000
    ensures KHz(U32, THOUSANDTH, 3).raw == 3_000_000
    ensures MHz(U64, THOUSANDTH, 3).raw == 3_000_000_000
    ensures ToHz(FromRaw(U32, THOUSANDTH, 3_999)) == 3
    ensures ToKHz(FromRaw(U32, THOUSANDTH, 3_999_999)) == 3
    ensures ToMHz(FromRaw(U64, THOUSANDTH, 3_000_000_000)) == 3
  {
  }

  /**
   * `Rate::const_try_into` multiplies in 64 bits where
   * `Duration::checked_into` multiplies in the value's own width: moving
   * 2^31 counts from scale 1/2 to scale 1/3 in `u32` fails for a duration
   * (2^31 * 3 overflows) and succeeds for a rate (3 * 2^30 fits).
   */
  lemma ConversionWidthExample()
    ensures Durations.CheckedInto(Durations.FromTicks(U32, Scale(1, 2), 0x8000_0000), Scale(1, 3)) == None
    ensures ConstTryInto(FromRaw(U32, Scale(1, 2), 0x8000_0000), Scale(1, 3)) == Some(FromRaw(U32, Scale(1, 3), 0xC000_0000))
  {
  }
}
