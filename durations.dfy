/**
 * `Duration<T, NOM, DENOM>` of src/duration.rs: a span of
 * `ticks * NOM / DENOM` seconds held in a `u32` or a `u64`.
 *
 * The const generics become the run-time fields `width` and `scale`; where
 * Rust's type checker demands that two operands share `T` (or the whole
 * type), the model has a `requires`. Cross-scale results are characterised
 * against `Rescale` whenever the reduced factors fit the width.
 */
module Durations {
  import opened Primitives
  import opened Helpers
  import opened CrossBase

  datatype Duration = Duration(width: Width, scale: Scale, ticks: nat) {
    /** The scale passed `greater_than_0` and the ticks fit in `T`. */
    predicate Valid() {
      scale.Valid() && ticks <= Max(width)
    }
  }

  /** `from_ticks`; `ticks()` is the field `ticks`. */
  function FromTicks(w: Width, s: Scale, t: nat): (d: Duration)
    requires s.Valid() && t <= Max(w)
    ensures d.Valid() && d.width == w && d.scale == s && d.ticks == t
    ensures GreaterThan0(d.scale.nom) && GreaterThan0(d.scale.denom)
  {
    Duration(w, s, t)
  }

  /** The `as T` cast of `RD_TIMES_LN` for `Helpers<a, b>` is not zero, so dividing by it cannot panic. */
  predicate RdCastNonZero(w: Width, a: Scale, b: Scale)
    requires a.Valid() && b.Valid()
  {
    Truncate(w, RdTimesLn(a, b)) > 0
  }

  /** The `as T` cast of `LD_TIMES_RN` for `Helpers<a, b>` is not zero. */
  predicate LdCastNonZero(w: Width, a: Scale, b: Scale)
    requires a.Valid() && b.Valid()
  {
    Truncate(w, LdTimesRn(a, b)) > 0
  }

  // ---------------------------------------------------------------------
  // Checked arithmetic and conversion
  // ---------------------------------------------------------------------

  /**
   * `checked_add`: `b` rescaled into `a`'s scale and added; `None` when the
   * rescaling multiply or the sum overflows.
   */
  function CheckedAdd(a: Duration, b: Duration): (r: Option<Duration>)
    requires a.Valid() && b.Valid() && a.width == b.width
    requires OtherInBaseDefined(a.width, a.scale, b.ticks, b.scale)
    ensures r.Some? ==> r.value.Valid() && r.value.width == a.width && r.value.scale == a.scale
    ensures FactorsFit(a.width, a.scale, b.scale) ==>
      (r.Some? <==> b.ticks * LdTimesRn(a.scale, b.scale) <= Max(a.width)
                    && a.ticks + Rescale(b.ticks, b.scale, a.scale) <= Max(a.width))
    ensures FactorsFit(a.width, a.scale, b.scale) && r.Some? ==>
      r.value.ticks == a.ticks + Rescale(b.ticks, b.scale, a.scale)
  {
    match AddInBase(a.width, a.ticks, a.scale, b.ticks, b.scale)
    case None => None
    case Some(t) => Some(FromTicks(a.width, a.scale, t))
  }

  /**
   * `checked_sub`: `b` rescaled into `a`'s scale and subtracted; `None`
   * when the rescaling multiply overflows or the difference is negative.
   */
  function CheckedSub(a: Duration, b: Duration): (r: Option<Duration>)
    requires a.Valid() && b.Valid() && a.width == b.width
    requires OtherInBaseDefined(a.width, a.scale, b.ticks, b.scale)
    ensures r.Some? ==> r.value.Valid() && r.value.width == a.width && r.value.scale == a.scale
    ensures r.Some? ==> r.value.ticks <= a.ticks
    ensures FactorsFit(a.width, a.scale, b.scale) ==>
      (r.Some? <==> b.ticks * LdTimesRn(a.scale, b.scale) <= Max(a.width)
                    && Rescale(b.ticks, b.scale, a.scale) <= a.ticks)
    ensures FactorsFit(a.width, a.scale, b.scale) && r.Some? ==>
      r.value.ticks == a.ticks - Rescale(b.ticks, b.scale, a.scale)
  {
    match SubInBase(a.width, a.ticks, a.scale, b.ticks, b.scale)
    case None => None
    case Some(t) => Some(FromTicks(a.width, a.scale, t))
  }

  /**
   * `checked_into`: the same span in scale `to`, rounded down. The multiply
   * by `RD_TIMES_LN` is checked in the duration's own width.
   */
  function CheckedInto(d: Duration, to: Scale): (r: Option<Duration>)
    requires d.Valid() && to.Valid()
    requires IntoInOwnWidthDefined(d.width, d.ticks, d.scale, to)
    ensures r.Some? ==> r.value.Valid() && r.value.width == d.width && r.value.scale == to
    ensures FactorsFit(d.width, d.scale, to) ==>
      (r.Some? <==> d.ticks * RdTimesLn(d.scale, to) <= Max(d.width))
    ensures FactorsFit(d.width, d.scale, to) && r.Some? ==>
      r.value.ticks == Rescale(d.ticks, d.scale, to)
  {
    IntoInOwnWidthExact(d.width, d.ticks, d.scale, to);
    match IntoInOwnWidth(d.width, d.ticks, d.scale, to)
    case None => None
    case Some(t) => Some(FromTicks(d.width, to, t))
  }

  /** `convert`: `checked_into`, panicking (here: required away) on `None`. */
  function Convert(d: Duration, to: Scale): (r: Duration)
    requires d.Valid() && to.Valid()
    requires IntoInOwnWidthDefined(d.width, d.ticks, d.scale, to)
    requires CheckedInto(d, to).Some?
    ensures r.Valid() && r.width == d.width && r.scale == to
    ensures FactorsFit(d.width, d.scale, to) ==>
      d.ticks * RdTimesLn(d.scale, to) <= Max(d.width) && r.ticks == Rescale(d.ticks, d.scale, to)
  {
    CheckedInto(d, to).value
  }

  // ---------------------------------------------------------------------
  // Comparison
  // ---------------------------------------------------------------------

  /**
   * `partial_cmp` across scales: `None` when a scaled product overflows,
   * otherwise the exact order of `a.ticks * a.nom / a.denom` against
   * `b.ticks * b.nom / b.denom`.
   */
  function PartialCmp(a: Duration, b: Duration): (c: Option<Ordering>)
    requires a.Valid() && b.Valid() && a.width == b.width
    ensures FactorsFit(a.width, a.scale, b.scale) ==>
      (c.None? <==> a.ticks * RdTimesLn(a.scale, b.scale) > Max(a.width)
                    || b.ticks * LdTimesRn(a.scale, b.scale) > Max(a.width))
    ensures FactorsFit(a.width, a.scale, b.scale) && c.Some? ==>
      c.value == Cmp(a.ticks * (a.scale.nom * b.scale.denom), b.ticks * (b.scale.nom * a.scale.denom))
  {
    CmpInBase(a.width, a.ticks, a.scale, b.ticks, b.scale)
  }

  /** `Ord::cmp` between durations of one type: the order of the ticks. */
  function OrdCmp(a: Duration, b: Duration): (c: Ordering)
    requires a.Valid() && b.Valid() && a.width == b.width && a.scale == b.scale
    ensures c == Less <==> a.ticks < b.ticks
    ensures c == Greater <==> a.ticks > b.ticks
    ensures PartialCmp(a, b) == Some(c)
  {
    SameBaseReflexive(a.scale);
    Cmp(a.ticks, b.ticks)
  }

  /**
   * `eq` across scales: `false` when a scaled product overflows, otherwise
   * exact equality of the two spans.
   */
  function Eq(a: Duration, b: Duration): (e: bool)
    requires a.Valid() && b.Valid() && a.width == b.width
    ensures e <==> PartialCmp(a, b) == Some(Equal)
    ensures a.scale == b.scale ==> (e <==> a.ticks == b.ticks)
  {
    SameBaseReflexive(a.scale);
    EqInBase(a.width, a.ticks, a.scale, b.ticks, b.scale)
  }

  // ---------------------------------------------------------------------
  // Operators
  // ---------------------------------------------------------------------

  /** `Duration + Duration`: `checked_add`, panicking on `None`. */
  function Add(a: Duration, b: Duration): (r: Duration)
    requires a.Valid() && b.Valid() && a.width == b.width
    requires OtherInBaseDefined(a.width, a.scale, b.ticks, b.scale)
    requires CheckedAdd(a, b).Some?
    ensures r.Valid() && r.width == a.width && r.scale == a.scale
    ensures FactorsFit(a.width, a.scale, b.scale) ==>
      r.ticks == a.ticks + Rescale(b.ticks, b.scale, a.scale)
  {
    CheckedAdd(a, b).value
  }

  /** `Duration - Duration`: `checked_sub`, panicking on `None`. */
  function Sub(a: Duration, b: Duration): (r: Duration)
    requires a.Valid() && b.Valid() && a.width == b.width
    requires OtherInBaseDefined(a.width, a.scale, b.ticks, b.scale)
    requires CheckedSub(a, b).Some?
    ensures r.Valid() && r.width == a.width && r.scale == a.scale
    ensures FactorsFit(a.width, a.scale, b.scale) ==>
      r.ticks + Rescale(b.ticks, b.scale, a.scale) == a.ticks
  {
    CheckedSub(a, b).value
  }

  /**
   * `Duration * u32` (and `u32 * Duration`): the unchecked `*=` on the
   * ticks, required not to overflow.
   */
  function Mul(d: Duration, k: nat): (r: Duration)
    requires d.Valid() && k <= U32_MAX && d.ticks * k <= Max(d.width)
    ensures r.Valid() && r.width == d.width && r.scale == d.scale
    ensures k > 0 ==> r.ticks >= d.ticks && r.ticks % k == 0 && r.ticks / k == d.ticks
    ensures k == 0 ==> r.ticks == 0
  {
    Arith.MulMonotone(1, k, d.ticks);
    var r := Duration(d.width, d.scale, d.ticks * k);
    if k > 0 then Arith.MultipleMod(d.ticks, k); r else r
  }

  /** `Duration / u32`: the `/=` on the ticks, rounding down; the divisor must not be 0. */
  function Div(d: Duration, k: nat): (r: Duration)
    requires d.Valid() && 0 < k <= U32_MAX
    ensures r.Valid() && r.width == d.width && r.scale == d.scale
    ensures r.ticks * k <= d.ticks < (r.ticks + 1) * k
  {
    Arith.DivAtMost(d.ticks, k);
    Duration(d.width, d.scale, d.ticks / k)
  }

  // ---------------------------------------------------------------------
  // Unit shorthands
  // ---------------------------------------------------------------------

  /** The reference scales of the shorthands, in seconds. */
  const MICROS := Scale(1, 1_000_000)
  const MILLIS := Scale(1, 1_000)
  const SECS := Scale(1, 1)
  const MINUTES := Scale(60, 1)
  const HOURS := Scale(3_600, 1)

  /** What every shorthand needs of `val` against its reference scale `unit`. */
  predicate ShorthandFits(w: Width, unit: Scale, s: Scale, val: nat)
    requires unit.Valid() && s.Valid()
  {
    val <= Max(w)
    && Truncate(w, RdTimesLn(unit, s)) * val <= Max(w)
    && LdCastNonZero(w, unit, s)
  }

  /**
   * The shared body of `micros` ... `hours`: `val` units of `unit` as a
   * duration of scale `s`, `(RD_TIMES_LN as T * val) / LD_TIMES_RN as T`
   * with `Helpers<unit, s>`; the multiply is unchecked and required not to
   * overflow.
   */
  function Shorthand(w: Width, unit: Scale, s: Scale, val: nat): (d: Duration)
    requires unit.Valid() && s.Valid() && ShorthandFits(w, unit, s, val)
    ensures d.Valid() && d.width == w && d.scale == s
    ensures FactorsFit(w, unit, s) ==> d.ticks == Rescale(val, unit, s)
  {
    FromTicks(w, s, FromUnit(w, unit, s, val))
  }

  function Micros(w: Width, s: Scale, val: nat): (d: Duration)
    requires s.Valid() && ShorthandFits(w, MICROS, s, val)
    ensures d.Valid() && d.width == w && d.scale == s
    ensures FactorsFit(w, MICROS, s) ==> d.ticks == (val * s.denom) / (1_000_000 * s.nom)
  {
    Shorthand(w, MICROS, s, val)
  }

  function Millis(w: Width, s: Scale, val: nat): (d: Duration)
    requires s.Valid() && ShorthandFits(w, MILLIS, s, val)
    ensures d.Valid() && d.width == w && d.scale == s
    ensures FactorsFit(w, MILLIS, s) ==> d.ticks == (val * s.denom) / (1_000 * s.nom)
  {
    Shorthand(w, MILLIS, s, val)
  }

  function Secs(w: Width, s: Scale, val: nat): (d: Duration)
    requires s.Valid() && ShorthandFits(w, SECS, s, val)
    ensures d.Valid() && d.width == w && d.scale == s
    ensures FactorsFit(w, SECS, s) ==> d.ticks == (val * s.denom) / s.nom
  {
    Shorthand(w, SECS, s, val)
  }

  function Minutes(w: Width, s: Scale, val: nat): (d: Duration)
    requires s.Valid() && ShorthandFits(w, MINUTES, s, val)
    ensures d.Valid() && d.width == w && d.scale == s
    ensures FactorsFit(w, MINUTES, s) ==> d.ticks == (val * (60 * s.denom)) / s.nom
  {
    Shorthand(w, MINUTES, s, val)
  }

  function Hours(w: Width, s: Scale, val: nat): (d: Duration)
    requires s.Valid() && ShorthandFits(w, HOURS, s, val)
    ensures d.Valid() && d.width == w && d.scale == s
    ensures FactorsFit(w, HOURS, s) ==> d.ticks == (val * (3_600 * s.denom)) / s.nom
  {
    Shorthand(w, HOURS, s, val)
  }

  // ---------------------------------------------------------------------
  // The u32 <-> u64 bridge
  // ---------------------------------------------------------------------

  /** `From<Duration<u32, ..>> for Duration<u64, ..>`: `ticks as u64`. */
  function Widen(d: Duration): (r: Duration)
    requires d.Valid() && d.width == U32
    ensures r.Valid() && r.width == U64 && r.scale == d.scale && r.ticks == d.ticks
  {
    FromTicks(U64, d.scale, d.ticks)
  }

  /** `TryFrom<Duration<u64, ..>> for Duration<u32, ..>`: fails exactly when the ticks exceed `u32::MAX`. */
  function TryNarrow(d: Duration): (r: Option<Duration>)
    requires d.Valid() && d.width == U64
    ensures r.Some? <==> d.ticks <= U32_MAX
    ensures r.Some? ==> r.value.Valid() && r.value.width == U32 && Widen(r.value) == d
  {
    if d.ticks <= U32_MAX then Some(FromTicks(U32, d.scale, d.ticks)) else None
  }

  /** `Duration<u64> + Duration<u32>` of one scale: the `u32` operand widened first. */
  function AddWide(a: Duration, b: Duration): (r: Duration)
    requires a.Valid() && b.Valid() && a.width == U64 && b.width == U32 && a.scale == b.scale
    requires a.ticks + b.ticks <= U64_MAX
    ensures r.Valid() && r.width == U64 && r.scale == a.scale
    ensures r.ticks == a.ticks + b.ticks
  {
    SameBaseReflexive(a.scale);
    RescaleSameBase(b.ticks, a.scale, a.scale);
    Add(a, Widen(b))
  }

  /** `Duration<u64> - Duration<u32>` of one scale: the `u32` operand widened first. */
  function SubWide(a: Duration, b: Duration): (r: Duration)
    requires a.Valid() && b.Valid() && a.width == U64 && b.width == U32 && a.scale == b.scale
    requires b.ticks <= a.ticks
    ensures r.Valid() && r.width == U64 && r.scale == a.scale
    ensures r.ticks == a.ticks - b.ticks
  {
    SameBaseReflexive(a.scale);
    RescaleSameBase(b.ticks, a.scale, a.scale);
    Sub(a, Widen(b))
  }

  /** `PartialOrd<Duration<u32, ..>> for Duration<u64, ..>`: exact in 64 bits. */
  function PartialCmpWide(a: Duration, b: Duration): (c: Option<Ordering>)
    requires a.Valid() && b.Valid() && a.width == U64 && b.width == U32
    ensures c.None? <==> a.ticks * RdTimesLn(a.scale, b.scale) > U64_MAX
                         || b.ticks * LdTimesRn(a.scale, b.scale) > U64_MAX
    ensures c.Some? ==>
      c.value == Cmp(a.ticks * (a.scale.nom * b.scale.denom), b.ticks * (b.scale.nom * a.scale.denom))
  {
    FactorsFitU64(a.scale, b.scale);
    PartialCmp(a, Widen(b))
  }

  /** `PartialOrd<Duration<u64, ..>> for Duration<u32, ..>`: exact in 64 bits. */
  function PartialCmpNarrow(a: Duration, b: Duration): (c: Option<Ordering>)
    requires a.Valid() && b.Valid() && a.width == U32 && b.width == U64
    ensures c.None? <==> a.ticks * RdTimesLn(a.scale, b.scale) > U64_MAX
                         || b.ticks * LdTimesRn(a.scale, b.scale) > U64_MAX
    ensures c.Some? ==>
      c.value == Cmp(a.ticks * (a.scale.nom * b.scale.denom), b.ticks * (b.scale.nom * a.scale.denom))
  {
    FactorsFitU64(a.scale, b.scale);
    PartialCmp(Widen(a), b)
  }

  /** `PartialEq<Duration<u32, ..>> for Duration<u64, ..>`. */
  function EqWide(a: Duration, b: Duration): (e: bool)
    requires a.Valid() && b.Valid() && a.width == U64 && b.width == U32
    ensures e <==> PartialCmpWide(a, b) == Some(Equal)
  {
    FactorsFitU64(a.scale, b.scale);
    Eq(a, Widen(b))
  }

  /** `PartialEq<Duration<u64, ..>> for Duration<u32, ..>`. */
  function EqNarrow(a: Duration, b: Duration): (e: bool)
    requires a.Valid() && b.Valid() && a.width == U32 && b.width == U64
    ensures e <==> PartialCmpNarrow(a, b) == Some(Equal)
  {
    FactorsFitU64(a.scale, b.scale);
    Eq(Widen(a), b)
  }
}

/** Laws of the Duration operations and the worked examples of the library. */
module DurationLaws {
  import opened Primitives
  import opened Arith
  import opened Helpers
  import opened CrossBase
  import opened Durations

  /** On `SAME_BASE`, `checked_add` is plain checked addition of the ticks. */
  lemma CheckedAddSameBase(a: Duration, b: Duration)
    requires a.Valid() && b.Valid() && a.width == b.width && SameBase(a.scale, b.scale)
    ensures OtherInBaseDefined(a.width, a.scale, b.ticks, b.scale)
    ensures Durations.CheckedAdd(a, b).Some? <==> a.ticks + b.ticks <= Max(a.width)
    ensures Durations.CheckedAdd(a, b).Some? ==> Durations.CheckedAdd(a, b).value.ticks == a.ticks + b.ticks
  {
    SameBaseFits(a.width, a.scale, b.scale);
    SameBaseFactors(a.scale, b.scale);
    RescaleSameBase(b.ticks, a.scale, b.scale);
  }

  /** On `SAME_BASE`, `checked_sub` is plain checked subtraction: `None` exactly on underflow. */
  lemma CheckedSubSameBase(a: Duration, b: Duration)
    requires a.Valid() && b.Valid() && a.width == b.width && SameBase(a.scale, b.scale)
    ensures OtherInBaseDefined(a.width, a.scale, b.ticks, b.scale)
    ensures Durations.CheckedSub(a, b).Some? <==> b.ticks <= a.ticks
    ensures Durations.CheckedSub(a, b).Some? ==> Durations.CheckedSub(a, b).value.ticks == a.ticks - b.ticks
  {
    SameBaseFits(a.width, a.scale, b.scale);
    SameBaseFactors(a.scale, b.scale);
    RescaleSameBase(b.ticks, a.scale, b.scale);
  }

  /** Subtracting what was just added gives the original duration back. */
  lemma SubUndoesAdd(a: Duration, b: Duration, s: Duration)
    requires a.Valid() && b.Valid() && a.width == b.width
    requires OtherInBaseDefined(a.width, a.scale, b.ticks, b.scale)
    requires Durations.CheckedAdd(a, b) == Some(s)
    ensures Durations.CheckedSub(s, b) == Some(a)
  {
  }

  /** Adding back what was just subtracted gives the original duration back. */
  lemma AddUndoesSub(a: Duration, b: Duration, s: Duration)
    requires a.Valid() && b.Valid() && a.width == b.width
    requires OtherInBaseDefined(a.width, a.scale, b.ticks, b.scale)
    requires Durations.CheckedSub(a, b) == Some(s)
    ensures Durations.CheckedAdd(s, b) == Some(a)
  {
  }

  /** On `SAME_BASE`, `checked_into` only relabels the scale. */
  lemma CheckedIntoSameBase(d: Duration, to: Scale)
    requires d.Valid() && to.Valid() && SameBase(d.scale, to)
    ensures IntoInOwnWidthDefined(d.width, d.ticks, d.scale, to)
    ensures CheckedInto(d, to) == Some(Duration(d.width, to, d.ticks))
  {
    SameBaseFits(d.width, d.scale, to);
    SameBaseFactors(d.scale, to);
    RescaleSameBase(d.ticks, to, d.scale);
  }

  /**
   * With fitting factors both ways, converting to another scale and back
   * never gains ticks, and loses none when the first conversion did not
   * round. Without them the way back can divide by zero
   * (`ConvertBackZeroCastExample`).
   */
  lemma ConvertRoundTrip(d: Duration, to: Scale)
    requires d.Valid() && to.Valid()
    requires FactorsFit(d.width, d.scale, to) && FactorsFit(d.width, to, d.scale)
    requires CheckedInto(d, to).Some?
    ensures CheckedInto(CheckedInto(d, to).value, d.scale).Some?
    ensures CheckedInto(CheckedInto(d, to).value, d.scale).value.ticks <= d.ticks
    ensures (d.ticks * (d.scale.nom * to.denom)) % (d.scale.denom * to.nom) == 0 ==>
      CheckedInto(CheckedInto(d, to).value, d.scale).value == d
  {
    var x, rd, ld := d.ticks, RdTimesLn(d.scale, to), LdTimesRn(d.scale, to);
    var e := CheckedInto(d, to).value;
    SwapScales(d.scale, to);
    RescaleViaFactors(x, d.scale, to);
    DivMulLe(x * rd, ld);
    assert e.ticks * RdTimesLn(to, d.scale) <= Max(d.width) by {
      assert e.ticks * ld <= x * rd;
    }
    RescaleRoundTrip(x, d.scale, to);
  }

  /** Comparing the other way round reverses the answer (and keeps a `None`). */
  lemma PartialCmpSwap(a: Duration, b: Duration)
    requires a.Valid() && b.Valid() && a.width == b.width
    ensures FactorsFit(a.width, a.scale, b.scale) ==> FactorsFit(a.width, b.scale, a.scale)
    ensures PartialCmp(b, a).None? <==> PartialCmp(a, b).None?
    ensures PartialCmp(a, b).Some? ==> PartialCmp(b, a).value == PartialCmp(a, b).value.Reverse()
    ensures Eq(a, b) == Eq(b, a)
  {
    SwapScales(a.scale, b.scale);
  }

  /** Dividing by the factor just multiplied in gives the duration back. */
  lemma DivUndoesMul(d: Duration, k: nat)
    requires d.Valid() && 0 < k <= U32_MAX && d.ticks * k <= Max(d.width)
    ensures Div(Mul(d, k), k) == d
  {
    MultipleMod(d.ticks, k);
  }

  /** Widening to `u64` and narrowing back is lossless. */
  lemma NarrowUndoesWiden(d: Duration)
    requires d.Valid() && d.width == U32
    ensures TryNarrow(Widen(d)) == Some(d)
  {
  }

  // ---------------------------------------------------------------------
  // Worked examples
  // ---------------------------------------------------------------------

  const MS := Scale(1, 1_000)
  const TENTH_MS := Scale(1, 10_000)

  /** 1 + 2 is 3 and 1 + `u32::MAX` overflows; 2 - 1 is 1 and 1 - `u32::MAX` underflows. */
  lemma CheckedExamples()
    ensures Durations.CheckedAdd(FromTicks(U32, MS, 1), FromTicks(U32, MS, 2)) == Some(FromTicks(U32, MS, 3))
    ensures Durations.CheckedAdd(FromTicks(U32, MS, 1), FromTicks(U32, MS, U32_MAX)) == None
    ensures Durations.CheckedSub(FromTicks(U32, MS, 2), FromTicks(U32, MS, 1)) == Some(FromTicks(U32, MS, 1))
    ensures Durations.CheckedSub(FromTicks(U32, MS, 1), FromTicks(U32, MS, U32_MAX)) == None
  {
    SameBaseReflexive(MS);
    CheckedAddSameBase(FromTicks(U32, MS, 1), FromTicks(U32, MS, 2));
    CheckedAddSameBase(FromTicks(U32, MS, 1), FromTicks(U32, MS, U32_MAX));
    CheckedSubSameBase(FromTicks(U32, MS, 2), FromTicks(U32, MS, 1));
    CheckedSubSameBase(FromTicks(U32, MS, 1), FromTicks(U32, MS, U32_MAX));
  }

  /** One tick of 1/100 s converts to ten ticks of 1/1000 s. */
  lemma ConvertExample()
    ensures Convert(FromTicks(U32, Scale(1, 100), 1), MS) == FromTicks(U32, MS, 10)
  {
  }

  /** Across scales: 10 ticks of 1/10000 s equal 1 tick of 1/1000 s, 11 are more, 9 differ from 2 ms. */
  lemma CompareExamples()
    ensures PartialCmp(FromTicks(U32, TENTH_MS, 10), FromTicks(U32, MS, 1)) == Some(Equal)
    ensures Eq(FromTicks(U32, TENTH_MS, 10), FromTicks(U32, MS, 1))
    ensures PartialCmp(FromTicks(U32, TENTH_MS, 11), FromTicks(U32, MS, 1)) == Some(Greater)
    ensures PartialCmp(FromTicks(U32, TENTH_MS, 11), FromTicks(U32, MS, 2)) == Some(Less)
    ensures !Eq(FromTicks(U32, TENTH_MS, 9), FromTicks(U32, MS, 2))
  {
  }

  /** 10 ticks of 1/10000 s plus 1 ms is 20 ticks (that is, 2 ms); minus 1 ms it is 0. */
  lemma CrossBaseArithmeticExamples()
    ensures Add(FromTicks(U32, TENTH_MS, 10), FromTicks(U32, MS, 1)) == FromTicks(U32, TENTH_MS, 20)
    ensures Eq(FromTicks(U32, TENTH_MS, 20), FromTicks(U32, MS, 2))
    ensures Sub(FromTicks(U32, TENTH_MS, 10), FromTicks(U32, MS, 1)) == FromTicks(U32, TENTH_MS, 0)
    ensures Add(FromTicks(U64, TENTH_MS, 10), Millis(U64, TENTH_MS, 1)) == FromTicks(U64, TENTH_MS, 20)
  {
  }

  /** `micros` at 1/10000 s: 100000 µs are 1000 ticks. */
  lemma MicrosExample()
    ensures Micros(U32, TENTH_MS, 100_000).ticks == 1_000
  {
  }

  /** `millis` at 1/10000 s: 1 ms is 10 ticks. */
  lemma MillisExample()
    ensures Millis(U32, TENTH_MS, 1).ticks == 10
  {
  }

  /** `secs` at 1/10000 s: 1 s is 10000 ticks. */
  lemma SecsExample()
    ensures Secs(U32, TENTH_MS, 1).ticks == 10_000
  {
  }

  /** `minutes` at 1/10000 s: 1 min is 600000 ticks. */
  lemma MinutesExample()
    ensures Minutes(U32, TENTH_MS, 1).ticks == 600_000
  {
  }

  /** `hours` at 1/10000 s: 1 h is 36000000 ticks. */
  lemma HoursExample()
    ensures Hours(U32, TENTH_MS, 1).ticks == 36_000_000
  {
  }

  // ---------------------------------------------------------------------
  // The truncating casts of the 32-bit instantiation
  // ---------------------------------------------------------------------

  /**
   * With `u32` ticks, 65536 s units against 1/65536 s units give
   * `RD_TIMES_LN` = 2^32, whose `as u32` cast is 0: `checked_add` would
   * divide by zero.
   */
  lemma ZeroCastExample()
    ensures Scale(65_536, 1).Valid() && Scale(1, 65_536).Valid()
    ensures RdTimesLn(Scale(65_536, 1), Scale(1, 65_536)) == 0x1_0000_0000
    ensures !RdCastNonZero(U32, Scale(65_536, 1), Scale(1, 65_536))
    ensures !OtherInBaseDefined(U32, Scale(65_536, 1), 0, Scale(1, 65_536))
  {
  }

  /**
   * With `u32` ticks, 65536/3 s units against 1/65536 s units give
   * `RD_TIMES_LN` = 2^32, cast to 0, and `LD_TIMES_RN` = 3. Adding 2^31
   * ticks overflows the multiply, so `checked_add` returns `None` before it
   * would divide; adding one tick would divide by zero.
   */
  lemma OverflowBeforeZeroCastExample()
    ensures Scale(65_536, 3).Valid() && Scale(1, 65_536).Valid()
    ensures RdTimesLn(Scale(65_536, 3), Scale(1, 65_536)) == 0x1_0000_0000
    ensures LdTimesRn(Scale(65_536, 3), Scale(1, 65_536)) == 3
    ensures OtherInBaseDefined(U32, Scale(65_536, 3), 0x8000_0000, Scale(1, 65_536))
    ensures Durations.CheckedAdd(FromTicks(U32, Scale(65_536, 3), 0), FromTicks(U32, Scale(1, 65_536), 0x8000_0000)) == None
    ensures !OtherInBaseDefined(U32, Scale(65_536, 3), 1, Scale(1, 65_536))
  {
  }

  /**
   * Without fitting factors a conversion need not convert back. With `u32`
   * ticks, 131072 s units into 1/65536 s units give `RD_TIMES_LN` = 2^33,
   * cast to 0, so 5 ticks convert to `Some` of 0 ticks; converting those 0
   * ticks back multiplies fine and then divides by `LD_TIMES_RN as u32` = 0.
   */
  lemma ConvertBackZeroCastExample()
    ensures Scale(131_072, 1).Valid() && Scale(1, 65_536).Valid()
    ensures !FactorsFit(U32, Scale(131_072, 1), Scale(1, 65_536))
    ensures IntoInOwnWidthDefined(U32, 5, Scale(131_072, 1), Scale(1, 65_536))
    ensures CheckedInto(FromTicks(U32, Scale(131_072, 1), 5), Scale(1, 65_536))
         == Some(FromTicks(U32, Scale(1, 65_536), 0))
    ensures !IntoInOwnWidthDefined(U32, 0, Scale(1, 65_536), Scale(131_072, 1))
  {
  }

  /**
   * With `u32` ticks, 1/6700417 s units against 641 s units give
   * `LD_TIMES_RN` = 641 * 6700417 = 2^32 + 1, cast to 1: adding one tick of
   * 641 s to nothing yields one tick, where the exact sum (2^32 + 1 ticks)
   * does not fit and `None` was due.
   */
  lemma WrongCastExample()
    ensures Scale(1, 6_700_417).Valid() && Scale(641, 1).Valid()
    ensures LdTimesRn(Scale(1, 6_700_417), Scale(641, 1)) == 0x1_0000_0001
    ensures !FactorsFit(U32, Scale(1, 6_700_417), Scale(641, 1))
    ensures Rescale(1, Scale(641, 1), Scale(1, 6_700_417)) > U32_MAX
    ensures Durations.CheckedAdd(FromTicks(U32, Scale(1, 6_700_417), 0), FromTicks(U32, Scale(641, 1), 1))
         == Some(FromTicks(U32, Scale(1, 6_700_417), 1))
  {
  }
}
