/**
 * The cross-base arithmetic that `Duration`, `Instant` and `Rate` each
 * repeat on their raw counts: `x` counts of scale `l` (the receiver) meet
 * `y` counts of scale `r` (the other operand). On `SAME_BASE` the counts are
 * used as they are; otherwise one side is multiplied by a reduced factor,
 * cast to the width with `as T`, with the multiply checked for overflow.
 *
 * Every contract is stated against the exact rational meaning (`Rescale`,
 * the cross products of the scales) whenever the reduced factors fit the
 * width; with 64-bit values they always do.
 */
module CrossBase {
  import opened Primitives
  import opened Arith
  import opened Helpers

  /**
   * Dividing by `RD_TIMES_LN as T` cannot panic: either the cast factor is
   * not zero, or `y * LD_TIMES_RN as T` overflows first and the operation
   * returns `None` before it divides. (On `SAME_BASE` both factors are 1.)
   */
  predicate OtherInBaseDefined(w: Width, l: Scale, y: nat, r: Scale)
    requires l.Valid() && r.Valid()
  {
    CheckedMul(w, y, Truncate(w, LdTimesRn(l, r))).Some? ==> Truncate(w, RdTimesLn(l, r)) > 0
  }

  /**
   * Dividing by `LD_TIMES_RN as T` in `checked_into` cannot panic: either the
   * cast factor is not zero, or `x * RD_TIMES_LN as T` overflows first.
   */
  predicate IntoInOwnWidthDefined(w: Width, x: nat, l: Scale, r: Scale)
    requires l.Valid() && r.Valid()
  {
    CheckedMul(w, x, Truncate(w, RdTimesLn(l, r))).Some? ==> Truncate(w, LdTimesRn(l, r)) > 0
  }

  /**
   * The other operand `y` (of scale `r`) in the receiver's scale `l`: on
   * `SAME_BASE` as it is, otherwise `y.checked_mul(LD_TIMES_RN as T)` divided
   * by `RD_TIMES_LN as T`. This is the first half of `checked_add`,
   * `checked_sub`, `checked_add_duration` and `checked_sub_duration`.
   */
  function OtherInBase(w: Width, l: Scale, y: nat, r: Scale): (v: Option<nat>)
    requires l.Valid() && r.Valid() && y <= Max(w)
    requires OtherInBaseDefined(w, l, y, r)
    ensures v.Some? ==> v.value <= Max(w)
  {
    if SameBase(l, r) then
      Some(y)
    else
      match CheckedMul(w, y, Truncate(w, LdTimesRn(l, r)))
      case None => None
      case Some(lh) =>
        Some(FloorDiv(lh, Truncate(w, RdTimesLn(l, r))))
  }

  /**
   * When the reduced factors fit the width, rescaling the other operand
   * fails exactly when `y * LD_TIMES_RN` overflows, and otherwise yields `y`
   * moved from `r` into `l`, rounded down.
   */
  lemma OtherInBaseExact(w: Width, l: Scale, y: nat, r: Scale)
    requires l.Valid() && r.Valid() && y <= Max(w)
    ensures FactorsFit(w, l, r) ==> var v := OtherInBase(w, l, y, r);
      (v.Some? <==> y * LdTimesRn(l, r) <= Max(w)) &&
      (v.Some? ==> v.value == Rescale(y, r, l))
  {
    if FactorsFit(w, l, r) {
      if SameBase(l, r) {
        RescaleSameBase(y, l, r);
        SameBaseFactors(l, r);
      } else {
        RescaleViaFactors(y, l, r);
      }
    }
  }

  /** `x + (y rescaled from r into l)`, checked (`checked_add` on Duration and Rate). */
  function AddInBase(w: Width, x: nat, l: Scale, y: nat, r: Scale): (s: Option<nat>)
    requires l.Valid() && r.Valid() && x <= Max(w) && y <= Max(w)
    requires OtherInBaseDefined(w, l, y, r)
    ensures s.Some? ==> s.value <= Max(w)
    ensures FactorsFit(w, l, r) ==>
      (s.Some? <==> y * LdTimesRn(l, r) <= Max(w) && x + Rescale(y, r, l) <= Max(w))
    ensures FactorsFit(w, l, r) && s.Some? ==> s.value == x + Rescale(y, r, l)
  {
    OtherInBaseExact(w, l, y, r);
    match OtherInBase(w, l, y, r)
    case None => None
    case Some(v) => CheckedAdd(w, x, v)
  }

  /** `x - (y rescaled from r into l)`, checked (`checked_sub` on Duration and Rate). */
  function SubInBase(w: Width, x: nat, l: Scale, y: nat, r: Scale): (s: Option<nat>)
    requires l.Valid() && r.Valid() && x <= Max(w) && y <= Max(w)
    requires OtherInBaseDefined(w, l, y, r)
    ensures s.Some? ==> s.value <= x
    ensures FactorsFit(w, l, r) ==>
      (s.Some? <==> y * LdTimesRn(l, r) <= Max(w) && Rescale(y, r, l) <= x)
    ensures FactorsFit(w, l, r) && s.Some? ==> s.value == x - Rescale(y, r, l)
  {
    OtherInBaseExact(w, l, y, r);
    match OtherInBase(w, l, y, r)
    case None => None
    case Some(v) => CheckedSub(w, x, v)
  }

  /**
   * The cross-base partial order (`partial_cmp`, `const_partial_cmp`): no
   * answer when a scaled product overflows, otherwise the exact order of
   * `x * Ln / Ld` against `y * Rn / Rd`.
   */
  function CmpInBase(w: Width, x: nat, l: Scale, y: nat, r: Scale): (c: Option<Ordering>)
    requires l.Valid() && r.Valid() && x <= Max(w) && y <= Max(w)
    ensures FactorsFit(w, l, r) ==>
      (c.None? <==> x * RdTimesLn(l, r) > Max(w) || y * LdTimesRn(l, r) > Max(w))
    ensures FactorsFit(w, l, r) && c.Some? ==>
      c.value == Cmp(x * (l.nom * r.denom), y * (r.nom * l.denom))
  {
    SameBaseFactors(l, r);
    CompareViaFactors(x, y, l, r);
    if SameBase(l, r) then
      Some(Cmp(x, y))
    else
      match CheckedMul(w, x, Truncate(w, RdTimesLn(l, r)))
      case None => None
      case Some(lh) =>
        match CheckedMul(w, y, Truncate(w, LdTimesRn(l, r)))
        case None => None
        case Some(rh) => Some(Cmp(lh, rh))
  }

  /**
   * The cross-base equality (`eq`, `const_eq`): false when a scaled product
   * overflows, otherwise exact equality of the two quantities.
   */
  function EqInBase(w: Width, x: nat, l: Scale, y: nat, r: Scale): (e: bool)
    requires l.Valid() && r.Valid() && x <= Max(w) && y <= Max(w)
    ensures FactorsFit(w, l, r) ==>
      (e <==> x * RdTimesLn(l, r) <= Max(w) && y * LdTimesRn(l, r) <= Max(w)
              && x * (l.nom * r.denom) == y * (r.nom * l.denom))
  {
    SameBaseFactors(l, r);
    CompareViaFactors(x, y, l, r);
    if SameBase(l, r) then
      x == y
    else
      var lh := CheckedMul(w, x, Truncate(w, RdTimesLn(l, r)));
      var rh := CheckedMul(w, y, Truncate(w, LdTimesRn(l, r)));
      if lh.Some? && rh.Some? then lh.value == rh.value else false
  }

  /**
   * `x` of scale `l` moved into scale `r`, the multiply checked in the
   * value's own width (`Duration::checked_into`).
   */
  function IntoInOwnWidth(w: Width, x: nat, l: Scale, r: Scale): (s: Option<nat>)
    requires l.Valid() && r.Valid() && x <= Max(w)
    requires IntoInOwnWidthDefined(w, x, l, r)
    ensures s.Some? ==> s.value <= Max(w)
  {
    if SameBase(l, r) then
      Some(x)
    else
      match CheckedMul(w, x, Truncate(w, RdTimesLn(l, r)))
      case None => None
      case Some(lh) =>
        Some(FloorDiv(lh, Truncate(w, LdTimesRn(l, r))))
  }

  /**
   * When the reduced factors fit the width, the conversion fails exactly
   * when `x * RD_TIMES_LN` overflows, and otherwise yields `x` rescaled
   * (rounded down) into `r`.
   */
  lemma IntoInOwnWidthExact(w: Width, x: nat, l: Scale, r: Scale)
    requires l.Valid() && r.Valid() && x <= Max(w)
    ensures FactorsFit(w, l, r) ==> var s := IntoInOwnWidth(w, x, l, r);
      (s.Some? <==> x * RdTimesLn(l, r) <= Max(w)) &&
      (s.Some? ==> s.value == Rescale(x, l, r))
  {
    if FactorsFit(w, l, r) {
      if SameBase(l, r) {
        RescaleSameBase(x, l, r);
        SameBaseFactors(l, r);
      } else {
        RescaleViaFactors(x, l, r);
      }
    }
  }

  /**
   * `x` of scale `l` moved into scale `r`, the multiply done in `u64` and
   * the quotient range-checked against the width (`Rate::const_try_into`).
   */
  function IntoViaU64(w: Width, x: nat, l: Scale, r: Scale): (s: Option<nat>)
    requires l.Valid() && r.Valid() && x <= Max(w)
    ensures s.Some? <==> x * RdTimesLn(l, r) <= U64_MAX && Rescale(x, l, r) <= Max(w)
    ensures s.Some? ==> s.value == Rescale(x, l, r)
  {
    SameBaseFactors(l, r);
    RescaleViaFactors(x, l, r);
    if SameBase(l, r) then
      Some(x)
    else
      match CheckedMul(U64, x, RdTimesLn(l, r))
      case None => None
      case Some(lh) =>
        var raw := lh / LdTimesRn(l, r);
        if raw <= Max(w) then Some(raw) else None
  }

  /**
   * `val` counts of the reference scale `unit` expressed in scale `s`
   * (`micros` ... `hours`, `Hz` ... `MHz`): `(RD_TIMES_LN as T * val) /
   * LD_TIMES_RN as T` with `Helpers<unit, s>`. The multiply is unchecked.
   */
  function FromUnit(w: Width, unit: Scale, s: Scale, val: nat): (t: nat)
    requires unit.Valid() && s.Valid() && val <= Max(w)
    requires Truncate(w, RdTimesLn(unit, s)) * val <= Max(w)
    requires Truncate(w, LdTimesRn(unit, s)) > 0
    ensures t <= Max(w)
    ensures FactorsFit(w, unit, s) ==> t == Rescale(val, unit, s)
  {
    var rd, ld := Truncate(w, RdTimesLn(unit, s)), Truncate(w, LdTimesRn(unit, s));
    UnitFactorsExact(w, unit, s, val);
    DivAtMost(rd * val, ld);
    (rd * val) / ld
  }

  /**
   * `raw` counts of scale `s` expressed in the reference scale `unit`
   * (`to_Hz`, `to_kHz`, `to_MHz`): `(LD_TIMES_RN as T * raw) / RD_TIMES_LN as T`
   * with `Helpers<unit, s>`. The multiply is unchecked.
   */
  function ToUnit(w: Width, s: Scale, unit: Scale, raw: nat): (t: nat)
    requires unit.Valid() && s.Valid() && raw <= Max(w)
    requires Truncate(w, LdTimesRn(unit, s)) * raw <= Max(w)
    requires Truncate(w, RdTimesLn(unit, s)) > 0
    ensures t <= Max(w)
    ensures FactorsFit(w, unit, s) ==> t == Rescale(raw, s, unit)
  {
    var rd, ld := Truncate(w, RdTimesLn(unit, s)), Truncate(w, LdTimesRn(unit, s));
    UnitFactorsExact(w, unit, s, raw);
    DivAtMost(ld * raw, rd);
    (ld * raw) / rd
  }

  /**
   * With fitting factors, `val` units taken into scale `s` can be read back
   * in units: the read-back multiply fits, never gains, and returns `val`
   * when the first step did not round.
   */
  lemma UnitRoundTrip(w: Width, unit: Scale, s: Scale, val: nat)
    requires unit.Valid() && s.Valid() && val <= Max(w)
    requires Truncate(w, RdTimesLn(unit, s)) * val <= Max(w)
    requires FactorsFit(w, unit, s)
    ensures Truncate(w, LdTimesRn(unit, s)) * FromUnit(w, unit, s, val) <= Max(w)
    ensures ToUnit(w, s, unit, FromUnit(w, unit, s, val)) <= val
    ensures (val * (unit.nom * s.denom)) % (unit.denom * s.nom) == 0 ==>
      ToUnit(w, s, unit, FromUnit(w, unit, s, val)) == val
  {
    var rd, ld := RdTimesLn(unit, s), LdTimesRn(unit, s);
    assert Truncate(w, rd) == rd && Truncate(w, ld) == ld;
    var t := FromUnit(w, unit, s, val);
    assert t == Rescale(val, unit, s);
    RescaleViaFactors(val, unit, s);
    DivMulLe(val * rd, ld);
    assert t * ld <= val * rd;
    assert ld * t <= rd * val;
    RescaleRoundTrip(val, unit, s);
    assert ToUnit(w, s, unit, t) == Rescale(t, s, unit);
  }

  /**
   * When the reduced factors fit the width, the cast factors are the exact
   * ones, so the shorthand formulas (factor first, then the count) are the
   * exact rescalings in both directions.
   */
  lemma UnitFactorsExact(w: Width, unit: Scale, s: Scale, t: nat)
    requires unit.Valid() && s.Valid()
    ensures FactorsFit(w, unit, s) ==>
      Truncate(w, RdTimesLn(unit, s)) > 0 && Truncate(w, LdTimesRn(unit, s)) > 0 &&
      (Truncate(w, RdTimesLn(unit, s)) * t) / Truncate(w, LdTimesRn(unit, s)) == Rescale(t, unit, s) &&
      (Truncate(w, LdTimesRn(unit, s)) * t) / Truncate(w, RdTimesLn(unit, s)) == Rescale(t, s, unit)
  {
    if FactorsFit(w, unit, s) {
      var rd, ld := RdTimesLn(unit, s), LdTimesRn(unit, s);
      RescaleViaFactors(t, unit, s);
      assert rd * t == t * rd && ld * t == t * ld;
    }
  }
}
