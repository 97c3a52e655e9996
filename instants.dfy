/**
 * `Instant<T, NOM, DENOM>` of src/instant.rs: a point on a free-running
 * timer that counts `ticks` of `NOM / DENOM` seconds and wraps around at
 * `T::MAX + 1`. Instants are therefore ordered on a circle, by which one is
 * less than half a turn ahead of the other.
 */
module Instants {
  import opened Primitives
  import opened Helpers
  import opened CrossBase
  import opened Durations

  datatype Instant = Instant(width: Width, scale: Scale, ticks: nat) {
    /** The scale passed `greater_than_0` and the ticks fit in `T`. */
    predicate Valid() {
      scale.Valid() && ticks <= Max(width)
    }
  }

  /** `from_ticks`; `ticks()` is the field `ticks`. */
  function FromTicks(w: Width, s: Scale, t: nat): (i: Instant)
    requires s.Valid() && t <= Max(w)
    ensures i.Valid() && i.width == w && i.scale == s && i.ticks == t
    ensures GreaterThan0(i.scale.nom) && GreaterThan0(i.scale.denom)
  {
    Instant(w, s, t)
  }

  /** `T::MAX / 2`, the threshold of `const_cmp`: 2^31 - 1 or 2^63 - 1. */
  function Half(w: Width): (h: nat)
    ensures Max(w) == 2 * h + 1
  {
    Max(w) / 2
  }

  /** Two instants of one type: the same `T` and the same scale. */
  predicate SameType(a: Instant, b: Instant) {
    a.Valid() && b.Valid() && a.width == b.width && a.scale == b.scale
  }

  /**
   * `const_cmp`: equal ticks are `Equal`; otherwise `self` is `Greater`
   * when it is less than `T::MAX / 2` ticks ahead of `other` on the circle,
   * `Less` when it is further ahead, and `Equal` at exactly `T::MAX / 2`.
   * Read on the integers: an `a` above `b` is `Greater` up to a gap of
   * `MAX/2 - 1`, while an `a` below `b` stays `Less` up to a gap of
   * `MAX/2 + 1`; the two thresholds differ.
   */
  function ConstCmp(a: Instant, b: Instant): (c: Ordering)
    requires SameType(a, b)
    ensures a.ticks == b.ticks ==> c == Equal
    ensures a.ticks > b.ticks ==>
      (c == Greater <==> a.ticks - b.ticks < Half(a.width)) &&
      (c == Equal <==> a.ticks - b.ticks == Half(a.width)) &&
      (c == Less <==> a.ticks - b.ticks > Half(a.width))
    ensures a.ticks < b.ticks ==>
      (c == Less <==> b.ticks - a.ticks <= Half(a.width) + 1) &&
      (c == Equal <==> b.ticks - a.ticks == Half(a.width) + 2) &&
      (c == Greater <==> b.ticks - a.ticks > Half(a.width) + 2)
  {
    if a.ticks == b.ticks then
      Equal
    else
      var v := WrappingSub(a.width, a.ticks, b.ticks);
      assert a.ticks > b.ticks ==> v == a.ticks - b.ticks;
      assert a.ticks < b.ticks ==> v == Modulus(a.width) - (b.ticks - a.ticks);
      if v > Half(a.width) then Less
      else if v < Half(a.width) then Greater
      else Equal
  }

  /** `PartialEq`: compares the raw ticks, and agrees with `const_cmp` only one way. */
  function Eq(a: Instant, b: Instant): (e: bool)
    requires SameType(a, b)
    ensures e ==> ConstCmp(a, b) == Equal
    ensures e <==> a == b
  {
    a.ticks == b.ticks
  }

  /** `duration_since_epoch`: the ticks since tick 0, as a duration of the same scale. */
  function DurationSinceEpoch(i: Instant): (d: Duration)
    requires i.Valid()
    ensures d.Valid() && d.width == i.width && d.scale == i.scale && d.ticks == i.ticks
  {
    Durations.FromTicks(i.width, i.scale, i.ticks)
  }

  /**
   * `checked_duration_since`: the distance from `b` forward to `a`, unless
   * `const_cmp` says `a` is `Less`. The distance is then at most
   * `T::MAX / 2`, and adding it to `b` (mod 2^n) lands on `a`.
   */
  function CheckedDurationSince(a: Instant, b: Instant): (r: Option<Duration>)
    requires SameType(a, b)
    ensures r.Some? <==> ConstCmp(a, b) != Less
    ensures r.Some? <==> WrappingSub(a.width, a.ticks, b.ticks) <= Half(a.width)
    ensures r.Some? ==> r.value.Valid() && r.value.width == a.width && r.value.scale == a.scale
    ensures r.Some? ==> r.value.ticks <= Half(a.width)
    ensures r.Some? ==> (b.ticks + r.value.ticks) % Modulus(a.width) == a.ticks
  {
    match ConstCmp(a, b)
    case Less => None
    case _ =>
      var d := WrappingSub(a.width, a.ticks, b.ticks);
      assert (b.ticks + d) % Modulus(a.width) == a.ticks by {
        Arith.ModRoundTrip(a.ticks, b.ticks, Modulus(a.width));
      }
      Some(Durations.FromTicks(a.width, a.scale, d))
  }

  /**
   * `checked_sub_duration`: the duration moved into the instant's scale and
   * subtracted with wrap-around; `None` only when the rescaling multiply
   * overflows.
   */
  function CheckedSubDuration(i: Instant, d: Duration): (r: Option<Instant>)
    requires i.Valid() && d.Valid() && i.width == d.width
    requires OtherInBaseDefined(i.width, i.scale, d.ticks, d.scale)
    ensures r.Some? ==> r.value.Valid() && r.value.width == i.width && r.value.scale == i.scale
    ensures FactorsFit(i.width, i.scale, d.scale) ==>
      (r.Some? <==> d.ticks * LdTimesRn(i.scale, d.scale) <= Max(i.width))
    ensures FactorsFit(i.width, i.scale, d.scale) && r.Some? ==>
      r.value.ticks == (i.ticks - Rescale(d.ticks, d.scale, i.scale)) % Modulus(i.width)
  {
    OtherInBaseExact(i.width, i.scale, d.ticks, d.scale);
    match OtherInBase(i.width, i.scale, d.ticks, d.scale)
    case None => None
    case Some(v) => Some(FromTicks(i.width, i.scale, WrappingSub(i.width, i.ticks, v)))
  }

  /**
   * `checked_add_duration`: the duration moved into the instant's scale and
   * added with wrap-around; `None` only when the rescaling multiply
   * overflows.
   */
  function CheckedAddDuration(i: Instant, d: Duration): (r: Option<Instant>)
    requires i.Valid() && d.Valid() && i.width == d.width
    requires OtherInBaseDefined(i.width, i.scale, d.ticks, d.scale)
    ensures r.Some? ==> r.value.Valid() && r.value.width == i.width && r.value.scale == i.scale
    ensures FactorsFit(i.width, i.scale, d.scale) ==>
      (r.Some? <==> d.ticks * LdTimesRn(i.scale, d.scale) <= Max(i.width))
    ensures FactorsFit(i.width, i.scale, d.scale) && r.Some? ==>
      r.value.ticks == (i.ticks + Rescale(d.ticks, d.scale, i.scale)) % Modulus(i.width)
  {
    OtherInBaseExact(i.width, i.scale, d.ticks, d.scale);
    match OtherInBase(i.width, i.scale, d.ticks, d.scale)
    case None => None
    case Some(v) => Some(FromTicks(i.width, i.scale, WrappingAdd(i.width, i.ticks, v)))
  }

  // ---------------------------------------------------------------------
  // Operators (one scale on both sides)
  // ---------------------------------------------------------------------

  /** `Instant - Instant`: `checked_duration_since`, panicking on `None`. */
  function Sub(a: Instant, b: Instant): (d: Duration)
    requires SameType(a, b) && ConstCmp(a, b) != Less
    ensures d.Valid() && d.width == a.width && d.scale == a.scale
    ensures d.ticks <= Half(a.width) && (b.ticks + d.ticks) % Modulus(a.width) == a.ticks
  {
    CheckedDurationSince(a, b).value
  }

  /** `Instant - Duration` (and `-=`): wrapping subtraction of the ticks, which never panics. */
  function SubDuration(i: Instant, d: Duration): (r: Instant)
    requires i.Valid() && d.Valid() && i.width == d.width && i.scale == d.scale
    ensures r.Valid() && r.width == i.width && r.scale == i.scale
    ensures r.ticks == (i.ticks - d.ticks) % Modulus(i.width)
  {
    SameBaseReflexive(i.scale);
    SameBaseFits(i.width, i.scale, i.scale);
    RescaleSameBase(d.ticks, i.scale, i.scale);
    CheckedSubDuration(i, d).value
  }

  /** `Instant + Duration` (and `+=`): wrapping addition of the ticks, which never panics. */
  function AddDuration(i: Instant, d: Duration): (r: Instant)
    requires i.Valid() && d.Valid() && i.width == d.width && i.scale == d.scale
    ensures r.Valid() && r.width == i.width && r.scale == i.scale
    ensures r.ticks == (i.ticks + d.ticks) % Modulus(i.width)
  {
    SameBaseReflexive(i.scale);
    SameBaseFits(i.width, i.scale, i.scale);
    RescaleSameBase(d.ticks, i.scale, i.scale);
    CheckedAddDuration(i, d).value
  }

  /** `Instant<u64> - Duration<u32>` (and `-=`): the duration widened first. */
  function SubNarrowDuration(i: Instant, d: Duration): (r: Instant)
    requires i.Valid() && d.Valid() && i.width == U64 && d.width == U32 && i.scale == d.scale
    ensures r.Valid() && r.width == U64 && r.scale == i.scale
    ensures r.ticks == (i.ticks - d.ticks) % Modulus(U64)
  {
    SubDuration(i, Widen(d))
  }

  /** `Instant<u64> + Duration<u32>` (and `+=`): the duration widened first. */
  function AddNarrowDuration(i: Instant, d: Duration): (r: Instant)
    requires i.Valid() && d.Valid() && i.width == U64 && d.width == U32 && i.scale == d.scale
    ensures r.Valid() && r.width == U64 && r.scale == i.scale
    ensures r.ticks == (i.ticks + d.ticks) % Modulus(U64)
  {
    AddDuration(i, Widen(d))
  }
}

/** Laws of the Instant operations, including where the circular order is not an order. */
module InstantLaws {
  import opened Primitives
  import opened Arith
  import opened Helpers
  import opened CrossBase
  import opened Durations
  import opened Instants
  import DurationLaws

  /**
   * Swapping the operands of `const_cmp` reverses the answer exactly when
   * the forward distance from `b` to `a` is not `MAX/2`, `MAX/2 + 1` or
   * `MAX/2 + 2`, the three points around half a turn.
   */
  lemma ConstCmpReverse(a: Instant, b: Instant)
    requires SameType(a, b)
    ensures ConstCmp(b, a) == ConstCmp(a, b).Reverse() <==>
      var v := WrappingSub(a.width, a.ticks, b.ticks);
      v != Half(a.width) && v != Half(a.width) + 1 && v != Half(a.width) + 2
  {
    var m := Modulus(a.width);
    if a.ticks > b.ticks {
      DivUnique(a.ticks - b.ticks, m, 0, a.ticks - b.ticks);
    } else if a.ticks < b.ticks {
      DivUnique(a.ticks - b.ticks, m, -1, m - (b.ticks - a.ticks));
    } else {
      DivUnique(0, m, 0, 0);
    }
  }

  /** Half a turn apart, each instant is `Less` than the other. */
  lemma BothLessAtHalfTurn(a: Instant, b: Instant)
    requires SameType(a, b) && WrappingSub(a.width, a.ticks, b.ticks) == Half(a.width) + 1
    ensures ConstCmp(a, b) == Less && ConstCmp(b, a) == Less
  {
    ConstCmpReverse(a, b);
    var m := Modulus(a.width);
    if a.ticks < b.ticks {
      DivUnique(a.ticks - b.ticks, m, -1, m - (b.ticks - a.ticks));
    } else if a.ticks > b.ticks {
      DivUnique(a.ticks - b.ticks, m, 0, a.ticks - b.ticks);
    } else {
      DivUnique(0, m, 0, 0);
    }
  }

  /** Distinct ticks `MAX/2` apart compare `Equal`, yet `PartialEq` says they differ. */
  lemma EqualButNotEq(w: Width, s: Scale)
    requires s.Valid()
    ensures ConstCmp(Instants.FromTicks(w, s, Half(w)), Instants.FromTicks(w, s, 0)) == Equal
    ensures !Instants.Eq(Instants.FromTicks(w, s, Half(w)), Instants.FromTicks(w, s, 0))
  {
  }

  /** On `u32`, ticks 0, 2^30 and 2^31 each compare `Less` than the next, and 2^31 `Less` than 0. */
  lemma NotTransitive(s: Scale)
    requires s.Valid()
    ensures ConstCmp(Instants.FromTicks(U32, s, 0), Instants.FromTicks(U32, s, 0x4000_0000)) == Less
    ensures ConstCmp(Instants.FromTicks(U32, s, 0x4000_0000), Instants.FromTicks(U32, s, 0x8000_0000)) == Less
    ensures ConstCmp(Instants.FromTicks(U32, s, 0x8000_0000), Instants.FromTicks(U32, s, 0)) == Less
  {
  }

  /** Subtracting a duration undoes adding it, and adding undoes subtracting. */
  lemma SubDurationUndoesAdd(i: Instant, d: Duration)
    requires i.Valid() && d.Valid() && i.width == d.width && i.scale == d.scale
    ensures SubDuration(AddDuration(i, d), d) == i
    ensures AddDuration(SubDuration(i, d), d) == i
  {
    ModRoundTrip(i.ticks, d.ticks, Modulus(i.width));
    var a, s := AddDuration(i, d), SubDuration(i, d);
    assert a.ticks == (i.ticks + d.ticks) % Modulus(i.width);
    assert s.ticks == (i.ticks - d.ticks) % Modulus(i.width);
  }

  /** The same holds across scales for the checked forms whenever adding succeeds. */
  lemma CheckedSubDurationUndoesAdd(i: Instant, d: Duration)
    requires i.Valid() && d.Valid() && i.width == d.width
    requires OtherInBaseDefined(i.width, i.scale, d.ticks, d.scale)
    requires CheckedAddDuration(i, d).Some?
    ensures CheckedSubDuration(CheckedAddDuration(i, d).value, d) == Some(i)
  {
    var v := OtherInBase(i.width, i.scale, d.ticks, d.scale).value;
    var a := CheckedAddDuration(i, d).value;
    assert a.ticks == (i.ticks + v) % Modulus(i.width);
    ModRoundTrip(i.ticks, v, Modulus(i.width));
    assert CheckedSubDuration(a, d).value.ticks == (a.ticks - v) % Modulus(i.width);
  }

  /** The duration since `b` takes `b` to `a`. */
  lemma AddDurationSince(a: Instant, b: Instant)
    requires SameType(a, b) && CheckedDurationSince(a, b).Some?
    ensures AddDuration(b, CheckedDurationSince(a, b).value) == a
  {
  }

  /** A duration of at most half a turn added to `b` is the duration since `b`. */
  lemma DurationSinceAdd(b: Instant, d: Duration)
    requires b.Valid() && d.Valid() && b.width == d.width && b.scale == d.scale
    requires d.ticks <= Half(b.width)
    ensures CheckedDurationSince(AddDuration(b, d), b) == Some(d)
  {
    var m := Modulus(b.width);
    ModAddLeft(b.ticks + d.ticks, -(b.ticks as int), m);
    DivUnique(d.ticks, m, 0, d.ticks);
  }

  // ---------------------------------------------------------------------
  // Worked examples
  // ---------------------------------------------------------------------

  const MS := Scale(1, 1_000)

  /** Tick 1 is after tick `MAX` (wrapped), `MAX - 1` before `MAX`, and 2 after 1. */
  lemma WrappingOrderExamples(w: Width)
    ensures ConstCmp(Instants.FromTicks(w, MS, 1), Instants.FromTicks(w, MS, Max(w))) == Greater
    ensures ConstCmp(Instants.FromTicks(w, MS, Max(w) - 1), Instants.FromTicks(w, MS, Max(w))) == Less
    ensures ConstCmp(Instants.FromTicks(w, MS, 2), Instants.FromTicks(w, MS, 1)) == Greater
  {
  }

  /** 2 since `MAX` is 3, 2 since `MAX - 1` is 4, 2 since 3 is `None`, and 10 - 5 is 5. */
  lemma DurationSinceExamples(w: Width)
    ensures CheckedDurationSince(Instants.FromTicks(w, MS, 2), Instants.FromTicks(w, MS, Max(w)))
         == Some(Durations.FromTicks(w, MS, 3))
    ensures CheckedDurationSince(Instants.FromTicks(w, MS, 2), Instants.FromTicks(w, MS, Max(w) - 1))
         == Some(Durations.FromTicks(w, MS, 4))
    ensures CheckedDurationSince(Instants.FromTicks(w, MS, 2), Instants.FromTicks(w, MS, 3)) == None
    ensures Instants.Sub(Instants.FromTicks(w, MS, 10), Instants.FromTicks(w, MS, 5))
         == Durations.FromTicks(w, MS, 5)
  {
  }

  /** 10 + 1 is 11 and 10 - 1 is 9. */
  lemma InstantDurationExamples()
    ensures AddDuration(Instants.FromTicks(U32, MS, 10), Durations.FromTicks(U32, MS, 1))
         == Instants.FromTicks(U32, MS, 11)
    ensures SubDuration(Instants.FromTicks(U32, MS, 10), Durations.FromTicks(U32, MS, 1))
         == Instants.FromTicks(U32, MS, 9)
  {
  }

  /** At 1/10000 s, 10 ticks plus or minus `millis(1)` are 20 and 0. */
  lemma InstantMillisExamples()
    ensures ShorthandFits(U32, MILLIS, Scale(1, 10_000), 1)
    ensures AddDuration(Instants.FromTicks(U32, Scale(1, 10_000), 10), Millis(U32, Scale(1, 10_000), 1))
         == Instants.FromTicks(U32, Scale(1, 10_000), 20)
    ensures SubDuration(Instants.FromTicks(U32, Scale(1, 10_000), 10), Millis(U32, Scale(1, 10_000), 1))
         == Instants.FromTicks(U32, Scale(1, 10_000), 0)
  {
    DurationLaws.MillisExample();
  }
}
