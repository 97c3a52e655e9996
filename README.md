# fugit's numeric engine, in Dafny

fugit is an embedded-Rust time library. Its types are `Duration<T, NOM, DENOM>`,
`Instant<T, NOM, DENOM>` and `Rate<T, NOM, DENOM>`. Each holds one unsigned count
(`T` is `u32` or `u64`) of a rational unit `NOM / DENOM`. For durations and
instants the unit is seconds; for rates it is hertz. The arithmetic between two
values of different units goes through a scale reducer, `Helpers<L_NOM, L_DENOM, R_NOM, R_DENOM>`.
`Helpers` computes the gcd-reduced cross factors `RD_TIMES_LN` and `LD_TIMES_RN`,
so converting between the two units costs one multiply and one divide.

This project models that engine as pure Dafny functions over datatypes and proves its properties.

- **Types become fields.** The const generics `T`, `NOM` and `DENOM` become the
  run-time fields `width` (`U32`/`U64`) and `scale` (`Scale(nom, denom)`).
  - Where Rust's type checker forces two operands to share a width or a scale,
    the model has a `requires`.
  - `greater_than_0` becomes the `Scale.Valid()` predicate. Every constructor
    requires it and re-states it in its `ensures`.
- **Rust integer operations.**
  - `checked_add`/`checked_sub`/`checked_mul` return `Option`.
  - `wrapping_add`/`wrapping_sub` are `% 2^n`.
  - The `as T` casts of the `u64` helper constants are written out as `Truncate(w, x) = x % 2^n`.
- **Exact meaning.** Cross-scale results are stated against the rational value.
  - `Rescale(t, from, to) = ⌊t · from / to⌋` for conversions.
  - The cross products `x · Ln · Rd` against `y · Rn · Ld` for comparisons.
  - These statements hold whenever the reduced factors fit the width
    (`FactorsFit`). This is always the case for `u64` (`Helpers.FactorsFitU64`).
- **Panics become preconditions.** A panicking operator (`+`, `-`, `convert`,
  `into_duration`, `Instant - Instant`) requires that its checked form is `Some`.
  An unchecked `*` or `/` requires that it does not overflow or divide by zero.
- **Instant order.** `PartialOrd::partial_cmp` and `Ord::cmp` of `Instant`
  (src/instant.rs:178-190) are `Some(const_cmp)` and `const_cmp`, so the model
  has the single member `Instants.ConstCmp`.
- **Rate comparison.** `PartialOrd`/`PartialEq` of `Rate` (src/rate.rs:352-375)
  are `const_partial_cmp`/`const_eq`, modelled by `Rates.ConstPartialCmp` and `Rates.ConstEq`.
- **Assign operators.** The compound operators (`+=`, `-=`, `*=`, `/=`) replace
  the whole value with the result of the operator they call. They are covered by that operator's member.
- **Unwired module.** src/lib.rs:3-5 declares `duration`, `helpers` and `instant`
  but not `rate`, so `Rate` is not compiled into this snapshot of the crate.
  src/rate.rs depends only on `Duration` and `Helpers`, and is modelled like the others.

Files:

| file | module(s) | models |
|---|---|---|
| primitives.dfy | `Primitives` | `Option`, `Ordering`, widths, checked/wrapping integer operations, the `as T` cast |
| arith.dfy | `Arith`, `Divisibility` | division and gcd facts used by the proofs |
| helpers.dfy | `Helpers` | `Scale`, `greater_than_0`, the `Helpers` constants, their laws |
| crossbase.dfy | `CrossBase` | the tick-level cross-scale arithmetic shared by the three types |
| durations.dfy | `Durations`, `DurationLaws` | src/duration.rs |
| instants.dfy | `Instants`, `InstantLaws` | src/instant.rs |
| rates.dfy | `Rates`, `RateLaws` | src/rate.rs |

Behaviours the model reproduces:

- **Truncating casts.** In the `u32` instantiation, `RD_TIMES_LN as u32` can be
  0 (`DurationLaws.ZeroCastExample`). Rust then divides by zero only when the
  multiply by the other factor fits; when it overflows, `None` comes first
  (`DurationLaws.OverflowBeforeZeroCastExample`). The operations that divide by a
  cast factor require exactly that this division is reached with a nonzero divisor
  (`CrossBase.OtherInBaseDefined`, `CrossBase.IntoInOwnWidthDefined`).
  - It can also wrap to a small wrong factor. `DurationLaws.WrongCastExample`
    shows `checked_add` returning `Some` where the exact sum does not fit.
- **Asymmetric instant order.** `const_cmp` answers `Equal` for distinct ticks
  exactly half a turn apart. Swapping the operands fails to reverse the answer
  at three points near half a turn, and the order is not transitive.
  - `InstantLaws.ConstCmpReverse`, `InstantLaws.BothLessAtHalfTurn`,
    `InstantLaws.EqualButNotEq`, `InstantLaws.NotTransitive`.
- **Different conversion widths.** `Duration::checked_into` multiplies in the
  value's own width. `Rate::const_try_into` multiplies in `u64` and range-checks
  the quotient afterwards (`RateLaws.ConversionWidthExample`).

## Model

| member | source | states |
|---|---|---|
| Primitives.Truncate | src/duration.rs:67-71 | the `as T` cast of a helper constant is below `2^n` and changes nothing on a value that already fits |
| Helpers.ProductBounds | src/helpers.rs:22-23 | a product of two `u32` scale components is positive and fits in `u64`, so no helper constant overflows |
| Helpers.Divisor | src/helpers.rs:22-23 | `DIVISOR` divides both `Ld*Rn` and `Rd*Ln` |
| Helpers.DivisorIsGreatest | src/helpers.rs:22-23 | every common divisor of `Ld*Rn` and `Rd*Ln` divides `DIVISOR`, so it is their gcd |
| Helpers.RdTimesLn | src/helpers.rs:30 | `RD_TIMES_LN` is positive, fits in `u64`, and times `DIVISOR` gives back `Rd*Ln` |
| Helpers.LdTimesRn | src/helpers.rs:33 | `LD_TIMES_RN` is positive, fits in `u64`, and times `DIVISOR` gives back `Ld*Rn` |
| Helpers.Divisor2 | src/helpers.rs:26-27 | `DIVISOR_2` divides both `Ln*Rn` and `Rd*Ld` |
| Helpers.Divisor2IsGreatest | src/helpers.rs:26-27 | every common divisor of `Ln*Rn` and `Rd*Ld` divides `DIVISOR_2`, so it is their gcd |
| Helpers.LnTimesRn | src/helpers.rs:36 | `LN_TIMES_RN` is positive and times `DIVISOR_2` gives back `Ln*Rn` |
| Helpers.RdTimesLd | src/helpers.rs:39 | `RD_TIMES_LD` is positive and times `DIVISOR_2` gives back `Rd*Ld` |
| Helpers.RateToDurationNumerator | src/helpers.rs:42 | `RD_TIMES_LD / LN_TIMES_RN` equals the unreduced truncated quotient `(Rd*Ld)/(Ln*Rn)`: the reduction loses nothing |
| Helpers.ReducedFactorsKeepRatio | src/helpers.rs:30-33 | the reduced factors keep the ratio: `RD_TIMES_LN*(Ld*Rn) == LD_TIMES_RN*(Rd*Ln)` |
| Helpers.ReducedFactorsCoprime | src/helpers.rs:30-33 | the reduced factors are coprime, so no smaller pair has the same ratio |
| Helpers.SameBaseIff | src/helpers.rs:45 | `SAME_BASE` holds iff `Ln*Rd == Rn*Ld` (equal rationals, e.g. 2/2000 and 1/1000), and then both factors are 1 |
| Helpers.SameBaseFactors | src/helpers.rs:45 | on `SAME_BASE` both reduced factors are 1 |
| Helpers.SameBaseFits | src/helpers.rs:45 | on `SAME_BASE` the factors fit every width |
| Helpers.SameBaseReflexive | src/helpers.rs:45 | a scale is always `SAME_BASE` with itself, with both factors 1 |
| Helpers.SwapScales | src/helpers.rs:22-45 | swapping left and right keeps `DIVISOR` and `SAME_BASE` and swaps `RD_TIMES_LN` with `LD_TIMES_RN` |
| Helpers.FactorsFitU64 | src/helpers.rs:30-33 | in `u64` the `as T` casts of the reduced factors are exact |
| Helpers.RescaleViaFactors | src/helpers.rs:30-33 | `t*LD_TIMES_RN/RD_TIMES_LN` and `t*RD_TIMES_LN/LD_TIMES_RN` are the exact rescalings `⌊t·R/L⌋` and `⌊t·L/R⌋` |
| Helpers.CmpScaled | src/duration.rs:245-253 | multiplying both sides by the same positive factor keeps their order |
| Helpers.CompareViaFactors | src/duration.rs:245-253 | comparing `x*RD_TIMES_LN` with `y*LD_TIMES_RN` gives the order of `x·Ln·Rd` against `y·Rn·Ld` |
| Helpers.RescaleSameBase | src/helpers.rs:45 | on `SAME_BASE` rescaling is the identity in both directions |
| Helpers.RescaleRoundTrip | src/duration.rs:140-146 | rescaling to another scale and back never gains, and is lossless when the first step did not round |
| CrossBase.OtherInBase | src/duration.rs:66-71 | defined on every input whose division by `RD_TIMES_LN as T` is reached with a nonzero divisor; the other operand moved into the receiver's scale fits the width |
| CrossBase.OtherInBaseExact | src/duration.rs:60-71 | with fitting factors, that move fails iff `y*LD_TIMES_RN` overflows and otherwise is `Rescale(y, R, L)` |
| CrossBase.AddInBase | src/duration.rs:56-82 | checked cross-scale sum, defined whenever the division is reached with a nonzero divisor: the result fits the width; with fitting factors, `Some` iff the multiply and the exact sum fit, and then it is the exact sum |
| CrossBase.SubInBase | src/duration.rs:95-121 | checked cross-scale difference, defined whenever the division is reached with a nonzero divisor: the result is at most the receiver; with fitting factors, `Some` iff the multiply fits and no underflow, and then it is the exact difference |
| CrossBase.CmpInBase | src/duration.rs:241-254 | with fitting factors, `None` iff a scaled product overflows, otherwise the exact order of the two quantities |
| CrossBase.EqInBase | src/duration.rs:269-286 | with fitting factors, true iff both scaled products fit and the two quantities are exactly equal |
| CrossBase.IntoInOwnWidth | src/duration.rs:134-151 | defined on every input whose division by `LD_TIMES_RN as T` is reached with a nonzero divisor; the converted count fits the width |
| CrossBase.IntoInOwnWidthExact | src/duration.rs:134-151 | with fitting factors, the conversion fails iff `x*RD_TIMES_LN` overflows the width and otherwise is `Rescale(x, L, R)` |
| CrossBase.IntoViaU64 | src/rate.rs:211-231 | `Some` iff `x*RD_TIMES_LN` fits `u64` and the exact rescaled value fits the width, and then it is that value |
| CrossBase.FromUnit | src/duration.rs:177-182 | a value of a reference unit in scale `s` fits the width and, with fitting factors, is the exact rescaling |
| CrossBase.ToUnit | src/rate.rs:300-303 | a count of scale `s` in a reference unit fits the width and, with fitting factors, is the exact rescaling |
| CrossBase.UnitRoundTrip | src/rate.rs:300-329 | with fitting factors, a value taken into scale `s` and read back in the unit fits, never gains, and is lossless when the first step did not round |
| CrossBase.UnitFactorsExact | src/duration.rs:177-182 | with fitting factors, both cast factors are nonzero and the factor-first shorthand formulas are the exact rescalings in both directions |
| Durations.FromTicks | src/duration.rs:25-43 | `from_ticks(t).ticks() == t`; both scale components pass `greater_than_0` (`Helpers.GreaterThan0`, src/helpers.rs:50-52) |
| Durations.CheckedAdd | src/duration.rs:56-82 | defined whenever the division is reached with a nonzero divisor; `Some` iff the rescale multiply and the sum fit, and then ticks are `a + Rescale(b)` in `a`'s scale |
| Durations.CheckedSub | src/duration.rs:95-121 | defined whenever the division is reached with a nonzero divisor; `Some` iff the rescale multiply fits and `Rescale(b) <= a`, and then ticks are `a - Rescale(b)` |
| Durations.CheckedInto | src/duration.rs:134-151 | defined whenever the division is reached with a nonzero divisor; `Some` iff `ticks*RD_TIMES_LN` fits the duration's own width, and then ticks are the exact rescaling |
| Durations.Convert | src/duration.rs:165-173 | the converted duration has the target scale and the exact rescaled ticks |
| Durations.PartialCmp | src/duration.rs:221-256 | `None` iff a scaled product overflows, otherwise the exact order of `ticks*NOM/DENOM` |
| Durations.OrdCmp | src/duration.rs:258-263 | within one type, the order of the ticks, agreeing with `partial_cmp` |
| Durations.Eq | src/duration.rs:265-288 | on every input, equal iff `partial_cmp` says `Equal`; within one type, iff the ticks are equal |
| Durations.Add | src/duration.rs:309-322 | the sum has `a`'s scale and ticks `a + Rescale(b)` |
| Durations.Sub | src/duration.rs:293-306 | the difference plus `Rescale(b)` gives back `a` |
| Durations.Mul | src/duration.rs:325-344 | by a positive factor the ticks never shrink and divide back exactly to the original; by 0 they are 0 |
| Durations.Div | src/duration.rs:347-355 | the quotient `q` satisfies `q*k <= ticks < (q+1)*k` |
| Durations.Shorthand | src/duration.rs:177-218 | a shorthand value is `Rescale(val, unit, s)` |
| Durations.Micros | src/duration.rs:177-182 | `micros(v)` has ticks `⌊v·DENOM/(10^6·NOM)⌋` |
| Durations.Millis | src/duration.rs:186-191 | `millis(v)` has ticks `⌊v·DENOM/(10^3·NOM)⌋` |
| Durations.Secs | src/duration.rs:195-200 | `secs(v)` has ticks `⌊v·DENOM/NOM⌋` |
| Durations.Minutes | src/duration.rs:204-209 | `minutes(v)` has ticks `⌊60·v·DENOM/NOM⌋` |
| Durations.Hours | src/duration.rs:213-218 | `hours(v)` has ticks `⌊3600·v·DENOM/NOM⌋` |
| Durations.Widen | src/duration.rs:408-415 | widening to `u64` keeps scale and ticks |
| Durations.TryNarrow | src/duration.rs:417-428 | narrowing succeeds iff ticks fit `u32`, and widening the result gives the input back |
| Durations.AddWide | src/duration.rs:443-452 | `u64 + u32` of one scale is the plain sum |
| Durations.SubWide | src/duration.rs:431-441 | `u64 - u32` of one scale is the plain difference |
| Durations.PartialCmpWide | src/duration.rs:454-463 | `u64` against `u32`: `None` iff a 64-bit product overflows, otherwise the exact order |
| Durations.PartialCmpNarrow | src/duration.rs:476-483 | `u32` against `u64`: the same |
| Durations.EqWide | src/duration.rs:465-474 | `u64 == u32` iff the mixed comparison says `Equal` |
| Durations.EqNarrow | src/duration.rs:485-492 | `u32 == u64` iff the mixed comparison says `Equal` |
| DurationLaws.CheckedAddSameBase | src/duration.rs:60-65 | on `SAME_BASE`, `checked_add` is `Some(a+b)` iff `a+b <= MAX` |
| DurationLaws.CheckedSubSameBase | src/duration.rs:99-104 | on `SAME_BASE`, `checked_sub` is `None` exactly on underflow |
| DurationLaws.SubUndoesAdd | src/duration.rs:56-121 | whenever the division is reached with a nonzero divisor, `checked_add(a,b) == Some(s)` implies `checked_sub(s,b) == Some(a)` |
| DurationLaws.AddUndoesSub | src/duration.rs:56-121 | whenever the division is reached with a nonzero divisor, `checked_sub(a,b) == Some(s)` implies `checked_add(s,b) == Some(a)` |
| DurationLaws.CheckedIntoSameBase | src/duration.rs:137-138 | on `SAME_BASE`, `checked_into` only relabels the scale |
| DurationLaws.ConvertRoundTrip | src/duration.rs:134-151 | with fitting factors both ways, a converted duration always converts back, never gains ticks, and is lossless when the first step did not round |
| DurationLaws.PartialCmpSwap | src/duration.rs:221-288 | on every input, swapping operands reverses `partial_cmp` (keeping `None`) and keeps `eq`, and fitting factors stay fitting |
| DurationLaws.DivUndoesMul | src/duration.rs:336-355 | `(d * k) / k == d` |
| DurationLaws.NarrowUndoesWiden | src/duration.rs:408-428 | narrowing a widened duration gives it back |
| DurationLaws.CheckedExamples | src/duration.rs:44-55 | 1+2 = 3, 1+MAX overflows, 2-1 = 1, 1-MAX underflows |
| DurationLaws.ConvertExample | src/lib.rs:22-25 | 1 tick of 1/100 s converts to 10 ticks of 1/1000 s |
| DurationLaws.CompareExamples | src/lib.rs:57-80 | 10@1/10000 equals 1@1/1000, 11@1/10000 is greater than 1@1/1000 and less than 2@1/1000 |
| DurationLaws.CrossBaseArithmeticExamples | src/lib.rs:396-402 | 10@1/10000 + 1@1/1000 = 20@1/10000 (equal to 2 ms), and minus is 0 |
| DurationLaws.MicrosExample | src/lib.rs:452-453 | at 1/10000 s, 100000 µs are 1000 ticks |
| DurationLaws.MillisExample | src/lib.rs:455-456 | at 1/10000 s, 1 ms is 10 ticks |
| DurationLaws.SecsExample | src/lib.rs:458-459 | at 1/10000 s, 1 s is 10000 ticks |
| DurationLaws.MinutesExample | src/lib.rs:461-462 | at 1/10000 s, 1 min is 600000 ticks |
| DurationLaws.HoursExample | src/lib.rs:464-465 | at 1/10000 s, 1 h is 36000000 ticks |
| DurationLaws.ZeroCastExample | src/duration.rs:67-71 | in `u32`, `RD_TIMES_LN` = 2^32 for 65536/1 against 1/65536 casts to 0, and adding 0 ticks would divide by it |
| DurationLaws.OverflowBeforeZeroCastExample | src/duration.rs:66-80 | with a zero cast `RD_TIMES_LN` and `LD_TIMES_RN` = 3, a count whose multiply overflows gives `None` before any division, while 1 tick would divide by zero |
| DurationLaws.ConvertBackZeroCastExample | src/duration.rs:134-151 | in `u32`, 5 ticks of 131072 s convert to 0 ticks of 1/65536 s because `RD_TIMES_LN` = 2^33 casts to 0, and converting back would divide by zero |
| DurationLaws.WrongCastExample | src/duration.rs:67-71 | in `u32`, `LD_TIMES_RN` = 2^32+1 casts to 1, and `checked_add` returns 1 tick where the exact sum overflows |
| Instants.FromTicks | src/instant.rs:25-43 | `from_ticks(t).ticks() == t`; both scale components pass `greater_than_0` |
| Instants.Half | src/instant.rs:59-69 | `MAX / 2` is the `h` with `MAX == 2h + 1` |
| Instants.ConstCmp | src/instant.rs:55-70 | equal ticks are `Equal`; otherwise the wrapping difference against `MAX/2`, read out as integer thresholds on both sides |
| Instants.Eq | src/instant.rs:192-197 | `eq` compares the ticks only, and implies `const_cmp == Equal` |
| Instants.DurationSinceEpoch | src/instant.rs:82-84 | the duration has the instant's ticks and scale |
| Instants.CheckedDurationSince | src/instant.rs:97-109 | `Some` iff `const_cmp` is not `Less` (iff the wrapping difference is at most `MAX/2`), and then adding it to `b` mod 2^n gives `a` |
| Instants.CheckedSubDuration | src/instant.rs:120-142 | defined whenever the division is reached with a nonzero divisor; `None` only when `d*LD_TIMES_RN` overflows, otherwise `(i - Rescale(d)) mod 2^n` |
| Instants.CheckedAddDuration | src/instant.rs:153-175 | defined whenever the division is reached with a nonzero divisor; `None` only when `d*LD_TIMES_RN` overflows, otherwise `(i + Rescale(d)) mod 2^n` |
| Instants.Sub | src/instant.rs:205-218 | `a - b` is at most `MAX/2` and takes `b` to `a` mod 2^n |
| Instants.SubDuration | src/instant.rs:224-250 | same-scale `i - d` never fails and is `(i - d) mod 2^n` |
| Instants.AddDuration | src/instant.rs:256-282 | same-scale `i + d` never fails and is `(i + d) mod 2^n` |
| Instants.SubNarrowDuration | src/instant.rs:338-364 | `u64` instant minus `u32` duration is `(i - d) mod 2^64` |
| Instants.AddNarrowDuration | src/instant.rs:370-396 | `u64` instant plus `u32` duration is `(i + d) mod 2^64` |
| InstantLaws.ConstCmpReverse | src/instant.rs:55-70 | swapping operands reverses `const_cmp` iff the wrapping difference is not `MAX/2`, `MAX/2+1` or `MAX/2+2` |
| InstantLaws.BothLessAtHalfTurn | src/instant.rs:55-70 | at a wrapping difference of `MAX/2 + 1` each instant is `Less` than the other |
| InstantLaws.EqualButNotEq | src/instant.rs:55-70 | ticks `MAX/2` and 0 compare `Equal` but are not `==` |
| InstantLaws.NotTransitive | src/instant.rs:55-70 | in `u32`, 0 < 2^30 < 2^31 < 0 under `const_cmp` |
| InstantLaws.SubDurationUndoesAdd | src/instant.rs:224-269 | `(i + d) - d == i` and `(i - d) + d == i` |
| InstantLaws.CheckedSubDurationUndoesAdd | src/instant.rs:120-175 | across scales, whenever the division is reached with a nonzero divisor, subtracting a duration undoes adding it whenever adding succeeds |
| InstantLaws.AddDurationSince | src/instant.rs:97-109 | `b + (a.checked_duration_since(b)) == a` |
| InstantLaws.DurationSinceAdd | src/instant.rs:97-109 | for `d <= MAX/2`, `(b + d).checked_duration_since(b) == Some(d)` |
| InstantLaws.WrappingOrderExamples | src/lib.rs:489-500 | tick 1 > tick MAX, MAX-1 < MAX, 2 > 1 |
| InstantLaws.DurationSinceExamples | src/lib.rs:520-536 | 2 since MAX is 3, 2 since MAX-1 is 4, 2 since 3 is `None`, 10 - 5 is 5 |
| InstantLaws.InstantDurationExamples | src/lib.rs:599-605 | at 1/1000 s, 10 + 1 is 11 and 10 - 1 is 9 |
| InstantLaws.InstantMillisExamples | src/lib.rs:615-620 | at 1/10000 s, 10 ticks plus or minus `millis(1)` are 20 and 0 |
| Rates.FromRaw | src/rate.rs:26-44 | `from_raw(r).raw() == r`; both scale components pass `greater_than_0` |
| Rates.CheckedAdd | src/rate.rs:57-83 | defined whenever the division is reached with a nonzero divisor; `Some` iff the rescale multiply and the sum fit, and then raw is `a + Rescale(b)` |
| Rates.CheckedSub | src/rate.rs:96-122 | defined whenever the division is reached with a nonzero divisor; `Some` iff the rescale multiply fits and `Rescale(b) <= a`, and then raw is `a - Rescale(b)` |
| Rates.ConstTryInto | src/rate.rs:211-231 | `Some` iff `raw*RD_TIMES_LN` fits `u64` and the exact rescaled value fits `T`, and then it is that value |
| Rates.Convert | src/rate.rs:276-284 | the converted rate has the exact rescaled raw value |
| Rates.TryIntoDuration | src/rate.rs:242-253 | `None` iff `raw == 0`; otherwise a duration of ticks `⌊(Rd·Ld)/(Ln·Rn·raw)⌋` when the numerator fits |
| Rates.PeriodTicks | src/rate.rs:245-249 | the period count fits the width and, when `RATE_TO_DURATION_NUMERATOR` fits, is `⌊(Rd·Ld)/(Ln·Rn·raw)⌋` |
| Rates.PeriodExact | src/rate.rs:245-249 | `RATE_TO_DURATION_NUMERATOR / raw` is the single truncated division `(Rd·Ld)/(Ln·Rn·raw)` |
| Rates.IntoDuration | src/rate.rs:287-295 | the period duration of a nonzero rate, with the ticks above |
| Rates.HzFactorsFit | src/rate.rs:300-329 | against whole hertz the reduced factors fit every width, for every valid scale |
| Rates.Hz | src/rate.rs:324-329 | on every scale, `Hz(v)` has raw `⌊v·DENOM/NOM⌋` |
| Rates.KHz | src/rate.rs:334-339 | `kHz(v)` has raw `⌊1000·v·DENOM/NOM⌋` |
| Rates.MHz | src/rate.rs:344-349 | `MHz(v)` has raw `⌊10^6·v·DENOM/NOM⌋` |
| Rates.ToHz | src/rate.rs:300-303 | on every scale, `to_Hz()` is `⌊raw·NOM/DENOM⌋` |
| Rates.ToKHz | src/rate.rs:308-311 | `to_kHz()` is `⌊raw·NOM/(1000·DENOM)⌋` |
| Rates.ToMHz | src/rate.rs:316-319 | `to_MHz()` is `⌊raw·NOM/(10^6·DENOM)⌋` |
| Rates.ConstPartialCmp | src/rate.rs:146-167 | `None` iff a scaled product overflows, otherwise the exact order of the two frequencies |
| Rates.OrdCmp | src/rate.rs:361-366 | within one type, the order of the raw values, agreeing with `const_partial_cmp` |
| Rates.ConstEq | src/rate.rs:179-200 | on every input, equal iff `const_partial_cmp` says `Equal`; within one type, iff the raw values are equal |
| Rates.Add | src/rate.rs:398-411 | same-type sum of the raw values |
| Rates.Sub | src/rate.rs:381-394 | same-type difference of the raw values |
| Rates.Mul | src/rate.rs:424-443 | by a positive factor the raw value never shrinks and divides back exactly to the original; by 0 it is 0 |
| Rates.Div | src/rate.rs:456-464 | the quotient `q` satisfies `q*k <= raw < (q+1)*k` |
| Rates.DivRate | src/rate.rs:467-477 | `a / b` is the `q` with `q*b <= Rescale(a, b's scale) < (q+1)*b` |
| Rates.Widen | src/rate.rs:532-537 | widening to `u64` keeps scale and raw value |
| Rates.TryNarrow | src/rate.rs:539-550 | narrowing succeeds iff raw fits `u32`, and widening the result gives the input back |
| Rates.AddWide | src/rate.rs:579-590 | `u64 + u32` of one scale is the plain sum |
| Rates.SubWide | src/rate.rs:554-565 | `u64 - u32` of one scale is the plain difference |
| Rates.PartialCmpWide | src/rate.rs:602-609 | `u64` against `u32`: `None` iff a 64-bit product overflows, otherwise the exact order |
| Rates.PartialCmpNarrow | src/rate.rs:620-627 | `u32` against `u64`: the same |
| Rates.EqWide | src/rate.rs:611-618 | `u64 == u32` iff the mixed comparison says `Equal` |
| Rates.EqNarrow | src/rate.rs:629-636 | `u32 == u64` iff the mixed comparison says `Equal` |
| RateLaws.SubUndoesAdd | src/rate.rs:57-122 | whenever the division is reached with a nonzero divisor, `checked_add(a,b) == Some(s)` implies `checked_sub(s,b) == Some(a)` |
| RateLaws.AddUndoesSub | src/rate.rs:57-122 | whenever the division is reached with a nonzero divisor, `checked_sub(a,b) == Some(s)` implies `checked_add(s,b) == Some(a)` |
| RateLaws.ConvertRoundTrip | src/rate.rs:211-231 | a rate that converts always converts back, never gains, and is lossless when the first step did not round |
| RateLaws.PartialCmpSwap | src/rate.rs:146-200 | on every input, swapping operands reverses `const_partial_cmp` (keeping `None`) and keeps `const_eq` |
| RateLaws.DivUndoesMul | src/rate.rs:435-464 | `(r * k) / k == r` |
| RateLaws.NarrowUndoesWiden | src/rate.rs:532-550 | narrowing a widened rate gives it back |
| RateLaws.HzRoundTrip | src/rate.rs:300-329 | on every scale, `to_Hz(Hz(v)) <= v`, with equality when the scale holds `v` hertz exactly |
| RateLaws.UnitsAtMatchingScale | src/rate.rs:300-349 | at scales 1/1, 1000/1 and 10^6/1 the matching constructor and accessor are the identity |
| RateLaws.FasterRateShorterPeriod | src/rate.rs:242-253 | of two nonzero rates of one type, the faster never has the longer period |
| RateLaws.CheckedExamples | src/rate.rs:46-55 | 1+2 = 3, 1+MAX overflows, 2-1 = 1, 1-MAX underflows |
| RateLaws.ConvertExamples | src/rate.rs:202-231 | 1@1/100 → 10@1/1000, compares `Greater` than 1@1/1000 and equal to 10@1/1000; `MAX-10`@1/100 does not fit 1/200 |
| RateLaws.PeriodExamples | src/rate.rs:233-253 | 1 Hz has a period of 1000 ms, 0 Hz has none, 4 kHz has 250 µs |
| RateLaws.HertzExamples | src/rate.rs:300-349 | `Hz`, `kHz`, `MHz`, `to_Hz`, `to_kHz`, `to_MHz` at 1/1000 Hz |
| RateLaws.ConversionWidthExample | src/rate.rs:217-226 | 2^31 counts from 1/2 to 1/3 in `u32`: `None` for a duration, `Some(3·2^30)` for a rate |

## Left out

- `Display` and `defmt::Format` (src/duration.rs:357-397, src/instant.rs:284-323, src/rate.rs:489-521): presentation only.
- `ExtU32`/`ExtU64` (src/duration.rs:494-528, src/rate.rs:638-706): one-line forwards to the shorthands, which are modelled.
- src/aliases.rs, src/clock.rs and the module wiring of src/lib.rs: no behaviour; src/clock.rs is not part of this model.
- The `gcd` crate's binary algorithm: `Divisibility.Gcd` is Euclid's, and the model proves only what the result is, not how it is found.
- The compile-time `Assert` machinery and const generics (src/helpers.rs:54-80): scales are run-time pairs with a validity precondition.
- Debug-build overflow panics and release-build wrap-around of the unchecked `*` and `/` (the operators and the shorthands): the model requires that they do not overflow and that divisors are nonzero.
- The compound assignment operators and `u32 * Duration` / `u32 * Rate`: each is its operator's member.
- Panic messages.
- CrossBase.OtherInBase: exact only when the reduced factors fit the width (`CrossBase.OtherInBaseExact`); otherwise only the bound is stated, because the truncated factor makes the result an artefact of the cast.
- CrossBase.AddInBase: exact only when the reduced factors fit the width, for the same reason.
- CrossBase.SubInBase: exact only when the reduced factors fit the width, for the same reason.
- CrossBase.CmpInBase: exact only when the reduced factors fit the width, for the same reason.
- CrossBase.EqInBase: exact only when the reduced factors fit the width, for the same reason.
- CrossBase.IntoInOwnWidth: exact only when the reduced factors fit the width (`CrossBase.IntoInOwnWidthExact`), for the same reason.
- Durations.CheckedAdd: exact only when the reduced factors fit the width; otherwise only the bound is stated, because the truncated factor makes the result an artefact of the cast (see `DurationLaws.WrongCastExample`).
- Durations.CheckedSub: exact only when the reduced factors fit the width, for the same reason.
- Durations.CheckedInto: exact only when the reduced factors fit the width, for the same reason.
- Durations.Convert: exact only when the reduced factors fit the width, for the same reason.
- Durations.PartialCmp: exact only when the reduced factors fit the width, for the same reason.
- Durations.Eq: its agreement with `partial_cmp` holds on every input; only the exact-value reading through `partial_cmp` needs fitting factors, for the same reason.
- Durations.Add: exact only when the reduced factors fit the width, for the same reason.
- Durations.Sub: exact only when the reduced factors fit the width, for the same reason.
- Durations.Shorthand: exact only when the reduced factors fit the width, for the same reason.
- Durations.Micros: exact only when the reduced factors fit the width, for the same reason.
- Durations.Millis: exact only when the reduced factors fit the width, for the same reason.
- Durations.Secs: exact only when the reduced factors fit the width, for the same reason.
- Durations.Minutes: exact only when the reduced factors fit the width, for the same reason.
- Durations.Hours: exact only when the reduced factors fit the width, for the same reason.
- Instants.CheckedSubDuration: exact only when the reduced factors fit the width, for the same reason.
- Instants.CheckedAddDuration: exact only when the reduced factors fit the width, for the same reason.
- Rates.CheckedAdd: exact only when the reduced factors fit the width, for the same reason.
- Rates.CheckedSub: exact only when the reduced factors fit the width, for the same reason.
- Rates.ConstPartialCmp: exact only when the reduced factors fit the width, for the same reason.
- Rates.ConstEq: its agreement with `const_partial_cmp` holds on every input; only the exact-value reading needs fitting factors, for the same reason.
- Rates.KHz: exact only when the reduced factors fit the width, for the same reason.
- Rates.MHz: exact only when the reduced factors fit the width, for the same reason.
- Rates.ToKHz: exact only when the reduced factors fit the width, for the same reason.
- Rates.ToMHz: exact only when the reduced factors fit the width, for the same reason.
- Rates.TryIntoDuration: the tick count is stated only when `RATE_TO_DURATION_NUMERATOR` fits the width; otherwise its `as T` cast truncates and only the `None`-iff-zero behaviour is stated.
- Rates.IntoDuration: the tick count is stated only when `RATE_TO_DURATION_NUMERATOR` fits the width, for the same reason.
- DurationLaws.ConvertRoundTrip: stated only when the reduced factors fit the width both ways; otherwise the way back can divide by zero (`DurationLaws.ConvertBackZeroCastExample`).
