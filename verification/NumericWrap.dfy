/** When the wrapping 256-bit decoder is exact (src/types/arrow.rs:149-176). */
module NumericWrap {
  import opened Base
  import opened Numeric
  import opened NumericExact
  import opened NumericFormat

  // ── Wrapping is a ring homomorphism ──────────────────────────────────────

  lemma WrapIsShift(x: int) returns (q: int)
    ensures Wrap256(x) == x + q * I256_MODULUS
    ensures q == 0 <==> InI256(x)
  {
    q := -((x + I256_HALF) / I256_MODULUS);
  }

  lemma ShiftedWrapsAlike(x: int, q: int)
    ensures Wrap256(x + q * I256_MODULUS) == Wrap256(x)
  {
    var a := WrapIsShift(x);
    var b := WrapIsShift(x + q * I256_MODULUS);
  }

  /** Wrapping an intermediate result changes nothing once the whole is wrapped. */
  lemma WrapInside(x: int, k: int, c: int)
    ensures Wrap256(Wrap256(x) * k + c) == Wrap256(x * k + c)
  {
    var q := WrapIsShift(x);
    Regroup(x, q, I256_MODULUS, k, c);
    ShiftedWrapsAlike(x * k + c, q * k);
  }

  lemma Regroup(x: int, q: int, m: int, k: int, c: int)
    ensures (x + q * m) * k + c == x * k + c + q * k * m
  {
  }

  /** However often the accumulation wraps, its result is the exact one, wrapped once. */
  lemma {:induction false} HornerWrapIsWrapped(d: seq<int>)
    ensures HornerWrap(d) == Wrap256(Horner(d))
  {
    if d != [] {
      var init, last := d[..|d| - 1], d[|d| - 1];
      HornerWrapIsWrapped(init);
      WrapInside(Horner(init), NBASE, 0);
      WrapInside(Horner(init) * NBASE, 1, last);
    }
  }

  // ── Quotients ────────────────────────────────────────────────────────────

  lemma QuotientWithin(n: nat, p: nat)
    requires p > 0
    ensures n - p < n / p * p <= n
  {
  }

  lemma TruncDivBounds(x: int, p: nat)
    requires p > 0
    ensures if x >= 0 then x - p < TruncDiv(x, p) * p <= x else x <= TruncDiv(x, p) * p < x + p
  {
    var n := if x >= 0 then x else -x;
    QuotientWithin(n, p);
    TimesOfNegation(x < 0, n / p, p);
  }

  /** Numbers two divisors apart have different quotients. */
  lemma QuotientsApart(x: int, y: int, p: nat)
    requires p > 0 && x + 2 * p <= y
    ensures TruncDiv(x, p) != TruncDiv(y, p)
  {
    TruncDivBounds(x, p);
    TruncDivBounds(y, p);
  }

  /** Dividing a wrapped number gives the quotient of the exact one iff it did not wrap. */
  lemma WrappedQuotientIff(x: int, p: nat)
    requires 0 < p <= I256_HALF
    ensures TruncDiv(Wrap256(x), p) == TruncDiv(x, p) <==> InI256(x)
  {
    var q := WrapIsShift(x);
    if q > 0 {
      QuotientsApart(x, Wrap256(x), p);
    } else if q < 0 {
      QuotientsApart(Wrap256(x), x, p);
    }
  }

  lemma DivOfNegation(neg: bool, x: int, p: nat)
    requires p > 0
    ensures TruncDiv(Negate(neg, x), p) == Negate(neg, TruncDiv(x, p))
  {
    if x == 0 {
      assert 0 / p == 0;
    } else if neg {
      var y := -x;
      assert -y == x;
    }
  }

  lemma TimesOfNegation(neg: bool, x: int, p: nat)
    ensures Negate(neg, x) * p == Negate(neg, x * p)
  {
  }

  // ── The decoder ──────────────────────────────────────────────────────────

  /** How far the accumulation is moved to reach the payload's scale. */
  function Gap(h: Numeric.Header): int { h.dscale - NaturalScale(h) }

  predicate NeedsLargePower(h: Numeric.Header) { h.digits != [] && !(-MAX_POW10 <= Gap(h) <= MAX_POW10) }

  /** The accumulation, or its product with the power of ten, is a signed 256-bit integer. */
  predicate FitsI256(h: Numeric.Header) {
    h.digits == [] ||
    (!NeedsLargePower(h)
     && if Gap(h) >= 0 then InI256(Negate(h.neg, Horner(h.digits) * Pow10(Gap(h)))) else Horner(h.digits) < I256_HALF)
  }

  lemma PowerFits(k: nat)
    requires k <= MAX_POW10
    ensures Pow10(k) < I256_HALF
  {
    Pow10Fits(k);
  }

  /** A product wraps once, and a quotient is that of the wrapped accumulation. */
  function WrappedValue(h: Numeric.Header): int {
    if h.digits == [] then 0
    else if Gap(h) >= 0 then Wrap256(Negate(h.neg, Horner(h.digits) * Pow10(Gap(h))))
    else Negate(h.neg, TruncDiv(Wrap256(Horner(h.digits)), Pow10(-Gap(h))))
  }

  /** That is what every payload decodes to, unless it needs a power of ten beyond i128. */
  lemma ValueIsWrapped(h: Numeric.Header)
    ensures ValueI256(h) == if NeedsLargePower(h) then Overflow else Number(WrappedValue(h), AsI8(h.dscale))
  {
    if h.digits != [] && !NeedsLargePower(h) {
      SignedValueIsWrapped(h);
    }
  }

  lemma SignedValueIsWrapped(h: Numeric.Header)
    requires h.digits != [] && !NeedsLargePower(h)
    ensures ValueI256(h) == Number(WrappedValue(h), AsI8(h.dscale))
  {
    var x := Horner(h.digits);
    HornerWrapIsWrapped(h.digits);
    if Gap(h) >= 0 {
      var p := Pow10(Gap(h));
      WrapInside(x, p, 0);
      WrapInside(x * p, -1, 0);
    } else {
      var p := Pow10(-Gap(h));
      assert p == 10 * Pow10(-Gap(h) - 1);
      TruncDivBounds(Wrap256(x), p);
      QuotientIsSmall(Wrap256(x), p);
    }
  }

  lemma QuotientIsSmall(x: int, p: nat)
    requires p >= 10 && InI256(x)
    ensures InI256(TruncDiv(x, p)) && InI256(-TruncDiv(x, p))
  {
    var q := TruncDiv(x, p);
    TruncDivBounds(x, p);
    TenTimes(if q >= 0 then q else -q, p);
    TimesOfNegation(q < 0, q, p);
  }

  lemma TenTimes(q: nat, p: nat)
    requires p >= 10
    ensures 10 * q <= q * p
  {
  }

  lemma {:induction false} HornerNonNegative(d: seq<int>)
    requires IsDigits(d)
    ensures Horner(d) >= 0
  {
    if d != [] {
      HornerNonNegative(d[..|d| - 1]);
    }
  }

  /** For every payload with base-10000 digits: the decoder yields sign * trunc(N * 10^dscale)
      exactly when the payload fits in 256 bits. It fails only for a power of ten beyond
      i128; every other payload that does not fit yields a wrong number. */
  lemma I256IsExactIff(h: Numeric.Header)
    requires IsDigits(h.digits)
    ensures ValueI256(h) == Overflow <==> NeedsLargePower(h)
    ensures ValueI256(h) == Number(Negate(h.neg, ScaledMagnitude(h, h.dscale)), AsI8(h.dscale)) <==> FitsI256(h)
  {
    ScaledMagnitudeIsRescaled(h, h.dscale);
    if h.digits == [] {
      ShiftZero(h.dscale);
    } else if !NeedsLargePower(h) {
      ValueIsWrapped(h);
      HornerNonNegative(h.digits);
      if Gap(h) >= 0 {
        var q := WrapIsShift(Negate(h.neg, Horner(h.digits) * Pow10(Gap(h))));
      } else {
        PowerFits(-Gap(h));
        WrappedQuotientIff(Horner(h.digits), Pow10(-Gap(h)));
      }
    }
  }
}
