/** When NUMERIC(p, s) values fit the i128 decoder, and how they are rescaled to a column. */
module NumericBound {
  import opened Base
  import opened Numeric
  import opened NumericExact
  import opened NumericFormat
  import opened NumericWrap

  // ── Valid digits never overflow midway ──────────────────────────────────

  lemma {:induction false} HornerGrows(d: seq<int>)
    requires IsDigits(d)
    ensures Horner(d) >= 0
    ensures d != [] ==> Horner(d[..|d| - 1]) <= NBASE * Horner(d[..|d| - 1]) <= Horner(d)
  {
    if d != [] {
      HornerGrows(d[..|d| - 1]);
    }
  }

  /** With digits in range, the loop stays in i128 exactly when its result does. */
  lemma {:induction false} HornerFitsIffTotalFits(d: seq<int>)
    requires IsDigits(d)
    ensures HornerFits(d) <==> Horner(d) <= I128_MAX
  {
    if d != [] {
      HornerFitsIffTotalFits(d[..|d| - 1]);
      HornerGrows(d);
      HornerGrows(d[..|d| - 1]);
    }
  }

  /** The accumulation and the power of ten that moves it to the payload's scale are in i128. */
  predicate FitsI128(h: Numeric.Header) {
    h.digits == [] || (!NeedsLargePower(h) && Horner(h.digits) <= I128_MAX)
  }

  /** For every payload with base-10000 digits: it decodes exactly when it fits in 128 bits,
      and then to sign * trunc(N * 10^dscale), clamped. */
  lemma NumericDecodesIff(bytes: seq<byte>)
    requires ParseHeader(bytes).Some? && IsDigits(ParseHeader(bytes).value.digits)
    ensures var h := ParseHeader(bytes).value;
            DecodedI128(bytes) ==
            if FitsI128(h) then Number(Negate(h.neg, Min(ScaledMagnitude(h, h.dscale), I128_MAX)), AsI8(h.dscale))
            else Overflow
  {
    var h := ParseHeader(bytes).value;
    HornerFitsIffTotalFits(h.digits);
    HornerNonNegative(h.digits);
    ScaledMagnitudeIsRescaled(h, h.dscale);
    RescaledNonNegative(Horner(h.digits), NaturalScale(h), h.dscale);
    if FitsI128(h) {
      FittingValue(h);
      NumericIsExact(bytes);
    }
  }

  /** Neither the product nor the sum that digit `k` brings leaves i128. */
  predicate StepFits(d: seq<int>, k: nat)
    requires k < |d|
  {
    InI128(10_000 * Horner(d[..k])) && InI128(10_000 * Horner(d[..k]) + d[k])
  }

  predicate StepsFit(d: seq<int>) { forall k :: 0 <= k < |d| ==> StepFits(d, k) }

  lemma {:induction false} StepsFitIff(d: seq<int>)
    ensures HornerFits(d) <==> StepsFit(d)
  {
    if d != [] {
      var init := d[..|d| - 1];
      StepsFitIff(init);
      forall k: nat | k < |init| ensures StepFits(init, k) <==> StepFits(d, k) {
        assert init[..k] == d[..k];
      }
      assert HornerFits(d) <==> HornerFits(init) && StepFits(d, |init|);
    }
  }

  /** Whatever its digits, a payload overflows iff an operation of the loop does, it needs a
      power of ten beyond i128, or the least i128 would have to be negated; any other decodes
      to an i128. */
  lemma OverflowsIff(h: Numeric.Header)
    ensures ValueI128(h) == Overflow <==>
            h.digits != [] && (!StepsFit(h.digits) || NeedsLargePower(h)
                               || (h.neg && ScaledMagnitude(h, h.dscale) <= I128_MIN))
    ensures ValueI128(h) != Overflow ==> ValueI128(h).Number? && InI128(ValueI128(h).value)
  {
    StepsFitIff(h.digits);
    if h.digits != [] && HornerFits(h.digits) && !NeedsLargePower(h) {
      ScaledMagnitudeIsRescaled(h, h.dscale);
      if NaturalScale(h) > h.dscale {
        TruncDivShrinks(Horner(h.digits), Pow10(NaturalScale(h) - h.dscale));
      }
    }
  }

  lemma MovedNonNegative(x: nat, p: nat)
    requires p > 0
    ensures x * p >= 0 && x / p >= 0
  {
  }

  lemma RescaledNonNegative(x: nat, n: int, s: int)
    ensures Rescaled(x, n, s) >= 0
  {
    MovedNonNegative(x, if s >= n then Pow10(s - n) else Pow10(n - s));
  }

  lemma FittingValue(h: Numeric.Header)
    requires IsDigits(h.digits) && HornerFits(h.digits) && FitsI128(h)
    ensures ValueI128(h).Number?
  {
    HornerNonNegative(h.digits);
    RescaledNonNegative(Horner(h.digits), NaturalScale(h), h.dscale);
  }

  lemma WholeIff(x: nat, k: nat)
    ensures (x / Pow10(k)) as real == Shift(x as real, 0 - k) <==> x % Pow10(k) == 0
  {
    var q, y := x / Pow10(k), Shift(x as real, 0 - k);
    ShiftTwice(x as real, 0 - k, k);
    ShiftOfInt(q, k);
    ShiftMonotone(y, q as real, k);
    ShiftMonotone(q as real, y, k);
    assert x == q * Pow10(k) + x % Pow10(k);
  }

  /** Truncating the value at scale s loses nothing exactly when the accumulation has no
      decimals below s. */
  lemma NothingIsCutIff(h: Numeric.Header, s: int)
    requires IsDigits(h.digits)
    ensures ScaledMagnitude(h, s) as real == Shift(Magnitude(h.digits, h.weight), s) <==>
            s >= NaturalScale(h) || Horner(h.digits) % Pow10(NaturalScale(h) - s) == 0
  {
    var x, n := Horner(h.digits), NaturalScale(h);
    HornerIsMagnitude(h.digits, h.weight);
    ScaledMagnitudeIsRescaled(h, s);
    HornerNonNegative(h.digits);
    ShiftTwice(x as real, -n, s);
    if s >= n {
      ShiftOfInt(x, s - n);
    } else {
      WholeIff(x, n - s);
    }
  }

  // ── Values of a NUMERIC(p, s) column ────────────────────────────────────

  /** Normalised, with dscale = s, and standing for m / 10^s with an m below 10^p. */
  ghost predicate Stores(h: Numeric.Header, p: nat, s: nat, m: nat) {
    && IsDigits(h.digits) && h.dscale == s
    && (h.digits != [] ==> h.digits[0] != 0 && h.digits[|h.digits| - 1] != 0)
    && m < Pow10(p)
    && Magnitude(h.digits, h.weight) == Shift(m as real, 0 - s)
  }

  /** What PostgreSQL stores in a NUMERIC(p, s) column for the value m / 10^s. */
  ghost predicate StoredAs(bytes: seq<byte>, p: nat, s: nat, m: nat) {
    ParseHeader(bytes).Some? && Stores(ParseHeader(bytes).value, p, s, m)
  }

  /** Decimal places from scale `s` up to the next base-10000 digit boundary. */
  function Slack(s: nat): (r: nat)
    ensures r < 4 && (s + r) % 4 == 0
  {
    (4 - s % 4) % 4
  }

  /** In integers: the accumulation is m moved to the natural scale, one way or the other. */
  lemma StoredInIntegers(h: Numeric.Header, s: nat, m: nat)
    requires Magnitude(h.digits, h.weight) == Shift(m as real, 0 - s)
    ensures var n := NaturalScale(h);
            if n <= s then Horner(h.digits) * Pow10(s - n) == m else m * Pow10(n - s) == Horner(h.digits)
  {
    var n, x := NaturalScale(h), Horner(h.digits);
    HornerIsMagnitude(h.digits, h.weight);
    if n <= s {
      ShiftTwice(x as real, -n, s);
      ShiftTwice(m as real, 0 - s, s);
      ShiftOfInt(x, s - n);
    } else {
      ShiftTwice(x as real, -n, n);
      ShiftTwice(m as real, 0 - s, n);
      ShiftOfInt(m, n - s);
    }
  }

  lemma LastDigitSurvives(d: seq<int>)
    requires IsDigits(d) && d != [] && d[|d| - 1] != 0
    ensures Horner(d) % NBASE != 0
  {
    var q, last := Horner(d[..|d| - 1]), d[|d| - 1];
    assert (NBASE * q + last) % NBASE == last;
  }

  lemma {:induction false} Pow10Adds(j: nat, k: nat)
    ensures Pow10(j + k) == Pow10(j) * Pow10(k)
  {
    if k > 0 {
      Pow10Adds(j, k - 1);
      TimesTen(Pow10(j), Pow10(k - 1), Pow10(k));
    }
  }

  /** Normalisation leaves at most `Slack(s)` decimals below scale s. */
  lemma NaturalScaleBound(h: Numeric.Header, s: nat, m: nat)
    requires IsDigits(h.digits) && h.digits != [] && h.digits[|h.digits| - 1] != 0
    requires NaturalScale(h) > s ==> m * Pow10(NaturalScale(h) - s) == Horner(h.digits)
    ensures NaturalScale(h) <= s + Slack(s)
  {
    var n := NaturalScale(h);
    LastDigitSurvives(h.digits);
    if n >= s + 4 {
      var k := n - s - 4;
      Pow10Adds(k, 4);
      assert Pow10(4) == NBASE;
      MultipleOf(m, Pow10(k), Pow10(n - s), Horner(h.digits));
      assert false;
    }
    assert n % 4 == 0;
  }

  lemma MultipleOf(m: nat, p: nat, q: nat, x: nat)
    requires q == p * NBASE && m * q == x
    ensures x % NBASE == 0
  {
    assert x == (m * p) * NBASE;
  }

  lemma TimesMonotone(x: nat, y: nat, p: nat)
    requires x <= y
    ensures x * p <= y * p
  {
  }

  lemma TimesStrict(x: nat, y: nat, p: nat)
    requires x < y && p > 0
    ensures x * p < y * p
  {
  }

  lemma FactorsBound(x: nat, p: nat, m: nat)
    requires x * p == m && x > 0 && p > 0
    ensures x <= m && p <= m
  {
    TimesMonotone(1, p, x);
    TimesMonotone(1, x, p);
  }

  lemma {:induction false} HornerPositive(d: seq<int>)
    requires IsDigits(d) && d != [] && d[0] != 0
    ensures Horner(d) > 0
  {
    if |d| > 1 {
      HornerPositive(d[..|d| - 1]);
    } else {
      assert d[..0] == [];
    }
  }

  /** A nonzero value of the column, in integers: accumulation `x` with natural scale `n`. */
  ghost predicate Nonzero(h: Numeric.Header, s: nat, m: nat) {
    && IsDigits(h.digits) && h.digits != [] && h.digits[0] != 0 && h.digits[|h.digits| - 1] != 0
    && var n := NaturalScale(h);
    if n <= s then Horner(h.digits) * Pow10(s - n) == m else m * Pow10(n - s) == Horner(h.digits)
  }

  /** The accumulation of a column value is below 10^(p + slack). */
  lemma HornerBound(h: Numeric.Header, p: nat, s: nat, m: nat)
    requires Nonzero(h, s, m) && m < Pow10(p)
    ensures 0 < Horner(h.digits) < Pow10(p + Slack(s))
  {
    var n, x := NaturalScale(h), Horner(h.digits);
    NaturalScaleBound(h, s, m);
    HornerPositive(h.digits);
    if n <= s {
      FactorsBound(x, Pow10(s - n), m);
      Pow10Grows(p, p + Slack(s));
    } else {
      var k := n - s;
      Pow10Adds(p, k);
      TimesStrict(m, Pow10(p), Pow10(k));
      Pow10Grows(p + k, p + Slack(s));
    }
  }

  /** The power of ten used is small and the rescaled accumulation is m. */
  lemma RescaleGivesValue(h: Numeric.Header, s: nat, m: nat)
    requires Nonzero(h, s, m) && m < Pow10(38)
    ensures -38 <= s - NaturalScale(h) <= 38
    ensures Rescaled(Horner(h.digits), NaturalScale(h), s) == m
  {
    var n, x := NaturalScale(h), Horner(h.digits);
    NaturalScaleBound(h, s, m);
    HornerPositive(h.digits);
    if n <= s {
      FactorsBound(x, Pow10(s - n), m);
      if s - n > 38 { Pow10Grows(38, s - n); }
    } else {
      DivUndoesTimes(m, Pow10(n - s));
    }
  }

  lemma DivUndoesTimes(m: nat, p: nat)
    requires p > 0
    ensures TruncDiv(m * p, p) == m
  {
    QuotientBounds(m * p, p);
    var q := m * p / p;
    if q < m { TimesMonotone(q + 1, m, p); }
    if q > m { TimesStrict(m, q, p); }
  }

  lemma I128Decodes(h: Numeric.Header, m: nat)
    requires IsDigits(h.digits) && h.digits != [] && m <= I128_MAX && Horner(h.digits) <= I128_MAX
    requires !NeedsLargePower(h) && Rescaled(Horner(h.digits), NaturalScale(h), h.dscale) == m
    ensures ValueI128(h) == Number(Negate(h.neg, m), AsI8(h.dscale))
  {
    HornerFitsIffTotalFits(h.digits);
  }

  /** A stored value without digits is zero; any other is bounded by precision and slack. */
  lemma StoredIsBounded(h: Numeric.Header, p: nat, s: nat, m: nat)
    requires Stores(h, p, s, m)
    ensures h.digits == [] ==> m == 0
    ensures h.digits != [] ==>
              && Nonzero(h, s, m) && NaturalScale(h) <= s + Slack(s) && 0 < Horner(h.digits) < Pow10(p + Slack(s))
  {
    StoredInIntegers(h, s, m);
    if h.digits == [] {
      EmptyIsZero(h, s, m);
    } else {
      HornerBound(h, p, s, m);
      NaturalScaleBound(h, s, m);
    }
  }

  /** In either direction, the accumulation is m moved by the gap, and m is the value at the
      column's scale. */
  lemma StoredValue(h: Numeric.Header, p: nat, s: nat, m: nat)
    requires Stores(h, p, s, m)
    ensures ScaledMagnitude(h, s) == m
    ensures h.digits == [] ==> m == 0
    ensures h.digits != [] ==>
              Gap(h) >= -3 && if Gap(h) >= 0 then Horner(h.digits) * Pow10(Gap(h)) == m
                              else m * Pow10(-Gap(h)) == Horner(h.digits)
  {
    StoredIsBounded(h, p, s, m);
    ScaledMagnitudeIsRescaled(h, s);
    if h.digits == [] {
      ShiftZero(s);
    } else if Gap(h) < 0 {
      DivUndoesTimes(m, Pow10(-Gap(h)));
    }
  }

  lemma ValueDecodes(h: Numeric.Header, p: nat, s: nat, m: nat)
    requires p + Slack(s) <= 38 && Stores(h, p, s, m)
    ensures ValueI128(h) == ValueI256(h) == Number(Negate(h.neg, m), AsI8(s))
  {
    StoredIsBounded(h, p, s, m);
    StoredValue(h, p, s, m);
    if h.digits != [] {
      Pow10At38();
      Pow10Grows(p, 38);
      Pow10Grows(p + Slack(s), 38);
      RescaleGivesValue(h, s, m);
      I128Decodes(h, m);
    }
    I256IsExactIff(h);
  }

  /** NUMERIC(p, s) with p + slack(s) <= 38 always decodes: no step leaves i128, nothing
      saturates, the result is exactly m, and both decoders return it; its scale is
      reported truncated to i8. */
  lemma ColumnDecodes(bytes: seq<byte>, p: nat, s: nat, m: nat)
    requires p + Slack(s) <= 38 && StoredAs(bytes, p, s, m)
    ensures DecodedI128(bytes) == Number(Negate(ParseHeader(bytes).value.neg, m), AsI8(s))
    ensures DecodedI256(bytes) == DecodedI128(bytes)
  {
    ValueDecodes(ParseHeader(bytes).value, p, s, m);
  }

  lemma EmptyIsZero(h: Numeric.Header, s: nat, m: nat)
    requires h.digits == []
    requires var n := NaturalScale(h);
             if n <= s then Horner(h.digits) * Pow10(s - n) == m else m * Pow10(n - s) == Horner(h.digits)
    ensures m == 0
  {
    if NaturalScale(h) > s && m > 0 {
      TimesStrict(0, m, Pow10(NaturalScale(h) - s));
    }
  }

  // ── ... and no other column type is safe ────────────────────────────────

  /** Base-10000 digits of a positive number, most significant first. */
  function ToDigits(x: nat): (d: seq<int>)
    ensures IsDigits(d)
    ensures x > 0 ==> d != [] && d[0] != 0 && d[|d| - 1] == x % NBASE
    ensures x == 0 ==> d == []
  {
    if x == 0 then [] else ToDigits(x / NBASE) + [x % NBASE]
  }

  lemma {:induction false} HornerOfDigits(x: nat)
    ensures Horner(ToDigits(x)) == x
  {
    if x > 0 {
      HornerOfDigits(x / NBASE);
      assert ToDigits(x)[..|ToDigits(x)| - 1] == ToDigits(x / NBASE);
    }
  }

  lemma {:induction false} DigitCount(x: nat, n: nat)
    requires x < Pow10(4 * n)
    ensures |ToDigits(x)| <= n
  {
    if x > 0 {
      assert n > 0;
      Pow10Adds(4 * (n - 1), 4);
      assert Pow10(4) == NBASE;
      DivLess(x, Pow10(4 * (n - 1)), Pow10(4 * n));
      DigitCount(x / NBASE, n - 1);
    }
  }

  lemma DivLess(x: nat, p: nat, q: nat)
    requires q == p * NBASE && x < q
    ensures x / NBASE < p
  {
  }

  function Nines(p: nat): nat { Pow10(p) - 1 }

  /** 99..9 (p nines) followed by r zeros. */
  function PaddedNines(p: nat, r: nat): nat {
    Pow10Grows(r, p + r);
    Pow10(p + r) - Pow10(r)
  }

  /** The largest value of NUMERIC(p, s), as PostgreSQL stores it. */
  function Largest(p: nat, s: nat): Numeric.Header {
    var d := ToDigits(PaddedNines(p, Slack(s)));
    Header(d, |d| - 1 - (s + Slack(s)) / 4, s, false)
  }

  lemma LastNineSurvives(y: nat, r: nat, x: nat)
    requires y % 10 == 9 && r < 4 && x == y * Pow10(r)
    ensures x % NBASE != 0 && x > 0
  {
    assert Pow10(1) == 10 && Pow10(2) == 100 && Pow10(3) == 1000;
  }

  lemma NinesEndInNine(p: nat)
    requires p > 0
    ensures Nines(p) % 10 == 9
  {
    assert Pow10(p) == 10 * Pow10(p - 1);
  }

  lemma LargestProduct(p: nat, r: nat)
    ensures PaddedNines(p, r) == Nines(p) * Pow10(r)
  {
    Pow10Adds(p, r);
    Distribute(Pow10(p), Pow10(r));
  }

  lemma Distribute(x: nat, y: nat)
    requires x > 0
    ensures (x - 1) * y == x * y - y
  {
  }

  lemma LargestHasFewDigits(p: nat, r: nat)
    requires p <= 39 && r < 4
    ensures |ToDigits(PaddedNines(p, r))| <= 11
  {
    Pow10Grows(p + r, 44);
    DigitCount(PaddedNines(p, r), 11);
  }

  lemma LargestIsEncodable(p: nat, s: nat)
    requires 0 < p <= 39 && s < 0x4000
    ensures LongForm(Largest(p, s)) && IsDigits(Largest(p, s).digits)
  {
    LargestHasFewDigits(p, Slack(s));
  }

  lemma LargestMagnitude(p: nat, s: nat)
    ensures Magnitude(Largest(p, s).digits, Largest(p, s).weight) == Shift(Nines(p) as real, 0 - s)
  {
    var h, r := Largest(p, s), Slack(s);
    HornerOfDigits(PaddedNines(p, r));
    LargestProduct(p, r);
    HornerIsMagnitude(h.digits, h.weight);
    assert 4 * (h.weight - (|h.digits| - 1)) == 0 - (s + r);
    ShiftOfInt(Nines(p), r);
    ShiftTwice(Nines(p) as real, r, 0 - (s + r));
  }

  lemma LargestIsStored(p: nat, s: nat)
    requires 0 < p <= 39 && s < 0x4000
    ensures LongForm(Largest(p, s)) && IsDigits(Largest(p, s).digits)
    ensures StoredAs(Encode(Largest(p, s)), p, s, Nines(p))
  {
    LargestIsEncodable(p, s);
    ParseInvertsEncode(Largest(p, s));
    NinesEndInNine(p);
    LargestProduct(p, Slack(s));
    LastNineSurvives(Nines(p), Slack(s), PaddedNines(p, Slack(s)));
    LargestMagnitude(p, s);
  }

  lemma PaddedNinesIsTooLarge(p: nat, r: nat)
    requires p + r > 38 && r < 4
    ensures PaddedNines(p, r) > I128_MAX
  {
    Pow10At38();
    Pow10Grows(39, p + r);
    assert Pow10(3) == 1000;
    Pow10Grows(r, 3);
  }

  lemma LargestOverflows(p: nat, s: nat)
    requires 0 < p <= 39 && s < 0x4000 && p + Slack(s) > 38
    ensures LongForm(Largest(p, s)) && IsDigits(Largest(p, s).digits)
    ensures DecodedI128(Encode(Largest(p, s))) == Overflow
  {
    LargestIsEncodable(p, s);
    var h, r := Largest(p, s), Slack(s);
    ParseInvertsEncode(h);
    HornerOfDigits(PaddedNines(p, r));
    PaddedNinesIsTooLarge(p, r);
    HornerFitsIffTotalFits(h.digits);
  }

  /** Beyond 39 digits, the largest value of 39 digits will do. */
  lemma OverflowIsStored(p: nat, s: nat) returns (bytes: seq<byte>, m: nat)
    requires s < 0x4000 && p + Slack(s) > 38
    ensures StoredAs(bytes, p, s, m) && DecodedI128(bytes) == Overflow
  {
    var q := Min(p, 39);
    LargestIsStored(q, s);
    LargestOverflows(q, s);
    bytes, m := Encode(Largest(q, s)), Nines(q);
    StoredInWider(bytes, q, p, s, m);
  }

  lemma StoredInWider(bytes: seq<byte>, q: nat, p: nat, s: nat, m: nat)
    requires q <= p && StoredAs(bytes, q, s, m)
    ensures StoredAs(bytes, p, s, m)
  {
    Pow10Grows(q, p);
  }

  lemma ZeroIsStored(p: nat, s: nat)
    requires s < 0x4000
    ensures var h := Header([], 0, s, false);
            ParseHeader(Encode(h)) == Some(h) && StoredAs(Encode(h), p, s, 0)
  {
    ParseInvertsEncode(Header([], 0, s, false));
    ShiftZero(0 - s);
  }

  /** A NUMERIC(p, s) column decodes all its values, exactly, in 128 bits iff p plus the
      decimals missing to a base-10000 digit boundary is at most 38 and s fits in an i8. So
      NUMERIC(38, s) is safe only when 4 divides s. */
  lemma NumericColumnIsSafeIff(p: nat, s: nat)
    requires s < 0x4000
    ensures p + Slack(s) <= 38 && s < 128 <==>
            (forall bytes, m: nat :: StoredAs(bytes, p, s, m) ==>
              DecodedI128(bytes) == Number(Negate(ParseHeader(bytes).value.neg, m), s))
  {
    I8RoundTrip(s);
    if p + Slack(s) > 38 {
      var bytes, m := OverflowIsStored(p, s);
    } else if s < 128 {
      forall bytes, m: nat | StoredAs(bytes, p, s, m)
        ensures DecodedI128(bytes) == Number(Negate(ParseHeader(bytes).value.neg, m), s)
      {
        ColumnDecodes(bytes, p, s, m);
      }
    } else {
      ZeroIsStored(p, s);
      assert StoredAs(Encode(Header([], 0, s, false)), p, s, 0);
    }
  }
}
