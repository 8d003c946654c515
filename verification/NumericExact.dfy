/** What the NUMERIC decoders compute, against the value a payload denotes. */
module NumericExact {
  import opened Base
  import opened Numeric

  // ── The denoted value ────────────────────────────────────────────────────

  /** x * 10^z, for any integer z. */
  ghost function Shift(x: real, z: int): real
    decreases if z < 0 then -z else z
  {
    if z == 0 then x else if z > 0 then 10.0 * Shift(x, z - 1) else Shift(x, z + 1) / 10.0
  }

  /** The sum of d[i] * 10000^(weight - i). */
  ghost function Magnitude(d: seq<int>, weight: int): real {
    if d == [] then 0.0
    else Magnitude(d[..|d| - 1], weight) + Shift(d[|d| - 1] as real, 4 * (weight - (|d| - 1)))
  }

  ghost function Truncate(x: real): int { if x >= 0.0 then x.Floor else -((-x).Floor) }

  lemma {:induction false} ShiftStep(x: real, z: int)
    ensures Shift(x, z + 1) == 10.0 * Shift(x, z)
  {
  }

  lemma {:induction false} ShiftTwice(x: real, y: int, z: int)
    ensures Shift(Shift(x, y), z) == Shift(x, y + z)
    decreases if z < 0 then -z else z
  {
    if z > 0 {
      ShiftTwice(x, y, z - 1);
      ShiftStep(x, y + z - 1);
    } else if z < 0 {
      ShiftTwice(x, y, z + 1);
      ShiftStep(x, y + z);
    }
  }

  lemma {:induction false} ShiftAdds(x: real, y: real, z: int)
    ensures Shift(x + y, z) == Shift(x, z) + Shift(y, z)
    decreases if z < 0 then -z else z
  {
    if z > 0 {
      ShiftAdds(x, y, z - 1);
    } else if z < 0 {
      ShiftAdds(x, y, z + 1);
    }
  }

  lemma {:induction false} ShiftMonotone(x: real, y: real, z: int)
    ensures x < y <==> Shift(x, z) < Shift(y, z)
    decreases if z < 0 then -z else z
  {
    if z > 0 {
      ShiftMonotone(x, y, z - 1);
    } else if z < 0 {
      ShiftMonotone(x, y, z + 1);
    }
  }

  lemma {:induction false} ShiftZero(z: int)
    ensures Shift(0.0, z) == 0.0
    decreases if z < 0 then -z else z
  {
    if z > 0 {
      ShiftZero(z - 1);
    } else if z < 0 {
      ShiftZero(z + 1);
    }
  }

  lemma {:induction false} ShiftNegates(x: real, z: int)
    ensures Shift(-x, z) == -Shift(x, z)
    decreases if z < 0 then -z else z
  {
    if z > 0 {
      ShiftNegates(x, z - 1);
    } else if z < 0 {
      ShiftNegates(x, z + 1);
    }
  }

  /** Integer Horner accumulation is the denoted value scaled by its implied decimal places. */
  lemma {:induction false} HornerIsMagnitude(d: seq<int>, weight: int)
    ensures Magnitude(d, weight) == Shift(Horner(d) as real, 4 * (weight - (|d| - 1)))
  {
    if d == [] {
      ShiftZero(4 * (weight - (|d| - 1)));
    } else {
      var init, last := d[..|d| - 1], d[|d| - 1];
      HornerIsMagnitude(init, weight);
      var z := 4 * (weight - (|d| - 1));
      var h := Horner(init) as real;
      assert 4 * (weight - (|init| - 1)) == 4 + z;
      ShiftTwice(h, 4, z);
      assert Shift(h, 4) == 10_000.0 * h by { ShiftFour(h); }
      ShiftAdds(10_000.0 * h, last as real, z);
      assert Horner(d) as real == 10_000.0 * h + last as real;
    }
  }

  lemma ShiftFour(x: real)
    ensures Shift(x, 4) == 10_000.0 * x
  {
    ShiftStep(x, 0);
    ShiftStep(x, 1);
    ShiftStep(x, 2);
    ShiftStep(x, 3);
  }

  // ── Integer scaling is shifting and truncating ──────────────────────────

  lemma {:induction false} ShiftOfInt(x: int, k: nat)
    ensures Shift(x as real, k) == (x * Pow10(k)) as real
  {
    if k > 0 {
      ShiftOfInt(x, k - 1);
      TimesTen(x, Pow10(k - 1), Pow10(k));
    }
  }

  lemma TimesTen(x: int, p: nat, q: nat)
    requires q == 10 * p
    ensures x * q == 10 * (x * p)
  {
  }

  lemma QuotientBounds(x: nat, p: nat)
    requires p > 0
    ensures x / p * p <= x < (x / p + 1) * p
  {
  }

  lemma DownShiftFloor(x: nat, k: nat)
    ensures Shift(x as real, 0 - k).Floor == x / Pow10(k)
    ensures Shift(x as real, 0 - k) >= 0.0
  {
    var q, y := x / Pow10(k), Shift(x as real, 0 - k);
    QuotientBounds(x, Pow10(k));
    ShiftTwice(x as real, 0 - k, k);
    ShiftOfInt(q, k);
    ShiftOfInt(q + 1, k);
    ShiftMonotone(y, q as real, k);
    ShiftMonotone(y, (q + 1) as real, k);
    assert q as real <= y < (q + 1) as real;
  }

  /** Rust's integer division by a power of ten truncates the real quotient, for both signs. */
  lemma TruncDivIsTruncate(x: int, k: nat)
    ensures TruncDiv(x, Pow10(k)) == Truncate(Shift(x as real, 0 - k))
  {
    if x >= 0 {
      DownShiftFloor(x, k);
    } else {
      DownShiftFloor(-x, k);
      ShiftNegates(x as real, 0 - k);
      assert (-x) as real == -(x as real);
      TruncateNegates(Shift(x as real, 0 - k));
    }
  }

  lemma TruncateNegates(y: real)
    ensures Truncate(-y) == -Truncate(y)
  {
  }

  /** The integer at scale `s` obtained from a Horner accumulation with natural scale `n`. */
  function Rescaled(horner: int, n: int, s: int): int {
    if s >= n then horner * Pow10(s - n) else TruncDiv(horner, Pow10(n - s))
  }

  lemma RescaledIsTruncate(horner: int, n: int, s: int)
    ensures Rescaled(horner, n, s) == Truncate(Shift(horner as real, s - n))
  {
    if s >= n {
      ShiftOfInt(horner, s - n);
    } else {
      TruncDivIsTruncate(horner, n - s);
    }
  }

  // ── Exactness ────────────────────────────────────────────────────────────

  /** trunc(N * 10^s) for the number N a payload denotes, before its sign. */
  ghost function ScaledMagnitude(h: Numeric.Header, s: int): int {
    Truncate(Shift(Magnitude(h.digits, h.weight), s))
  }

  lemma ScaledMagnitudeIsRescaled(h: Numeric.Header, s: int)
    ensures ScaledMagnitude(h, s) == Rescaled(Horner(h.digits), NaturalScale(h), s)
  {
    var n := NaturalScale(h);
    HornerIsMagnitude(h.digits, h.weight);
    ShiftTwice(Horner(h.digits) as real, -n, s);
    RescaledIsTruncate(Horner(h.digits), n, s);
  }

  /** For every finite payload, short or long, of any weight and any digits, a decode that
      does not overflow gives sign * trunc(N * 10^dscale), clamped to i128. The scale
      reported with it is the payload's own exactly when dscale fits in an i8. */
  lemma NumericIsExact(bytes: seq<byte>)
    requires ParseHeader(bytes).Some? && DecodedI128(bytes).Number?
    ensures var h := ParseHeader(bytes).value;
            var r := DecodedI128(bytes);
            && r.value == Negate(h.neg, Saturate(ScaledMagnitude(h, h.dscale)))
            && (r.scale == h.dscale <==> h.dscale < 128)
  {
    var h := ParseHeader(bytes).value;
    if h.digits != [] {
      ScaledMagnitudeIsRescaled(h, h.dscale);
      if NaturalScale(h) > h.dscale {
        assert InI128(Horner(h.digits));
        TruncDivShrinks(Horner(h.digits), Pow10(NaturalScale(h) - h.dscale));
      }
    } else {
      ShiftZero(h.dscale);
    }
    I8RoundTrip(h.dscale);
  }

  lemma I8RoundTrip(x: nat)
    requires x < 0x4000
    ensures AsI8(x) == x <==> x < 128
  {
  }

  lemma TruncDivShrinks(x: int, m: nat)
    requires m > 0 && InI128(x)
    ensures InI128(TruncDiv(x, m))
  {
    if x >= 0 {
      DivShrinks(x, m);
    } else {
      DivShrinks(-x, m);
    }
  }

  lemma DivShrinks(x: nat, m: nat)
    requires m > 0
    ensures x / m <= x
  {
    if x / m > x {
      QuotientBounds(x, m);
      TimesGrows(x / m, m);
    }
  }

  lemma TimesGrows(q: nat, m: nat)
    requires m > 0
    ensures q <= q * m
  {
  }
}
