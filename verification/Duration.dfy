/** The 8-bit duration code: four bits of exponent, four of mantissa, an implied leading one. */
module Duration {
  import opened Machine

  const MAX_SECONDS: uint32 := 507904

  /** The seconds a code names. Every code names some. */
  function Seconds(code: byte): nat {
    var exponent, mantissa := code / 16, code % 16;
    if exponent == 0 then mantissa else Shl(16 + mantissa, exponent - 1)
  }

  /** The largest code, not above `c`, that names at most `seconds`: found by trying them all. */
  function LargestFrom(seconds: nat, c: byte): (r: byte)
    ensures r <= c
    ensures Seconds(r) <= seconds
    ensures forall d: byte | r < d <= c :: seconds < Seconds(d)
  {
    if c == 0 || Seconds(c) <= seconds then c else LargestFrom(seconds, c - 1)
  }

  function LargestCode(seconds: nat): byte {
    LargestFrom(seconds, 255)
  }

  lemma ShlMonotone(a: nat, b: nat, k: nat)
    ensures a < b ==> Shl(a, k) < Shl(b, k)
    ensures Shl(a, k) < Shl(b, k) ==> a < b
  {
    if a < b {
      ShlAdds(a, b - a, k);
    } else {
      ShlAdds(b, a - b, k);
    }
  }

  /** The step from a code to the next one, within a band and across the gap to the next band alike. */
  lemma SecondsStep(c: byte)
    requires c < 255
    ensures Seconds(c + 1) == Seconds(c) + (if c < 16 then 1 else Shl(1, c / 16 - 1))
  {
    var e, m := c / 16, c % 16;
    if e > 0 {
      ShlAdds(16 + m, 1, e - 1);
      if m == 15 {
        assert (c + 1) / 16 == e + 1 && (c + 1) % 16 == 0;
        ShlDoubles(16, e - 1);
      } else {
        assert (c + 1) / 16 == e && (c + 1) % 16 == m + 1;
      }
    }
  }

  lemma {:induction false} ShlDoubles(v: nat, k: nat)
    ensures Shl(v, k + 1) == Shl(2 * v, k)
  {
    if k > 0 {
      ShlDoubles(v, k - 1);
    }
  }

  /** Larger codes name strictly longer durations, so no duration has two codes. */
  lemma {:induction false} SecondsStrictlyIncrease(c: byte, d: byte)
    requires c < d
    ensures Seconds(c) < Seconds(d)
    decreases d
  {
    SecondsStep(d - 1);
    if c < d - 1 {
      SecondsStrictlyIncrease(c, d - 1);
    }
  }

  /** Encoding is the right adjoint of decoding: it rounds down to the nearest nameable duration. */
  lemma Adjunction(seconds: nat, c: byte)
    ensures Seconds(c) <= seconds <==> c <= LargestCode(seconds)
  {
    var r := LargestCode(seconds);
    if c < r {
      SecondsStrictlyIncrease(c, r);
    }
  }

  /** A nameable duration encodes to its own code, so encoding again changes nothing. */
  lemma RoundTrip(c: byte)
    ensures LargestCode(Seconds(c)) == c
  {
    Adjunction(Seconds(c), c);
    var r := LargestCode(Seconds(c));
    if c < r {
      SecondsStrictlyIncrease(c, r);
    }
  }

  lemma EncodingAgainChangesNothing(seconds: nat)
    ensures LargestCode(Seconds(LargestCode(seconds))) == LargestCode(seconds)
  {
    RoundTrip(LargestCode(seconds));
  }

  /** Longer durations never get smaller codes. */
  lemma EncodingIsMonotone(a: nat, b: nat)
    requires a <= b
    ensures LargestCode(a) <= LargestCode(b)
  {
    Adjunction(b, LargestCode(a));
  }

  /** The code that names the most without naming too much, seen from its neighbours. */
  lemma LargestIs(seconds: nat, r: byte)
    requires Seconds(r) <= seconds && (r < 255 ==> seconds < Seconds(r + 1))
    ensures LargestCode(seconds) == r
  {
    var l := LargestCode(seconds);
    Adjunction(seconds, r);
    if r < l {
      Adjunction(seconds, r + 1);
    }
  }

  /** Rounding down loses less than one seventeenth of the duration asked for. */
  lemma LossIsBounded(seconds: nat)
    requires 1 <= seconds <= MAX_SECONDS
    ensures 17 * (seconds - Seconds(LargestCode(seconds))) < seconds
  {
    var r := LargestCode(seconds);
    LastSeconds();
    if r < 255 {
      Adjunction(seconds, r + 1);
      SecondsStep(r);
      if r >= 16 {
        var e, m := r / 16, r % 16;
        ShlAdds(16, m, e - 1);
        ShlScale(e - 1);
      }
    }
  }

  lemma {:induction false} ShlScale(k: nat)
    ensures Shl(16, k) == 16 * Shl(1, k)
  {
    if k > 0 {
      ShlScale(k - 1);
    }
  }

  lemma LastSeconds()
    ensures Seconds(255) == MAX_SECONDS == Shl(31, 14)
  {
    assert Shl(31, 14) == 507904;
  }

  /** Codes up to 31 name themselves, and sixteen codes further on the duration has doubled. */
  lemma BandsDouble(c: byte)
    ensures c < 32 ==> Seconds(c) == c
    ensures 16 <= c < 240 ==> Seconds(c + 16) == 2 * Seconds(c)
    ensures Seconds(255) == 507904 == MAX_SECONDS
  {
    LastSeconds();
    if 16 <= c < 240 {
      assert (c + 16) / 16 == c / 16 + 1 && (c + 16) % 16 == c % 16;
    }
  }

  lemma BandUnits(k: nat)
    ensures
      var u := Shl(1, k);
      Shl(16, k) == 16 * u && Shl(17, k) == 17 * u && Shl(31, k) == 31 * u && Shl(32, k) == 32 * u
  {
    ShlScale(k);
    ShlAdds(16, 1, k);
    ShlAdds(16, 16, k);
    ShlAdds(31, 1, k);
  }

  /** What rounding loses, seen from the durations on both sides. */
  lemma LossIs(seconds: nat, r: byte, named: nat, next: nat)
    requires r < 255 && Seconds(r) == named <= seconds < next == Seconds(r + 1)
    ensures Seconds(LargestCode(seconds)) == named
  {
    LargestIs(seconds, r);
  }

  /** The first two codes of a band, its unit being the step between them. */
  lemma FirstOfBand(k: nat) returns (c: byte, u: nat)
    requires k <= 14
    ensures c == 16 * k + 16 && u == Shl(1, k) && Shl(16, k) == 16 * u
    ensures c < 255 && Seconds(c) == 16 * u && Seconds(c + 1) == 17 * u == Shl(17, k)
  {
    c, u := 16 * k + 16, Shl(1, k);
    assert c / 16 == k + 1 && c % 16 == 0;
    SecondsStep(c);
    BandUnits(k);
  }

  /** The last code of a band and the first of the next. */
  lemma LastOfBand(k: nat) returns (c: byte, u: nat)
    requires k < 14
    ensures c == 16 * k + 31 && u == Shl(1, k)
    ensures c < 255 && Seconds(c) == 31 * u && Seconds(c + 1) == 32 * u == Shl(32, k)
  {
    c, u := 16 * k + 31, Shl(1, k);
    assert c / 16 == k + 1 && c % 16 == 15;
    SecondsStep(c);
    BandUnits(k);
  }

  /** What rounding down takes off a duration. */
  function Loss(seconds: nat): nat {
    seconds - Seconds(LargestCode(seconds))
  }

  /** The loss stays below the unit of the band that the code is in, and the duration above its bottom. */
  lemma LossInItsBand(seconds: nat) returns (k: nat, u: nat)
    requires 16 <= seconds <= MAX_SECONDS
    ensures k <= 14 && u == Shl(1, k) && k == LargestCode(seconds) / 16 - 1
    ensures Loss(seconds) <= u - 1 && 16 * u + Loss(seconds) <= seconds
  {
    var r := LargestCode(seconds);
    LastSeconds();
    Adjunction(seconds, 16);
    k := r / 16 - 1;
    u := Shl(1, k);
    assert 16 * u <= Seconds(r) by {
      ShlAdds(16, r % 16, k);
      ShlScale(k);
    }
    hide Shl, LargestCode;
    if r < 255 {
      Adjunction(seconds, r + 1);
      SecondsStep(r);
    }
  }

  /** A duration between the bottoms of two bands has its code in the lower one. */
  lemma BandOf(seconds: nat, k: nat)
    requires k <= 14 && Shl(16, k) <= seconds < Shl(32, k) && seconds <= MAX_SECONDS
    ensures LargestCode(seconds) / 16 == k + 1
  {
    hide Seconds, Shl, LargestCode;
    var c, u := FirstOfBand(k);
    Adjunction(seconds, c);
    if k < 14 {
      var last, v := LastOfBand(k);
      Adjunction(seconds, last + 1);
    }
  }

  lemma Products(loss: nat, u: nat, v: nat)
    requires u >= 1 && v >= 1
    ensures (v - 1) * (16 * u + loss) == 16 * (u * v) - 16 * u + v * loss - loss
    ensures loss * (17 * v - 1) == 17 * (v * loss) - loss
    ensures v * (u - 1) == u * v - v
  {
  }

  lemma MulMonotone(a: nat, b: nat, c: nat)
    requires b <= c
    ensures a * b <= a * c
  {
  }

  lemma PartsCompare(loss: nat, seconds: nat, u: nat, v: nat)
    requires loss <= u - 1 && 16 * u + loss <= seconds && u <= v
    ensures loss * (17 * v - 1) <= (v - 1) * seconds
  {
    Products(loss, u, v);
    MulMonotone(v - 1, 16 * u + loss, seconds);
    MulMonotone(v, loss, u - 1);
  }

  /** The duration just above the bottom of a band loses all but one second of the band's unit. */
  lemma LossAboveABandBottom(k: nat)
    requires k <= 14
    ensures Shl(17, k) == 17 * Shl(1, k) && Loss(Shl(17, k) - 1) == Shl(1, k) - 1
  {
    hide Seconds, Shl, LargestCode;
    var c, u := FirstOfBand(k);
    LossIs(17 * u - 1, c, 16 * u, 17 * u);
  }

  /**
   * The bound of one seventeenth is met just above the bottom of a band, where 17 times the loss falls
   * short of the duration by 16 seconds, and no duration of the band loses a larger part than that one.
   */
  lemma LossIsWorstAboveABandBottom(k: nat, seconds: nat)
    requires k <= 14 && Shl(16, k) <= seconds < Shl(32, k) && seconds <= MAX_SECONDS
    ensures var worst := Shl(17, k) - 1; 17 * Loss(worst) == worst - 16
    ensures var worst := Shl(17, k) - 1; Loss(seconds) * worst <= Loss(worst) * seconds
  {
    hide Seconds, Shl, LargestCode;
    LossAboveABandBottom(k);
    BandOf(seconds, k);
    AtLeastSixteen(k);
    var j, u := LossInItsBand(seconds);
    PartsCompare(Loss(seconds), seconds, u, u);
    assert Loss(seconds) * (17 * u - 1) <= (u - 1) * seconds;
  }

  lemma {:induction false} AtLeastSixteen(k: nat)
    ensures Shl(16, k) >= 16
  {
    if k > 0 {
      AtLeastSixteen(k - 1);
      ShlScale(k);
      ShlScale(k - 1);
    }
  }

  /** Of all durations the one just above the bottom of the last band loses the largest part. */
  lemma LossIsWorstInTheLastBand(seconds: nat)
    requires 1 <= seconds <= MAX_SECONDS
    ensures var worst := Shl(17, 14) - 1; worst == 278527 && Loss(worst) == 16383
    ensures Loss(seconds) * 278527 <= 16383 * seconds
  {
    LossAboveABandBottom(14);
    assert Shl(1, 14) == 16384;
    if seconds < 16 {
      SmallDuration(seconds);
    } else {
      var k, u := LossInItsBand(seconds);
      UnitsGrow(k);
      PartsCompare(Loss(seconds), seconds, u, 16384);
    }
  }

  lemma {:induction false} UnitsGrow(k: nat)
    requires k <= 14
    ensures Shl(1, k) <= Shl(1, 14)
    decreases 14 - k
  {
    if k < 14 {
      UnitsGrow(k + 1);
      ShlDoubles(1, k);
      ShlAdds(1, 1, k);
    }
  }

  /** Just below the next band the same loss is little more than half as large a part. */
  lemma LossIsSmallerBelowABandBottom(k: nat)
    requires k < 14
    ensures var s := Shl(32, k) - 1; 32 * (s - Seconds(LargestCode(s))) == s - 31
  {
    hide Seconds, Shl, LargestCode;
    var c, u := LastOfBand(k);
    LossIs(32 * u - 1, c, 31 * u, 32 * u);
  }

  /** In a band the code comes from shifting. */
  lemma InBand(seconds: nat, exponent: nat)
    requires 1 <= exponent <= 15
    requires Shl(16, exponent - 1) <= seconds <= Shl(31, exponent - 1)
    ensures 16 <= Shr(seconds, exponent - 1) <= 31
    ensures LargestCode(seconds) == 16 * exponent + (Shr(seconds, exponent - 1) - 16)
  {
    var k := exponent - 1;
    var q := Shr(seconds, k);
    ShrFloors(seconds, k);
    ShlMonotone(q + 1, 16, k);
    ShlMonotone(31, q, k);
    ShlMonotone(16, q + 1, k);
    var r := 16 * exponent + (q - 16);
    assert r / 16 == exponent && r % 16 == q - 16;
    if r < 255 {
      SecondsStep(r);
      ShlAdds(q, 1, k);
    }
    LargestIs(seconds, r);
  }

  /** The longest duration of the bands before this one. */
  function TopBefore(exponent: nat): nat
    requires 1 <= exponent
  {
    if exponent == 1 then 15 else Shl(31, exponent - 2)
  }

  /** In the gap below a band the code is the last one of the band before. */
  lemma InGap(seconds: nat, exponent: nat)
    requires 1 <= exponent <= 15
    requires TopBefore(exponent) < seconds < Shl(16, exponent - 1)
    ensures LargestCode(seconds) == 16 * (exponent - 1) + 15
  {
    var last := 16 * (exponent - 1) + 15;
    assert last / 16 == exponent - 1 && last % 16 == 15;
    assert (last + 1) / 16 == exponent && (last + 1) % 16 == 0;
    LargestIs(seconds, last);
  }

  /** Below sixteen seconds the code is the duration. */
  lemma SmallDuration(seconds: nat)
    requires seconds < 16
    ensures LargestCode(seconds) == seconds
  {
    SecondsStep(seconds);
    LargestIs(seconds, seconds);
  }

  /**
   * Rounds a duration down to a code by searching for its band; what cannot be named is refused. The
   * search never runs past the last band, so there is nothing to return after it.
   */
  method EncodeDuration(seconds: uint32) returns (r: Result<byte>)
    ensures r == if seconds > MAX_SECONDS then Err(OutOfRange) else Ok(LargestCode(seconds))
  {
    hide Seconds, LargestCode, Shl;
    if seconds > MAX_SECONDS {
      return Err(OutOfRange);
    }
    if seconds < 16 {
      SmallDuration(seconds);
      return Ok(seconds);
    }
    LastSeconds();
    var exponent := 1;
    while true
      invariant 1 <= exponent <= 15
      invariant TopBefore(exponent) < seconds
      decreases 16 - exponent
    {
      var shift := exponent - 1;
      var bandBottom := Shl(16, shift);
      var bandTop := Shl(31, shift);
      if seconds < bandBottom {
        InGap(seconds, exponent);
        return Ok(16 * (exponent - 1) + 0x0F);
      }
      if seconds <= bandTop {
        InBand(seconds, exponent);
        var mantissa := Shr(seconds, shift) - 16;
        return Ok(16 * exponent + mantissa % 16);
      }
      exponent := exponent + 1;
    }
  }
}
