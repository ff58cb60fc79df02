/** device_driver/i2c/bus/i2c_bus.c lines 103-152: the clock divider, on 64-bit unsigned long and 32-bit
    unsigned int. */
module I2cClock {
  import opened Arithmetic

  const CDIV_MIN := 0x0002
  const CDIV_MAX := 0xFFFE
  const EINVAL := 22
  const U32 := 0x1_0000_0000
  const U64 := 0x1_0000_0000_0000_0000

  /** DIV_ROUND_UP on unsigned long: the sum in it can wrap around. */
  function DivRoundUp(n: nat, d: nat): nat
    requires d > 0
  {
    ((n + d - 1) % U64) / d
  }

  /** i2c_demo_calc_divider: the quotient is cut to 32 bits. */
  function CalcDivider(rate: nat, parentRate: nat): int
    requires rate > 0
  {
    FromQuotient(DivRoundUp(parentRate, rate) % U32)
  }

  /** Lines 107-112, from a 32-bit quotient. */
  function FromQuotient(q: nat): (r: int)
    ensures r == -EINVAL || CDIV_MIN <= r <= CDIV_MAX
  {
    var divider := if q % 2 == 1 then (q + 1) % U32 else q;
    if divider < CDIV_MIN || divider > CDIV_MAX then -EINVAL else divider
  }

  /** What a caller does with an int result it keeps in a u32. */
  function ToU32(x: int): nat { x % U32 }

  /** i2c_demo_round_rate; the error code is not looked at, but divided by. */
  function RoundRate(rate: nat, parentRate: nat): nat
    requires rate > 0
  {
    var divider := ToU32(CalcDivider(rate, parentRate));
    DivRoundUp(parentRate, if divider == 0 then 1 else divider)
  }

  // ---------- what the divider should be ----------

  /** The quotient of n by d, rounded up. */
  function Ceil(n: int, d: nat): nat
    requires d > 0
    decreases n
  {
    if n <= 0 then 0 else 1 + Ceil(n - d, d)
  }

  /** The smallest even divider, from 2 on, that brings parentRate down to rate or below. */
  ghost predicate LeastEven(d: int, rate: nat, parentRate: nat) {
    && d >= 2 && d % 2 == 0
    && d * rate >= parentRate
    && forall e | 2 <= e < d && e % 2 == 0 :: e * rate < parentRate
  }

  /** The divider register can reach this rate. */
  predicate InRange(rate: nat, parentRate: nat) {
    1 <= parentRate <= CDIV_MAX * rate
  }

  ghost predicate Right(r: int, rate: nat, parentRate: nat) {
    if InRange(rate, parentRate) then r <= CDIV_MAX && LeastEven(r, rate, parentRate) else r == -EINVAL
  }

  /** A quotient too large for 32 bits whose last 32 bits would do as a divider. */
  predicate LooksRight(q: nat) { q >= U32 && 1 <= q % U32 <= CDIV_MAX }

  /** The sum wraps although the rate is in range, or the 32-bit cut turns a quotient that is far too
      large into one that looks right. */
  predicate Overflows(rate: nat, parentRate: nat)
    requires rate > 0
  {
    if parentRate + rate - 1 >= U64
    then InRange(rate, parentRate)
    else
      LooksRight((parentRate + rate - 1) / rate)
  }

  lemma MulMonotone(a: int, b: int, d: nat)
    requires a <= b
    ensures a * d <= b * d
  {
  }

  /** The quotient rounded up is at most k exactly if n is at most k times d. */
  lemma {:induction false} CeilAtMost(n: int, d: nat, k: nat)
    requires d > 0
    ensures Ceil(n, d) <= k <==> n <= k * d
  {
    if n > 0 {
      if k == 0 {
        assert k * d == 0;
      } else {
        assert k * d == (k - 1) * d + d;
        CeilAtMost(n - d, d, k - 1);
      }
    } else {
      MulMonotone(0, k, d);
    }
  }

  lemma DivRoundUpIsCeil(n: nat, d: nat)
    requires d > 0 && n + d - 1 < U64
    ensures DivRoundUp(n, d) == Ceil(n, d)
  {
    var sum := n + d - 1;
    assert sum % U64 == sum;
    QuotientIsCeil(n, d);
  }

  lemma {:induction false} QuotientIsCeil(n: nat, d: nat)
    requires d > 0
    ensures (n + d - 1) / d == Ceil(n, d)
    decreases n
  {
    if n >= d {
      QuotientIsCeil(n - d, d);
      StepKeepsClass(n - d + d - 1, d);
    } else if n > 0 {
      ModMultiple(1, n - 1, d);
    } else {
      ModMultiple(0, d - 1, d);
    }
  }

  /** Rounding the quotient up to an even number gives the least even divider. */
  lemma EvenCeilIsLeast(rate: nat, parentRate: nat)
    requires rate > 0 && parentRate > 0
    ensures var q := Ceil(parentRate, rate); LeastEven(if q % 2 == 1 then q + 1 else q, rate, parentRate)
  {
    var q := Ceil(parentRate, rate);
    var d := if q % 2 == 1 then q + 1 else q;
    CeilAtMost(parentRate, rate, d);
    forall e | 2 <= e < d && e % 2 == 0 ensures e * rate < parentRate {
      assert e < q;
      CeilAtMost(parentRate, rate, e);
    }
  }

  lemma LeastEvenUnique(d: int, e: int, rate: nat, parentRate: nat)
    requires LeastEven(d, rate, parentRate) && LeastEven(e, rate, parentRate)
    ensures d == e
  {
  }

  lemma SumWraps(rate: nat, parentRate: nat)
    requires 0 < rate < U64 && parentRate < U64 <= parentRate + rate - 1
    ensures CalcDivider(rate, parentRate) == -EINVAL
  {
    var sum := parentRate + rate - 1 - U64;
    assert (parentRate + rate - 1) % U64 == sum < rate;
    ModMultiple(0, sum, rate);
  }

  lemma FromQuotientFits(q: nat)
    ensures FromQuotient(q % U32) ==
            if 1 <= q <= CDIV_MAX then (if q % 2 == 1 then q + 1 else q)
            else if LooksRight(q) then (if q % U32 % 2 == 1 then q % U32 + 1 else q % U32)
            else -EINVAL
  {
  }

  lemma SumFits(rate: nat, parentRate: nat)
    requires 0 < rate && parentRate + rate - 1 < U64
    ensures Right(CalcDivider(rate, parentRate), rate, parentRate) <==> !Overflows(rate, parentRate)
  {
    var q := Ceil(parentRate, rate);
    DivRoundUpIsCeil(parentRate, rate);
    QuotientIsCeil(parentRate, rate);
    FromQuotientFits(q);
    CeilAtMost(parentRate, rate, CDIV_MAX);
    CeilAtMost(parentRate, rate, 0);
    if 1 <= q <= CDIV_MAX {
      EvenCeilIsLeast(rate, parentRate);
    }
  }

  /** The divider computed is the right one, or the error rightly reported, exactly when nothing overflows. */
  lemma CalcDividerExactly(rate: nat, parentRate: nat)
    requires 0 < rate < U64 && parentRate < U64
    ensures Right(CalcDivider(rate, parentRate), rate, parentRate) <==> !Overflows(rate, parentRate)
  {
    if parentRate + rate - 1 >= U64 {
      SumWraps(rate, parentRate);
    } else {
      SumFits(rate, parentRate);
    }
  }

  /** Such an overflow: a 1 Hz request from a parent of 2^32 + 4 Hz yields divider 4. */
  lemma OverflowExample()
    ensures CalcDivider(1, U32 + 4) == 4 && Overflows(1, U32 + 4) && !InRange(1, U32 + 4)
  {
  }

  // ---------- rounded rates ----------

  /** The requests for which the clock functions are meant. */
  predicate Valid(rate: nat, parentRate: nat) {
    rate > 0 && InRange(rate, parentRate) && parentRate + rate - 1 < U64
  }

  lemma ValidDivider(rate: nat, parentRate: nat)
    requires Valid(rate, parentRate)
    ensures var d := CalcDivider(rate, parentRate);
            2 <= d <= CDIV_MAX && LeastEven(d, rate, parentRate) && RoundRate(rate, parentRate) == Ceil(parentRate, d)
  {
    var q := Ceil(parentRate, rate);
    DivRoundUpIsCeil(parentRate, rate);
    CeilAtMost(parentRate, rate, CDIV_MAX);
    CeilAtMost(parentRate, rate, 0);
    FromQuotientFits(q);
    EvenCeilIsLeast(rate, parentRate);
    var d := CalcDivider(rate, parentRate);
    SecondSumFits(rate, parentRate, d);
    DivRoundUpIsCeil(parentRate, d);
    assert ToU32(d) == d;
  }

  lemma SecondSumFits(rate: nat, parentRate: nat, d: nat)
    requires Valid(rate, parentRate) && d <= CDIV_MAX
    ensures parentRate + d - 1 < U64
  {
    if rate < d {
      MulMonotone(rate, CDIV_MAX, CDIV_MAX);
    }
  }

  /** The rounded rate is the highest rate, not above the request, that an even divider can make. */
  lemma RoundRateIsBest(rate: nat, parentRate: nat)
    requires Valid(rate, parentRate)
    ensures 1 <= RoundRate(rate, parentRate) <= rate
    ensures forall e: nat | 2 <= e <= CDIV_MAX && e % 2 == 0 && Ceil(parentRate, e) <= rate ::
              Ceil(parentRate, e) <= RoundRate(rate, parentRate)
  {
    ValidDivider(rate, parentRate);
    var d := CalcDivider(rate, parentRate);
    CeilAtMost(parentRate, d, rate);
    forall e: nat | 2 <= e <= CDIV_MAX && e % 2 == 0 && Ceil(parentRate, e) <= rate
      ensures Ceil(parentRate, e) <= Ceil(parentRate, d)
    {
      CeilAtMost(parentRate, e, rate);
      SmallerQuotient(parentRate, d, e);
    }
  }

  lemma SmallerQuotient(n: nat, d: nat, e: nat)
    requires 0 < d <= e
    ensures Ceil(n, e) <= Ceil(n, d)
  {
    var r := Ceil(n, d);
    CeilAtMost(n, d, r);
    MulMonotone(d, e, r);
    CeilAtMost(n, e, r);
  }

  /** Asking for the rounded rate gives the same divider, so rounding again changes nothing. */
  lemma RoundRateIdempotent(rate: nat, parentRate: nat)
    requires Valid(rate, parentRate)
    ensures var r := RoundRate(rate, parentRate);
            && Valid(r, parentRate)
            && CalcDivider(r, parentRate) == CalcDivider(rate, parentRate)
            && RoundRate(r, parentRate) == r
  {
    ValidDivider(rate, parentRate);
    RoundRateIsBest(rate, parentRate);
    var d, r := CalcDivider(rate, parentRate), RoundRate(rate, parentRate);
    SameDivider(d, rate, r, parentRate);
    ValidDivider(r, parentRate);
    LeastEvenUnique(d, CalcDivider(r, parentRate), r, parentRate);
  }

  lemma SameDivider(d: nat, rate: nat, r: nat, parentRate: nat)
    requires 2 <= d <= CDIV_MAX && LeastEven(d, rate, parentRate) && r == Ceil(parentRate, d) <= rate
    ensures LeastEven(d, r, parentRate) && parentRate <= CDIV_MAX * r
  {
    CeilAtMost(parentRate, d, r);
    MulMonotone(d, CDIV_MAX, r);
    forall e | 2 <= e < d && e % 2 == 0 ensures e * r < parentRate {
      MulMonotone(r, rate, e);
    }
  }

  /** The requests that calc_divider refuses. */
  predicate Refused(rate: nat, parentRate: nat)
    requires rate > 0
  {
    if parentRate + rate - 1 >= U64 then true
    else
      var q := Ceil(parentRate, rate);
      (q == 0 || q > CDIV_MAX) && !LooksRight(q)
  }

  lemma RefusedExactly(rate: nat, parentRate: nat)
    requires 0 < rate < U64 && parentRate < U64
    ensures CalcDivider(rate, parentRate) == -EINVAL <==> Refused(rate, parentRate)
  {
    if parentRate + rate - 1 >= U64 {
      SumWraps(rate, parentRate);
    } else {
      DivRoundUpIsCeil(parentRate, rate);
      FromQuotientFits(Ceil(parentRate, rate));
    }
  }

  /** What -EINVAL is as a divisor. */
  const ERROR_DIVIDER := U32 - EINVAL

  /** A refused request is answered with a rate all the same: what is left of the parent rate when it is
      divided by the error code, 1 Hz for any parent up to 2^32 - 22 Hz. */
  lemma RefusedRoundsTo(rate: nat, parentRate: nat)
    requires 0 < rate < U64 && parentRate < U64 && Refused(rate, parentRate)
    ensures RoundRate(rate, parentRate) ==
            if parentRate + ERROR_DIVIDER - 1 < U64 then Ceil(parentRate, ERROR_DIVIDER) else 0
  {
    RefusedExactly(rate, parentRate);
    assert ToU32(-EINVAL) == ERROR_DIVIDER;
    if parentRate + ERROR_DIVIDER - 1 < U64 {
      DivRoundUpIsCeil(parentRate, ERROR_DIVIDER);
    } else {
      var rest := parentRate + ERROR_DIVIDER - 1 - U64;
      assert (parentRate + ERROR_DIVIDER - 1) % U64 == rest < ERROR_DIVIDER;
    }
  }

  /** A divider the register takes. */
  predicate Divider(e: int) { 2 <= e <= CDIV_MAX && e % 2 == 0 }

  /** r is the highest rate, of those the register can reach, that is not above the request. */
  ghost predicate Best(r: nat, rate: nat, parentRate: nat) {
    && r <= rate
    && (exists e: nat :: Divider(e) && r == Ceil(parentRate, e))
    && forall e: nat | Divider(e) && Ceil(parentRate, e) <= rate :: Ceil(parentRate, e) <= r
  }

  /** For all 64-bit rates: round_rate gives the best rate exactly if there is one and the sum does not
      wrap around, or the parent is so slow (0 or 2 Hz) that the error code divides it as well. */
  lemma RoundRateBestExactly(rate: nat, parentRate: nat)
    requires 0 < rate < U64 && parentRate < U64
    ensures Best(RoundRate(rate, parentRate), rate, parentRate)
            <==> parentRate == 0 || (InRange(rate, parentRate) && (parentRate + rate - 1 < U64 || parentRate == 2))
  {
    if parentRate == 0 {
      RefusedRoundsTo(rate, parentRate);
      assert Divider(2) && Ceil(parentRate, 2) == 0;
    } else if !InRange(rate, parentRate) {
      forall e: nat | Divider(e) ensures Ceil(parentRate, e) > rate {
        CeilAtMost(parentRate, e, rate);
        MulMonotone(e, CDIV_MAX, rate);
      }
    } else if parentRate + rate - 1 < U64 {
      RoundRateIsBest(rate, parentRate);
      ValidDivider(rate, parentRate);
      assert Divider(CalcDivider(rate, parentRate));
    } else {
      RefusedRoundsTo(rate, parentRate);
      WrappedBest(rate, parentRate);
    }
  }

  /** When the sum wraps around, only a parent of 2 Hz is rounded well. */
  lemma WrappedBest(rate: nat, parentRate: nat)
    requires 0 < rate < U64 && 0 < parentRate < U64 <= parentRate + rate - 1
    ensures var r := if parentRate + ERROR_DIVIDER - 1 < U64 then Ceil(parentRate, ERROR_DIVIDER) else 0;
            Best(r, rate, parentRate) <==> parentRate == 2
  {
    var r := if parentRate + ERROR_DIVIDER - 1 < U64 then Ceil(parentRate, ERROR_DIVIDER) else 0;
    assert Divider(2);
    CeilAtMost(parentRate, 2, rate);
    CeilAtMost(parentRate, 2, 1);
    if parentRate == 2 {
      assert Ceil(parentRate, 2) == 1;
      forall e: nat | Divider(e) ensures Ceil(parentRate, e) <= 1 {
        CeilAtMost(parentRate, e, 1);
      }
    } else if Best(r, rate, parentRate) {
      var e: nat :| Divider(e) && r == Ceil(parentRate, e);
      SameRateAsError(parentRate, e);
    }
  }

  /** A divider in range and the error code give the same rate only from a parent they both bring to 1 Hz. */
  lemma SameRateAsError(parentRate: nat, e: nat)
    requires Divider(e) && parentRate > 0
    ensures Ceil(parentRate, e) != 0
    ensures Ceil(parentRate, e) == Ceil(parentRate, ERROR_DIVIDER) ==> Ceil(parentRate, e) == 1 && parentRate <= CDIV_MAX
  {
    var r := Ceil(parentRate, e);
    CeilAtMost(parentRate, e, 0);
    if r == Ceil(parentRate, ERROR_DIVIDER) {
      CeilAtMost(parentRate, e, r);
      CeilAtMost(parentRate, ERROR_DIVIDER, r - 1);
      MulMonotone(e, CDIV_MAX, r);
      assert (r - 1) * ERROR_DIVIDER < r * CDIV_MAX;
    }
  }

  // ---------- the registers ----------

  /** The CLKT part of i2c_demo_set_rate: 35 ms in clock ticks, cut to 16 bits. */
  function ClockTimeout(rate: nat): nat {
    if rate > 0xffff * 1000 / 35 then 0xffff else 35 * rate / 1000
  }

  /** The comparison saturates at exactly the right rate. */
  lemma ClockTimeoutSaturates(rate: nat)
    ensures ClockTimeout(rate) == if 35 * rate / 1000 <= 0xffff then 35 * rate / 1000 else 0xffff
  {
  }

  lemma ClockTimeoutMonotone(rate: nat, rate': nat)
    requires rate <= rate'
    ensures ClockTimeout(rate) <= ClockTimeout(rate') <= 0xffff
  {
  }

  /** In a u32 the error code is still told from every divider. */
  lemma ToU32Faithful(x: int)
    requires x == -EINVAL || CDIV_MIN <= x <= CDIV_MAX
    ensures ToU32(x) == if x == -EINVAL then ERROR_DIVIDER else x
    ensures ToU32(-EINVAL) == ERROR_DIVIDER
  {
  }

  class ClockRegisters {
    var div: nat
    var clkt: nat

    /** i2c_demo_set_rate, without the garbled rising and falling edge delays of lines 127-129. */
    method SetRate(rate: nat, parentRate: nat) returns (ret: int)
      requires 0 < rate < U64 && parentRate < U64
      modifies this
      ensures ret == if CalcDivider(rate, parentRate) == -EINVAL then -EINVAL else 0
      ensures ret == -EINVAL ==> div == old(div) && clkt == old(clkt)
      ensures ret == 0 ==> div == CalcDivider(rate, parentRate) && CDIV_MIN <= div <= CDIV_MAX
      ensures ret == 0 ==> clkt == ClockTimeout(rate)
    {
      var result := CalcDivider(rate, parentRate);
      var divider := ToU32(result);
      ToU32Faithful(result);
      if divider == ToU32(-EINVAL) {
        return -EINVAL;
      }
      div := divider;
      if rate > 0xffff * 1000 / 35 {
        clkt := 0xffff;
      } else {
        clkt := 35 * rate / 1000;
      }
      ret := 0;
    }

    /** i2c_demo_recalc_rate: what the register makes of the parent rate. After a successful SetRate it
        is the rounded rate. */
    method RecalcRate(parentRate: nat) returns (rate: nat)
      requires div > 0
      ensures rate == DivRoundUp(parentRate, div)
      ensures forall r: nat | Valid(r, parentRate) && div == CalcDivider(r, parentRate) ::
                rate == RoundRate(r, parentRate)
    {
      rate := DivRoundUp(parentRate, div);
      assert 0 <= div < U32 ==> ToU32(div) == div;
      forall r: nat | Valid(r, parentRate) && div == CalcDivider(r, parentRate) ensures rate == RoundRate(r, parentRate) {
        ValidDivider(r, parentRate);
      }
    }
  }
}
