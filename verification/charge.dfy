/**
 * The charge: the total duration read as the decimal `M.SS`, times the
 * per-minute rate, and the label shown when that charge passes 150.
 */
module Charge {
  import opened Strings
  import opened Rounding
  import opened Media
  import opened Durations

  /** The per-minute rate the session starts with. */
  const DefaultRate: real := 3.0

  /** The label appears when the charge, to the cent, exceeds this many cents (150.00). */
  const LabelThresholdCents: int := 15000

  /** The seconds as printed after the point: `seconds.toString().padStart(2, "0")`. */
  function SecondsDigits(seconds: nat): string {
    PadStart(NatToString(seconds), 2, '0')
  }

  /** The text `${minutes}.${SecondsDigits(seconds)}` that `combineMinutes` hands to `parseFloat`. */
  function CombinedText(minutes: nat, seconds: nat): string {
    NatToString(minutes) + "." + SecondsDigits(seconds)
  }

  lemma {:induction false} Pow10Monotone(i: nat, j: nat)
    requires i <= j
    ensures Pow10(i) <= Pow10(j)
    decreases j
  {
    if i < j {
      Pow10Monotone(i, j - 1);
    }
  }

  /** The printed seconds are digits, at least two of them, and spell `seconds`. */
  lemma SecondsDigitsValue(seconds: nat)
    ensures 2 <= |SecondsDigits(seconds)| && AllDigits(SecondsDigits(seconds))
    ensures DigitsValue(SecondsDigits(seconds)) == seconds
    ensures seconds < Pow10(|SecondsDigits(seconds)|)
    ensures seconds < 100 ==> |SecondsDigits(seconds)| == 2
  {
    var digits := NatToString(seconds);
    var padded := SecondsDigits(seconds);
    var zeros := padded[..|padded| - |digits|];
    assert padded == zeros + digits;
    LeadingZeros(zeros, digits);
    Pow10Monotone(|digits|, |padded|);
  }

  /** A numeral below its power of ten is a fraction in [0, 1). */
  lemma FractionBelowOne(digits: string)
    requires AllDigits(digits) && DigitsValue(digits) < Pow10(|digits|)
    ensures 0.0 <= Fraction(digits) < 1.0
  {
    RatioBelowOne(DigitsValue(digits), Pow10(|digits|));
  }

  lemma RatioBelowOne(v: nat, p: nat)
    requires v < p
    ensures 0.0 <= v as real / p as real < 1.0
  {
  }

  /** Two digits after the point are hundredths. */
  lemma FractionOfTwo(digits: string)
    requires AllDigits(digits)
    ensures |digits| == 2 ==> Fraction(digits) == DigitsValue(digits) as real / 100.0
  {
    assert Pow10(2) == 100;
  }

  /**
   * `combineMinutes`: glue the minutes and the two-digit seconds into the
   * decimal `M.SS`. Seconds count as hundredths of a minute, not sixtieths:
   * 1 minute 30 seconds becomes 1.30.
   */
  function CombineMinutes(minutes: nat, seconds: nat): (r: real)
    ensures seconds < 100 ==> r == (minutes * 100 + seconds) as real / 100.0
    ensures minutes as real <= r < minutes as real + 1.0
  {
    var digits := SecondsDigits(seconds);
    SecondsDigitsValue(seconds);
    ParseFixedPointOfJoin(NatToString(minutes), digits);
    FractionBelowOne(digits);
    FractionOfTwo(digits);
    ParseFixedPoint(CombinedText(minutes, seconds)).GetOr(0.0)
  }

  /** A duration of `t` whole seconds read as `M.SS`, counted in hundredths. */
  function MinuteHundredths(t: nat): nat {
    (t / 60) * 100 + t % 60
  }

  /** The same reading as a decimal number of "minutes". */
  function MinuteDecimal(t: nat): real {
    MinuteHundredths(t) as real / 100.0
  }

  /** For whole seconds, the split-then-combine path gives the `M.SS` reading. */
  lemma CombineWholeSeconds(t: nat)
    ensures var c := FormatDuration(t as real);
      CombineMinutes(c.minutes, c.seconds) == MinuteDecimal(t)
  {
    WholeSecondsNeverCarry(t);
    var m, s := t / 60, t % 60;
    assert FormatDuration(t as real) == Clock(m, s);
    assert CombineMinutes(m, s) == (m * 100 + s) as real / 100.0;
  }

  /**
   * The ledger's total duration, split by `formatDuration` and combined as
   * `M.SS`: the number the rate is multiplied by.
   */
  function CombinedTotal(es: seq<MediaEntry>): (d: real)
    ensures d == MinuteDecimal(TotalSeconds(es))
  {
    var clock := FormatDuration(TotalSeconds(es) as real);
    CombineWholeSeconds(TotalSeconds(es));
    CombineMinutes(clock.minutes, clock.seconds)
  }

  /** The charge for a (decimal) number of minutes at a per-minute rate. */
  function Price(minutes: real, rate: real): real {
    minutes * rate
  }

  lemma PriceNonNegative(minutes: real, rate: real)
    requires minutes >= 0.0 && rate >= 0.0
    ensures Price(minutes, rate) >= 0.0
  {
  }

  lemma PriceMonotone(x: real, y: real, rate: real)
    requires x <= y && rate >= 0.0
    ensures Price(x, rate) <= Price(y, rate)
  {
    assert (y - x) * rate >= 0.0;
  }

  /**
   * `totalCharge`: the combined total times the per-minute rate, which is
   * the `M.SS` reading of the total duration priced at that rate.
   */
  function TotalCharge(es: seq<MediaEntry>, rate: real): (c: real)
    ensures c == Price(MinuteDecimal(TotalSeconds(es)), rate)
  {
    Price(CombinedTotal(es), rate)
  }

  /**
   * Whether the label is shown: `totalCharge.toFixed(2) > 150`. Because
   * the comparison is made after rounding to the cent, the label appears
   * from 150.005 upward, and exactly 150.00 shows none.
   */
  function ShowsLabel(charge: real): (shown: bool)
    ensures shown <==> charge >= 150.005
  {
    Cents(charge) > LabelThresholdCents
  }

  lemma LabelExamples()
    ensures !ShowsLabel(150.0)
    ensures !ShowsLabel(150.004)
    ensures ShowsLabel(150.005)
    ensures ShowsLabel(150.01)
  {
  }

  lemma CombineExample()
    ensures CombineMinutes(1, 30) == 1.3
    ensures Price(1.3, DefaultRate) == 3.9 && Cents(3.9) == 390
  {
    RoundUnique(390.0, 390);
  }

  /** 90 seconds on the ledger at the default rate charge 3.90, not 4.50. */
  lemma ChargeExample(es: seq<MediaEntry>)
    requires TotalSeconds(es) == 90
    ensures TotalCharge(es, DefaultRate) == 3.9
    ensures Cents(TotalCharge(es, DefaultRate)) == 390
  {
    RoundUnique(390.0, 390);
  }

  lemma ChargeNonNegative(es: seq<MediaEntry>, rate: real)
    requires rate >= 0.0
    ensures TotalCharge(es, rate) >= 0.0
  {
    PriceNonNegative(MinuteDecimal(TotalSeconds(es)), rate);
  }

  /**
   * Reading seconds as hundredths never yields more than the true number
   * of minutes, and yields exactly that only on a whole minute.
   */
  lemma {:induction false} MinuteDecimalBelowMinutes(t: nat)
    ensures MinuteDecimal(t) <= t as real / 60.0
    ensures MinuteDecimal(t) == t as real / 60.0 <==> t % 60 == 0
  {
    var m, s := t / 60, t % 60;
    assert t as real == 60.0 * m as real + s as real;
  }

  /** A longer total never reads as a smaller `M.SS`. */
  lemma {:induction false} MinuteHundredthsMonotone(t: nat, u: nat)
    requires t <= u
    ensures MinuteHundredths(t) <= MinuteHundredths(u)
  {
    if t / 60 < u / 60 {
      assert (t / 60) * 100 + 100 <= (u / 60) * 100;
    } else {
      assert t / 60 == u / 60;
      assert t % 60 <= u % 60;
    }
  }

  /** At a non-negative rate, more total duration never lowers the charge. */
  lemma ChargeMonotone(a: seq<MediaEntry>, b: seq<MediaEntry>, rate: real)
    requires rate >= 0.0
    requires TotalSeconds(a) <= TotalSeconds(b)
    ensures TotalCharge(a, rate) <= TotalCharge(b, rate)
  {
    MinuteHundredthsMonotone(TotalSeconds(a), TotalSeconds(b));
    PriceMonotone(MinuteDecimal(TotalSeconds(a)), MinuteDecimal(TotalSeconds(b)), rate);
  }
}
