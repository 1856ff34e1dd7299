/**
 * JavaScript's number operations that the ledger uses, on exact reals:
 * `Math.floor`, `Math.round`, and the
 * value `Number(x.toFixed(2))` as a whole number of hundredths.
 */
module Rounding {

  /** `Math.floor`: the greatest integer not above `x`. */
  function Floor(x: real): (r: int)
    ensures r as real <= x < r as real + 1.0
  {
    x.Floor
  }

  lemma FloorUnique(x: real, n: int)
    requires n as real <= x < n as real + 1.0
    ensures Floor(x) == n
  {
  }

  /** `Math.round`: the nearest integer, a tie going up (towards +Infinity). */
  function Round(x: real): (r: int)
    ensures r as real - 0.5 <= x < r as real + 0.5
  {
    Floor(x + 0.5)
  }

  /** The integer within half a unit (ties up) is the one `Math.round` picks. */
  lemma RoundUnique(x: real, n: int)
    requires n as real - 0.5 <= x < n as real + 0.5
    ensures Round(x) == n
  {
    FloorUnique(x + 0.5, n);
  }

  /** Rounding commutes with adding a whole number. */
  lemma RoundShift(x: real, n: int)
    ensures Round(n as real + x) == n + Round(x)
  {
    RoundUnique(n as real + x, n + Round(x));
  }

  lemma RoundWhole(n: int)
    ensures Round(n as real) == n
  {
    RoundUnique(n as real, n);
  }

  /**
   * `Number(x.toFixed(2))` as a count of hundredths: the nearest multiple of
   * 0.01, a tie going away from zero (toFixed rounds the magnitude and then
   * puts the sign back).
   */
  function Cents(x: real): (c: int)
    ensures x >= 0.0 ==> c >= 0 && c as real - 0.5 <= 100.0 * x < c as real + 0.5
    ensures x < 0.0 ==> c <= 0 && c as real - 0.5 < 100.0 * x <= c as real + 0.5
  {
    if x >= 0.0 then Round(100.0 * x) else -Round(-100.0 * x)
  }
}
