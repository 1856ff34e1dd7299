/**
 * The ledger's total duration and the minutes/seconds split used both for
 * the grand total and for each row.
 */
module Durations {
  import opened Rounding
  import opened Media

  /** A duration as displayed: whole minutes and whole seconds. */
  datatype Clock = Clock(minutes: nat, seconds: nat)

  /** `Math.floor(t / 60)`. */
  function RawMinutes(t: real): int {
    Floor(t / 60.0)
  }

  /** `Math.round(t % 60)`; for `t >= 0` the remainder is `t - 60 * floor(t / 60)`. */
  function RawSeconds(t: real): int {
    Round(t - 60.0 * RawMinutes(t) as real)
  }

  /**
   * `formatDuration`: split `t` seconds into minutes and rounded seconds,
   * moving a rounded 60 seconds into the next minute. The result is always
   * `Math.round(t)` seconds written in base 60.
   */
  function FormatDuration(t: real): (c: Clock)
    requires t >= 0.0
    ensures c.seconds < 60
    ensures c.minutes * 60 + c.seconds == Round(t)
  {
    var minutes := RawMinutes(t);
    var rest := t - 60.0 * minutes as real;
    RoundShift(rest, 60 * minutes);
    var seconds := RawSeconds(t);
    if seconds == 60 then Clock(minutes + 1, 0) else Clock(minutes, seconds)
  }

  /**
   * For a whole number of seconds the rounded remainder is already below
   * 60, so the carry branch is never taken and the split is plain div/mod.
   */
  lemma WholeSecondsNeverCarry(n: nat)
    ensures RawMinutes(n as real) == n / 60
    ensures RawSeconds(n as real) == n % 60 < 60
    ensures FormatDuration(n as real) == Clock(n / 60, n % 60)
  {
    FloorUnique(n as real / 60.0, n / 60);
    RoundWhole(n % 60);
  }

  /**
   * The carry fires exactly when the remainder within the minute rounds up
   * to 60, and then it yields the next minute with zero seconds.
   */
  lemma CarryBranch(t: real)
    requires t >= 0.0
    ensures RawSeconds(t) == 60 <==> t - 60.0 * RawMinutes(t) as real >= 59.5
    ensures RawSeconds(t) == 60 ==> FormatDuration(t) == Clock(RawMinutes(t) + 1, 0)
    ensures RawSeconds(t) < 60 ==> FormatDuration(t) == Clock(RawMinutes(t), RawSeconds(t))
  {
    var rest := t - 60.0 * RawMinutes(t) as real;
    if rest >= 59.5 {
      RoundUnique(rest, 60);
    }
  }

  /** The carry is reachable only from a fractional duration: 59.6 seconds shows as 1m 0s. */
  lemma CarryExample()
    ensures RawMinutes(59.6) == 0 && RawSeconds(59.6) == 60
    ensures FormatDuration(59.6) == Clock(1, 0)
  {
    FloorUnique(59.6 / 60.0, 0);
    RoundUnique(59.6, 60);
  }

  lemma FormatExamples()
    ensures FormatDuration(125.0) == Clock(2, 5)
    ensures FormatDuration(90.0) == Clock(1, 30)
  {
    WholeSecondsNeverCarry(125);
    WholeSecondsNeverCarry(90);
  }

  /** The duration shown on one row (the same split, applied to that entry alone). */
  function RowClock(e: MediaEntry): (c: Clock)
    ensures c.minutes * 60 + c.seconds == e.durationSeconds
    ensures c.seconds < 60
  {
    RoundWhole(e.durationSeconds);
    FormatDuration(e.durationSeconds as real)
  }

  // ---------------------------------------------------------------------
  // Total duration
  // ---------------------------------------------------------------------

  /** The sum of the entries' durations. */
  function TotalSeconds(es: seq<MediaEntry>): nat {
    if |es| == 0 then 0 else es[0].durationSeconds + TotalSeconds(es[1..])
  }

  lemma {:induction false} TotalAppend(a: seq<MediaEntry>, b: seq<MediaEntry>)
    ensures TotalSeconds(a + b) == TotalSeconds(a) + TotalSeconds(b)
  {
    if |a| == 0 {
      assert a + b == b;
    } else {
      TotalAppend(a[1..], b);
      assert (a + b)[1..] == a[1..] + b;
    }
  }

  /** `files.reduce((total, file) => total + file.durationSeconds, 0)`, left to right. */
  method ReduceTotal(es: seq<MediaEntry>) returns (total: nat)
    ensures total == TotalSeconds(es)
  {
    total := 0;
    var i := 0;
    while i < |es|
      invariant 0 <= i <= |es|
      invariant total == TotalSeconds(es[..i])
    {
      assert es[..i + 1] == es[..i] + [es[i]];
      TotalAppend(es[..i], [es[i]]);
      total := total + es[i].durationSeconds;
      i := i + 1;
    }
    assert es[..i] == es;
  }

  /** Taking out the entry at `i` takes its duration out of the total. */
  lemma TotalWithout(b: seq<MediaEntry>, i: nat)
    requires i < |b|
    ensures TotalSeconds(b) == b[i].durationSeconds + TotalSeconds(b[..i] + b[i + 1..])
  {
    var before, after := b[..i], b[i + 1..];
    assert b == before + ([b[i]] + after);
    TotalCons(b[i], after);
    TotalAppend(before, [b[i]] + after);
    TotalAppend(before, after);
  }

  lemma TotalCons(x: MediaEntry, rest: seq<MediaEntry>)
    ensures TotalSeconds([x] + rest) == x.durationSeconds + TotalSeconds(rest)
  {
    assert ([x] + rest)[1..] == rest;
  }

  lemma MultisetWithout<T>(b: seq<T>, i: nat)
    requires i < |b|
    ensures multiset(b[..i] + b[i + 1..]) == multiset(b) - multiset{b[i]}
  {
    assert b == b[..i] + [b[i]] + b[i + 1..];
  }

  /** The total does not depend on the order of the entries. */
  lemma {:induction false} TotalPermutation(a: seq<MediaEntry>, b: seq<MediaEntry>)
    requires multiset(a) == multiset(b)
    ensures TotalSeconds(a) == TotalSeconds(b)
    decreases |a|
  {
    if |a| == 0 {
      assert |b| == |multiset(b)| == 0;
    } else {
      var x := a[0];
      assert x in multiset(b);
      var i :| 0 <= i < |b| && b[i] == x;
      MultisetWithout(b, i);
      MultisetWithout(a, 0);
      TotalPermutation(a[1..], b[..i] + b[i + 1..]);
      TotalWithout(b, i);
    }
  }

  lemma TotalExample(a: MediaEntry, b: MediaEntry, c: MediaEntry)
    requires a.durationSeconds == 5 && b.durationSeconds == 10 && c.durationSeconds == 0
    ensures TotalSeconds([a, b, c]) == 15
    ensures TotalSeconds([c, a, b]) == 15
  {
    assert [a, b, c][1..] == [b, c] && [b, c][1..] == [c] && [c][1..] == [];
    assert TotalSeconds([c]) == 0;
    assert TotalSeconds([b, c]) == 10;
    assert [c, a, b][1..] == [a, b] && [a, b][1..] == [b] && [b][1..] == [];
    assert TotalSeconds([b]) == 10;
    assert TotalSeconds([a, b]) == 15;
  }
}
