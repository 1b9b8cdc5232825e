/**
  The arithmetic of `_recalc` (src/counter.js:29-45): the signed whole-second
  offset between the clock and the timestamp, and its magnitude split into
  days, hours, minutes and seconds.
 */
module Offsets {

  const SecondsPerDay := 86400
  const SecondsPerHour := 3600
  const SecondsPerMinute := 60

  /**
    The object `_calc` once `_recalc` has filled it: the signed offset in
    seconds and the magnitudes of its days, hours, minutes and seconds.
   */
  datatype Breakdown = Breakdown(offset: int, d: nat, h: nat, m: nat, s: nat)

  function Abs(x: int): nat {
    if x < 0 then -x else x
  }

  /**
    `Math.round(ms / 1000)`: JavaScript rounds halves towards positive
    infinity, which for an integer count of milliseconds is floor division of
    `ms + 500` by 1000. The result is the one integer whose half-open
    rounding interval holds `ms`.
   */
  function RoundSeconds(ms: int): (k: int)
    ensures 1000 * k - 500 <= ms < 1000 * k + 500
  {
    (ms + 500) / 1000
  }

  /** The number of seconds that days, hours, minutes and seconds stand for. */
  function Total(d: nat, h: nat, m: nat, s: nat): nat {
    d * SecondsPerDay + h * SecondsPerHour + m * SecondsPerMinute + s
  }

  /**
    What `_recalc` leaves in `_calc` for a clock reading `now`, stated with
    remainders rather than with the source's successive subtractions.
   */
  function Compute(now: int, timestamp: int): (c: Breakdown)
    ensures c.offset == RoundSeconds(now - timestamp)
    ensures Total(c.d, c.h, c.m, c.s) == Abs(c.offset)
    ensures c.h < 24 && c.m < 60 && c.s < 60
  {
    var offset := RoundSeconds(now - timestamp);
    var total := Abs(offset);
    SplitSeconds(total);
    Breakdown(offset, total / SecondsPerDay, total % SecondsPerDay / SecondsPerHour,
              total % SecondsPerHour / SecondsPerMinute, total % SecondsPerMinute)
  }

  /** A positive multiple of `d` is at least `d`. */
  lemma MulAtLeast(d: nat, x: int)
    requires x >= 1
    ensures d * x >= d
  {
  }

  /** Division with a remainder below the divisor has exactly one answer. */
  lemma DivUnique(n: nat, d: nat, q: nat, r: nat)
    requires d > 0 && r < d && n == d * q + r
    ensures n / d == q && n % d == r
  {
    var q', r' := n / d, n % d;
    assert d * q' + r' == d * q + r;
    assert d * (q - q') == r' - r by {
      assert d * (q - q') == d * q - d * q';
    }
    if q' < q {
      MulAtLeast(d, q - q');
    } else if q' > q {
      MulAtLeast(d, q' - q);
    }
  }

  /** Days, hours, minutes and seconds by remainders add back up to the total. */
  lemma SplitSeconds(total: nat)
    ensures Total(total / SecondsPerDay, total % SecondsPerDay / SecondsPerHour,
                  total % SecondsPerHour / SecondsPerMinute, total % SecondsPerMinute) == total
    ensures total % SecondsPerDay / SecondsPerHour < 24
  {
    var d, r1 := total / SecondsPerDay, total % SecondsPerDay;
    var h, r2 := r1 / SecondsPerHour, r1 % SecondsPerHour;
    var m, s := r2 / SecondsPerMinute, r2 % SecondsPerMinute;
    assert total == d * SecondsPerDay + r1 && r1 == h * SecondsPerHour + r2 && r2 == m * SecondsPerMinute + s;
    DivUnique(total, SecondsPerHour, 24 * d + h, r2);
    DivUnique(total, SecondsPerMinute, 1440 * d + 60 * h + m, s);
  }

  /** Rounding has exactly one answer: any integer whose interval holds `ms` is it. */
  lemma RoundSecondsUnique(ms: int, k: int)
    requires 1000 * k - 500 <= ms < 1000 * k + 500
    ensures RoundSeconds(ms) == k
  {
    var r := RoundSeconds(ms);
    assert 1000 * r - 500 <= ms < 1000 * r + 500;
    assert 1000 * (r - k) < 1000 && 1000 * (k - r) < 1000;
  }

  /**
    The split into days, hours, minutes and seconds is the only one with
    hours below 24 and minutes and seconds below 60.
   */
  lemma BreakdownUnique(now: int, timestamp: int, d: nat, h: nat, m: nat, s: nat)
    requires h < 24 && m < 60 && s < 60
    requires Total(d, h, m, s) == Abs(RoundSeconds(now - timestamp))
    ensures Compute(now, timestamp) == Breakdown(RoundSeconds(now - timestamp), d, h, m, s)
  {
    var c := Compute(now, timestamp);
    var rest := h * SecondsPerHour + m * SecondsPerMinute + s;
    assert 0 <= rest < SecondsPerDay;
    assert c.d == d by {
      assert Total(c.d, c.h, c.m, c.s) == Total(d, h, m, s);
      var crest := c.h * SecondsPerHour + c.m * SecondsPerMinute + c.s;
      assert 0 <= crest < SecondsPerDay;
      assert (c.d - d) * SecondsPerDay == rest - crest;
    }
    assert c.h == h by {
      var r1 := m * SecondsPerMinute + s;
      var cr1 := c.m * SecondsPerMinute + c.s;
      assert 0 <= r1 < SecondsPerHour && 0 <= cr1 < SecondsPerHour;
      assert (c.h - h) * SecondsPerHour == r1 - cr1;
    }
    assert c.m == m by {
      assert (c.m - m) * SecondsPerMinute == s - c.s;
    }
  }

  /** An offset of exactly `k` whole seconds is reported as `k`, components and all. */
  lemma WholeSecondOffset(timestamp: int, k: int)
    ensures Compute(timestamp + 1000 * k, timestamp).offset == k
    ensures var c := Compute(timestamp + 1000 * k, timestamp); Total(c.d, c.h, c.m, c.s) == Abs(k)
  {
    RoundSecondsUnique(1000 * k, k);
  }

  /**
    Only `offset` carries the sign: the same whole number of seconds before
    and after the timestamp gives the same days, hours, minutes and seconds.
   */
  lemma SignOnlyInOffset(timestamp: int, k: int)
    ensures var ahead := Compute(timestamp + 1000 * k, timestamp);
            var behind := Compute(timestamp - 1000 * k, timestamp);
            ahead.offset == -behind.offset &&
            ahead.(offset := 0) == behind.(offset := 0)
  {
    RoundSecondsUnique(1000 * k, k);
    RoundSecondsUnique(-1000 * k, -k);
  }
}
