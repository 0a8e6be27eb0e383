/** The duration decomposition of app.js `updateUI`: a positive millisecond
    difference becomes whole days, hours, minutes and seconds. */
module Duration {

  const SecondsPerMinute: nat := 60
  const SecondsPerHour: nat := 3600
  const SecondsPerDay: nat := 3600 * 24

  datatype Parts = Parts(days: int, hours: int, minutes: int, seconds: int)

  /** Each field within the range of its unit. */
  predicate InRange(p: Parts) {
    && p.days >= 0
    && 0 <= p.hours < 24
    && 0 <= p.minutes < 60
    && 0 <= p.seconds < 60
  }

  /** The number of whole seconds a decomposition stands for. */
  function Compose(p: Parts): int {
    p.days * SecondsPerDay + p.hours * SecondsPerHour + p.minutes * SecondsPerMinute + p.seconds
  }

  /** Whole seconds in a positive millisecond difference; `Math.floor` and
      Dafny's division agree on non-negative operands. */
  function TotalSeconds(diffMs: int): (t: nat)
    requires diffMs > 0
    ensures t * 1000 <= diffMs < t * 1000 + 1000
  {
    diffMs / 1000
  }

  /** The four displayed fields for a positive difference: each within the
      range of its unit, and together exactly the whole seconds remaining. */
  function Decompose(diffMs: int): (p: Parts)
    requires diffMs > 0
    ensures InRange(p)
    ensures Compose(p) == TotalSeconds(diffMs)
  {
    var t := TotalSeconds(diffMs);
    var p := Parts(t / SecondsPerDay, (t % SecondsPerDay) / SecondsPerHour,
                   (t % SecondsPerHour) / SecondsPerMinute, t % SecondsPerMinute);
    var inDay := t % SecondsPerDay;
    assert t == p.days * SecondsPerDay + inDay;
    assert inDay == p.hours * SecondsPerHour + inDay % SecondsPerHour;
    // the hour remainder of t is the hour remainder of the day remainder
    DivModUnique(t, SecondsPerHour, p.days * 24 + p.hours, inDay % SecondsPerHour);
    var inHour := t % SecondsPerHour;
    assert inHour == p.minutes * SecondsPerMinute + inHour % SecondsPerMinute;
    // likewise for minutes
    DivModUnique(t, SecondsPerMinute, p.days * 1440 + p.hours * 60 + p.minutes, inHour % SecondsPerMinute);
    p
  }

  /** Division facts specialised to non-negative operands. */
  lemma DivModUnique(n: int, d: int, q: int, r: int)
    requires d > 0 && 0 <= r < d && n == q * d + r
    ensures n / d == q && n % d == r
  {
    var k := q - n / d;
    assert k * d == n % d - r by {
      assert n == (n / d) * d + n % d;
      assert q * d - (n / d) * d == k * d;
    }
    MultipleOutsideRange(k, d);
  }

  /** A non-zero multiple of `d` is at least `d` away from zero. */
  lemma MultipleOutsideRange(k: int, d: int)
    requires d > 0
    ensures k >= 1 ==> k * d >= d
    ensures k <= -1 ==> k * d <= -d
  {
  }

  /** Conversely, in-range fields that reconstruct the whole seconds are the
      ones `updateUI` displays. */
  lemma DecomposeUnique(diffMs: int, p: Parts)
    requires diffMs > 0
    requires InRange(p) && Compose(p) == TotalSeconds(diffMs)
    ensures Decompose(diffMs) == p
  {
    var t := TotalSeconds(diffMs);
    var inDay := p.hours * 3600 + p.minutes * 60 + p.seconds;
    DivModUnique(t, 86400, p.days, inDay);
    DivModUnique(inDay, 3600, p.hours, p.minutes * 60 + p.seconds);
    DivModUnique(t, 3600, p.days * 24 + p.hours, p.minutes * 60 + p.seconds);
    DivModUnique(p.minutes * 60 + p.seconds, 60, p.minutes, p.seconds);
    DivModUnique(t, 60, p.days * 1440 + p.hours * 60 + p.minutes, p.seconds);
  }

  /** Composing in-range fields, scaling to milliseconds and decomposing
      again gives the same fields, whatever the sub-second part. */
  lemma DecomposeCompose(p: Parts, ms: int)
    requires InRange(p) && 0 <= ms < 1000
    requires Compose(p) * 1000 + ms > 0
    ensures Decompose(Compose(p) * 1000 + ms) == p
  {
    var diffMs := Compose(p) * 1000 + ms;
    DivModUnique(diffMs, 1000, Compose(p), ms);
    DecomposeUnique(diffMs, p);
  }

  /** One day, two hours, three minutes and four seconds. */
  lemma DecomposeExample()
    ensures Decompose(93784000) == Parts(1, 2, 3, 4)
  {
  }

  /** Less than a whole second remaining decomposes to all zeros. */
  lemma DecomposeUnderASecond(diffMs: int)
    requires 0 < diffMs < 1000
    ensures Decompose(diffMs) == Parts(0, 0, 0, 0)
  {
    DecomposeUnique(diffMs, Parts(0, 0, 0, 0));
  }
}
