/** The elapsed-time part of a progress frame (bench.py:16-21): whole
    elapsed seconds split with two `divmod`s into hours, minutes and
    seconds, rendered as `H:MM:SS`. */
module ElapsedClock {
  import opened Text
  import opened Arithmetic

  datatype Clock = Clock(hours: nat, minutes: nat, seconds: nat)

  function TotalSeconds(c: Clock): nat {
    c.hours * 3600 + c.minutes * 60 + c.seconds
  }

  /** `minutes, seconds = divmod(elapsed, 60)` then
      `hours, minutes = divmod(minutes, 60)`. */
  function Split(elapsed: nat): (c: Clock)
    ensures TotalSeconds(c) == elapsed
    ensures c.minutes < 60 && c.seconds < 60
  {
    var m := elapsed / 60;
    var c := Clock(m / 60, m % 60, elapsed % 60);
    assert elapsed == m * 60 + elapsed % 60;
    assert m == (m / 60) * 60 + m % 60;
    assert m * 60 == (m / 60) * 3600 + (m % 60) * 60;
    c
  }

  /** The split is the only clock with minutes and seconds below 60 that
      adds up to the elapsed time. */
  lemma SplitUnique(c: Clock, elapsed: nat)
    requires c.minutes < 60 && c.seconds < 60
    requires TotalSeconds(c) == elapsed
    ensures c == Split(elapsed)
  {
    var m := c.hours * 60 + c.minutes;
    assert elapsed == m * 60 + c.seconds;
    assert elapsed / 60 == m && elapsed % 60 == c.seconds by {
      DivModUnique(elapsed, 60, m, c.seconds);
    }
    assert m / 60 == c.hours && m % 60 == c.minutes by {
      DivModUnique(m, 60, c.hours, c.minutes);
    }
  }

  /** `"{:01}:{:02}:{:02}".format(hours, minutes, seconds)`. */
  function ClockText(c: Clock): (r: string)
    ensures forall k :: 0 <= k < |r| ==> IsDigit(r[k]) || r[k] == ':'
  {
    var h, mm, ss := ZeroPad(c.hours, 1), ZeroPad(c.minutes, 2), ZeroPad(c.seconds, 2);
    var r := h + ":" + mm + ":" + ss;
    assert forall k :: 0 <= k < |r| ==> IsDigit(r[k]) || r[k] == ':' by {
      forall k | 0 <= k < |r| ensures IsDigit(r[k]) || r[k] == ':' {
        var m := |h| + 1 + |mm|;
        if k < |h| { assert r[k] == h[k]; }
        else if k == |h| || k == m {}
        else if k < m { assert r[k] == mm[k - |h| - 1]; }
        else { assert r[k] == ss[k - m - 1]; }
      }
    }
    r
  }

  /** `a` comes no later than `b` when compared as (hours, minutes,
      seconds), most significant field first. */
  predicate ClockLe(a: Clock, b: Clock) {
    a.hours < b.hours
    || (a.hours == b.hours && (a.minutes < b.minutes
        || (a.minutes == b.minutes && a.seconds <= b.seconds)))
  }

  /** For clocks with minutes and seconds below 60, ordering by total
      seconds gives the lexicographic ordering (hours, then minutes, then
      seconds) of what is shown. */
  lemma ClockOrder(a: Clock, b: Clock)
    requires a.minutes < 60 && a.seconds < 60 && b.minutes < 60 && b.seconds < 60
    requires TotalSeconds(a) <= TotalSeconds(b)
    ensures ClockLe(a, b)
  {
  }

  /** Reads an `H:MM:SS` text back: an hours numeral of any length, then
      two-digit minutes and two-digit seconds. */
  function ParseClock(t: string): (r: Option<Clock>)
    ensures r.Some? ==> 7 <= |t| && t[|t| - 6] == ':' && t[|t| - 3] == ':'
  {
    if |t| < 7 then None
    else
      var n := |t|;
      var h, mm, ss := t[..n - 6], t[n - 5..n - 3], t[n - 2..];
      if t[n - 6] == ':' && t[n - 3] == ':' && AllDigits(h) && AllDigits(mm) && AllDigits(ss)
      then Some(Clock(DecimalValue(h), DecimalValue(mm), DecimalValue(ss)))
      else None
  }

  /** Rendering loses nothing: the text of a clock whose minutes and
      seconds are below 60 reads back as that clock, and its length is the
      hours numeral plus six characters. */
  lemma {:induction false} ClockTextRoundTrip(c: Clock)
    requires c.minutes < 60 && c.seconds < 60
    ensures |ClockText(c)| == |Decimal(c.hours)| + 6
    ensures ParseClock(ClockText(c)) == Some(c)
  {
    ZeroPadReadsBack(c.hours, 1);
    ZeroPadReadsBack(c.minutes, 2);
    ZeroPadReadsBack(c.seconds, 2);
    var h, mm, ss := ZeroPad(c.hours, 1), ZeroPad(c.minutes, 2), ZeroPad(c.seconds, 2);
    var t := ClockText(c);
    var n := |t|;
    assert t == h + ":" + mm + ":" + ss;
    assert t[..n - 6] == h;
    assert t[n - 5..n - 3] == mm;
    assert t[n - 2..] == ss;
  }

  /** What a frame shows for whole elapsed seconds reads back as exactly
      that many seconds. */
  lemma ElapsedTextExact(elapsed: nat)
    ensures var c := ParseClock(ClockText(Split(elapsed)));
      c.Some? && TotalSeconds(c.value) == elapsed
      && c.value.minutes < 60 && c.value.seconds < 60
  {
    ClockTextRoundTrip(Split(elapsed));
  }
}
