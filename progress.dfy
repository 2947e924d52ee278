/** The progress-bar generator `progress_bar` of bench.py:8-32 and its inner
    frame computation `show_progress`.

    The terminal's column count and the elapsed whole seconds read at each
    frame are parameters. The generator's interleaving with its consumer
    is recorded as one trace of events: the k-th element handed to the
    consumer, then the frame computed when the consumer asks for the next
    one, and after the last frame a single newline. */
module ProgressBar {
  import opened Text
  import opened Arithmetic
  import opened ElapsedClock

  /** `bar_width = columns - 20 if columns < 60 else 40`: the smaller of
      `columns - 20` and 40. */
  function BarWidth(columns: int): (w: int)
    ensures w <= 40 && w <= columns - 20
    ensures w == 40 || w == columns - 20
  {
    if columns < 60 then columns - 20 else 40
  }

  /** Python's `int(a / b)` for ints `a` and `b > 0`: the exact quotient
      truncated toward zero (the floor for `a >= 0`, the ceiling below). */
  function TruncDiv(a: int, b: int): (r: int)
    requires 0 < b
    ensures 0 <= a ==> 0 <= r && r * b <= a < (r + 1) * b
    ensures a < 0 ==> r <= 0 && (r - 1) * b < a <= r * b
  {
    var r := if 0 <= a then a / b else -((-a) / b);
    TruncDivBounds(a, b, r);
    r
  }

  lemma TruncDivBounds(a: int, b: int, r: int)
    requires 0 < b
    requires r == if 0 <= a then a / b else -((-a) / b)
    ensures 0 <= a ==> 0 <= r && r * b <= a < (r + 1) * b
    ensures a < 0 ==> r <= 0 && (r - 1) * b < a <= r * b
  {
    if 0 <= a {
      FloorBounds(a, b);
    } else {
      FloorBounds(-a, b);
      var q := (-a) / b;
      NegMul(q, b);
      NegMul(q + 1, b);
      assert -q - 1 == -(q + 1);
    }
  }

  /** `progress = int(bar_width * iteration / total)`: the number of `=`
      cells. Within a session (1 <= i <= total) it lies between 0 and the
      bar width, reaches the full width at the last element, and for a
      negative width (fewer than 20 columns) lies between that width and 0. */
  function Filled(width: int, i: int, total: int): (r: int)
    requires 0 < total
    ensures 0 <= width && 0 <= i <= total ==> 0 <= r <= width
    ensures width < 0 && 0 <= i <= total ==> width <= r <= 0
    ensures i == total ==> r == width
  {
    var r := TruncDiv(width * i, total);
    FilledBetween(width, i, total, r);
    r
  }

  lemma FilledBetween(width: int, i: int, total: int, r: int)
    requires 0 < total
    requires r == TruncDiv(width * i, total)
    ensures 0 <= width && 0 <= i <= total ==> 0 <= r <= width
    ensures width < 0 && 0 <= i <= total ==> width <= r <= 0
    ensures i == total ==> r == width
  {
    if 0 <= i <= total {
      if 0 <= width {
        MulMonotone(i, total, width);
        assert r * total <= width * total;
        MulCancel(r, width, total);
      } else {
        MulMonotone(i, total, -width);
        assert width * total <= r * total;
        MulCancel(width, r, total);
      }
    }
    if i == total {
      if 0 <= width {
        DivModUnique(width * total, total, width, 0);
      } else {
        DivModUnique(-width * total, total, -width, 0);
      }
    }
  }

  /** Within one session the filled-cell count never decreases as the
      iteration count grows. */
  lemma {:induction false} FilledMonotone(width: int, i: int, j: int, total: int)
    requires 0 <= width && 0 <= i <= j && 0 < total
    ensures Filled(width, i, total) <= Filled(width, j, total)
  {
    MulMonotone(i, j, width);
    DivMonotone(width * i, width * j, total);
  }

  /** `bar = "=" * progress + " " * (bar_width - progress)`. For a count
      between 0 and the width it is a row of exactly `width` cells, the
      first `filled` of them `=`, the rest blank; a negative count beyond a
      negative width leaves it empty. */
  function Bar(width: int, filled: int): (r: string)
    ensures 0 <= filled <= width ==> |r| == width
    ensures 0 <= filled <= width ==> forall k :: 0 <= k < |r| ==> r[k] == (if k < filled then '=' else ' ')
    ensures width <= filled <= 0 ==> r == []
    ensures forall k :: 0 <= k < |r| ==> r[k] == '=' || r[k] == ' '
  {
    Repeat('=', filled) + Repeat(' ', width - filled)
  }

  /** One rendered snapshot: the iteration it was computed for, the number
      of `=` cells, the bar, the split elapsed time and its `H:MM:SS` text. */
  datatype Frame = Frame(iteration: int, filled: int, bar: string, elapsed: Clock, elapsedText: string)

  /** `show_progress(iteration)`, given the bar width fixed at session start
      and the whole seconds elapsed when the frame is drawn. The source
      divides by `total`, so it may only be called for a non-empty input. */
  function ShowProgress(width: int, i: int, total: int, seconds: nat): (f: Frame)
    requires 0 < total
    ensures f.iteration == i
    ensures 0 <= width && 0 <= i <= total ==>
      0 <= f.filled <= width && |f.bar| == width
      && forall k :: 0 <= k < width ==> f.bar[k] == (if k < f.filled then '=' else ' ')
    ensures 0 <= width && i == total ==> f.bar == Repeat('=', width)
    ensures width < 0 && 0 <= i <= total ==> f.bar == []
    ensures TotalSeconds(f.elapsed) == seconds && f.elapsed.minutes < 60 && f.elapsed.seconds < 60

  {
    var filled := Filled(width, i, total);
    var clock := Split(seconds);
    Frame(i, filled, Bar(width, filled), clock, ClockText(clock))
  }

  /** The `H:MM:SS` text of a frame reads back as exactly the whole
      seconds elapsed when it was drawn. */
  lemma FrameTimeExact(width: int, i: int, total: int, seconds: nat)
    requires 0 < total
    ensures var f := ShowProgress(width, i, total, seconds);
      ParseClock(f.elapsedText) == Some(f.elapsed) && TotalSeconds(f.elapsed) == seconds
  {
    ClockTextRoundTrip(Split(seconds));
  }

  /** `f"\r[{bar}] {percent_complete: >5}% {elapsed_str}"`, with the
      formatted percentage supplied as text. */
  function Render(f: Frame, percentText: string): (r: string)
    ensures |r| == 6 + |f.bar| + |percentText| + |f.elapsedText|
    ensures r[0] == '\r' && r[1] == '['
    ensures r[2..2 + |f.bar|] == f.bar && r[2 + |f.bar|] == ']'
    ensures r[|r| - |f.elapsedText|..] == f.elapsedText
  {
    var r := "\r[" + f.bar + "] " + percentText + "% " + f.elapsedText;
    assert r == ("\r[" + f.bar) + ("] " + percentText + "% ") + f.elapsedText;
    r
  }

  /** A frame line starts with a carriage return, so it overwrites the
      previous one, and holds no newline of its own. */
  lemma FrameLine(width: int, i: int, total: int, seconds: nat, percentText: string)
    requires 0 < total
    requires forall k :: 0 <= k < |percentText| ==> percentText[k] != '\n'
    ensures var line := Render(ShowProgress(width, i, total, seconds), percentText);
      line[0] == '\r' && forall k :: 0 <= k < |line| ==> line[k] != '\n'
  {
    var f := ShowProgress(width, i, total, seconds);
    assert f.bar == Bar(width, f.filled);
    assert f.elapsedText == ClockText(f.elapsed);
    NoNewline(f.bar, percentText, f.elapsedText);
  }

  lemma NoNewline(bar: string, percentText: string, elapsedText: string)
    requires forall k :: 0 <= k < |bar| ==> bar[k] == '=' || bar[k] == ' '
    requires forall k :: 0 <= k < |percentText| ==> percentText[k] != '\n'
    requires forall k :: 0 <= k < |elapsedText| ==> IsDigit(elapsedText[k]) || elapsedText[k] == ':'
    ensures var line := "\r[" + bar + "] " + percentText + "% " + elapsedText;
      forall k :: 0 <= k < |line| ==> line[k] != '\n'
  {
    var line := "\r[" + bar + "] " + percentText + "% " + elapsedText;
    var a, b := "\r[" + bar, "] " + percentText + "% ";
    assert line == a + b + elapsedText;
    forall k | 0 <= k < |line| ensures line[k] != '\n' {
      if k < |a| {
        assert line[k] == a[k];
      } else if k < |a| + |b| {
        assert line[k] == b[k - |a|];
      } else {
        assert line[k] == elapsedText[k - |a| - |b|];
      }
    }
  }

  datatype Event<T> = Yielded(item: T) | Shown(frame: Frame) | Newline

  /** The frames a session draws, one per element: frame `k + 1` uses the
      elapsed seconds `clock[k]`. Entry `k` is for iteration `k + 1` and
      shows exactly `clock[k]` seconds; with a non-negative width every bar
      has that width, the filled count never decreases along the session,
      and the last bar is full. */
  function Frames(width: int, clock: seq<nat>): (r: seq<Frame>)
    ensures |r| == |clock|
    ensures forall k :: 0 <= k < |r| ==> r[k].iteration == k + 1 && TotalSeconds(r[k].elapsed) == clock[k]
    ensures 0 <= width ==> forall k :: 0 <= k < |r| ==> |r[k].bar| == width
    ensures 0 <= width ==> forall k, l :: 0 <= k <= l < |r| ==> r[k].filled <= r[l].filled
    ensures 0 <= width && 0 < |r| ==> r[|r| - 1].bar == Repeat('=', width)
  {
    var r := seq(|clock|, k requires 0 <= k < |clock| => ShowProgress(width, k + 1, |clock|, clock[k]));
    FramesFacts(width, clock, r);
    r
  }

  lemma FramesFacts(width: int, clock: seq<nat>, r: seq<Frame>)
    requires |r| == |clock|
    requires forall k :: 0 <= k < |r| ==> r[k] == ShowProgress(width, k + 1, |clock|, clock[k])
    ensures forall k :: 0 <= k < |r| ==> r[k].iteration == k + 1 && TotalSeconds(r[k].elapsed) == clock[k]
    ensures 0 <= width ==> forall k :: 0 <= k < |r| ==> |r[k].bar| == width
    ensures 0 <= width ==> forall k, l :: 0 <= k <= l < |r| ==> r[k].filled <= r[l].filled
    ensures 0 <= width && 0 < |r| ==> r[|r| - 1].bar == Repeat('=', width)
  {
    forall k | 0 <= k < |r|
      ensures r[k].filled == Filled(width, k + 1, |r|)
    {
      assert r[k] == ShowProgress(width, k + 1, |clock|, clock[k]);
    }
    FilledAlong(width, r);
  }

  /** Entry `k` of a session's frames is `show_progress(k + 1)`; stated
      apart so that callers need not unfold the whole of `Frames`. */
  lemma FrameEntry(width: int, clock: seq<nat>, k: nat)
    requires k < |clock|
    ensures Frames(width, clock)[k] == ShowProgress(width, k + 1, |clock|, clock[k])
  {
  }

  /** Frames whose filled counts follow `Filled` along the iterations
      never lose a filled cell from one frame to a later one. */
  lemma FilledAlong(width: int, r: seq<Frame>)
    requires forall k :: 0 <= k < |r| ==> r[k].filled == Filled(width, k + 1, |r|)
    ensures 0 <= width ==> forall k, l :: 0 <= k <= l < |r| ==> r[k].filled <= r[l].filled
  {
    if 0 <= width {
      forall k, l | 0 <= k <= l < |r| ensures r[k].filled <= r[l].filled {
        FilledMonotone(width, k + 1, l + 1, |r|);
      }
    }
  }

  /** The frame drawn after the consumer has taken element `k` (0-based):
      entry `k` of the session's frames, which is `show_progress(k + 1)`
      with the session's bar width and `total = |items|`. */
  function FrameAt<T>(items: seq<T>, columns: int, clock: seq<nat>, k: nat): (f: Frame)
    requires |clock| == |items| && k < |items|
    ensures f == ShowProgress(BarWidth(columns), k + 1, |items|, clock[k])
  {
    FrameEntry(BarWidth(columns), clock, k);
    Frames(BarWidth(columns), clock)[k]
  }

  /** The events of the first `n` loop rounds: each hands `items[k]` to the
      consumer and, once control comes back, shows `frames[k]`. */
  function Steps<T>(items: seq<T>, frames: seq<Frame>, n: nat): (r: seq<Event<T>>)
    requires |frames| == |items| && n <= |items|
    ensures |r| == 2 * n
  {
    if n == 0 then [] else
    Steps(items, frames, n - 1) + [Yielded(items[n - 1]), Shown(frames[n - 1])]
  }

  /** Everything one session produces, in order, ending in the newline. */
  function SessionTrace<T>(items: seq<T>, columns: int, clock: seq<nat>): (r: seq<Event<T>>)
    requires |clock| == |items|
    ensures |r| == 2 * |items| + 1 && r[|r| - 1] == Newline
  {
    Steps(items, Frames(BarWidth(columns), clock), |items|) + [Newline]
  }

  /** The elements handed to the consumer, in order. */
  function Yields<T>(trace: seq<Event<T>>): (r: seq<T>)
    ensures |r| <= |trace|
  {
    if trace == [] then []
    else Yields(trace[..|trace| - 1]) + (if trace[|trace| - 1].Yielded? then [trace[|trace| - 1].item] else [])
  }

  /** `progress_bar(iterable)` run to exhaustion, with `clock[k]` the whole
      seconds elapsed when frame `k + 1` is drawn. */
  method Run<T>(items: seq<T>, columns: int, clock: seq<nat>) returns (trace: seq<Event<T>>)
    requires |clock| == |items|
    ensures trace == SessionTrace(items, columns, clock)
    ensures items == [] ==> trace == [Newline]
  {
    var total := |items|;
    var width := BarWidth(columns);
    ghost var frames := Frames(width, clock);
    trace := [];
    var i := 0;
    while i < total
      invariant 0 <= i <= total
      invariant trace == Steps(items, frames, i)
    {
      var item := items[i];
      trace := trace + [Yielded(item)];
      i := i + 1;
      var frame := ShowProgress(width, i, total, clock[i - 1]);
      FrameEntry(width, clock, i - 1);
      trace := trace + [Shown(frame)];
    }
    trace := trace + [Newline];
  }

  /** Later loop rounds only append: the trace after `m` rounds is a
      prefix of the trace after `n >= m` rounds. */
  lemma {:induction false} StepsPrefix<T>(items: seq<T>, frames: seq<Frame>, m: nat, n: nat)
    requires |frames| == |items| && m <= n <= |items|
    ensures Steps(items, frames, n)[..2 * m] == Steps(items, frames, m)
  {
    if m < n {
      StepsPrefix(items, frames, m, n - 1);
      var p := Steps(items, frames, n - 1);
      var t := Steps(items, frames, n);
      assert t[..|p|] == p;
      assert t[..2 * m] == p[..2 * m];
    } else {
      assert Steps(items, frames, n)[..2 * n] == Steps(items, frames, n);
    }
  }

  /** Round `k` of the loop sits at positions `2k` and `2k + 1`. */
  lemma StepsRoundAt<T>(items: seq<T>, frames: seq<Frame>, n: nat, k: nat)
    requires |frames| == |items| && k < n <= |items|
    ensures var t := Steps(items, frames, n);
      t[2 * k] == Yielded(items[k]) && t[2 * k + 1] == Shown(frames[k])
  {
    StepsPrefix(items, frames, k + 1, n);
    var t := Steps(items, frames, n);
    var q := Steps(items, frames, k + 1);
    assert t[2 * k] == q[2 * k] && t[2 * k + 1] == q[2 * k + 1];
  }

  lemma StepsLayout<T>(items: seq<T>, frames: seq<Frame>, n: nat)
    requires |frames| == |items| && n <= |items|
    ensures var t := Steps(items, frames, n);
      && (forall k :: 0 <= k < n ==> t[2 * k] == Yielded(items[k]))
      && (forall k :: 0 <= k < n ==> t[2 * k + 1] == Shown(frames[k]))
      && (forall k :: 0 <= k < |t| ==> !t[k].Newline?)
  {
    var t := Steps(items, frames, n);
    forall k | 0 <= k < n
      ensures t[2 * k] == Yielded(items[k]) && t[2 * k + 1] == Shown(frames[k])
    {
      StepsRoundAt(items, frames, n, k);
    }
    forall k | 0 <= k < |t| ensures !t[k].Newline? {
      var j := k / 2;
      StepsRoundAt(items, frames, n, j);
      assert k == 2 * j || k == 2 * j + 1;
    }
  }

  /** The shape of a session: element k goes to the consumer at position
      2k, frame k + 1 follows it, and the newline comes last and only once. */
  lemma SessionLayout<T>(items: seq<T>, columns: int, clock: seq<nat>)
    requires |clock| == |items|
    ensures var t := SessionTrace(items, columns, clock);
      && |t| == 2 * |items| + 1
      && (forall k :: 0 <= k < |items| ==> t[2 * k] == Yielded(items[k]))
      && (forall k :: 0 <= k < |items| ==> t[2 * k + 1] == Shown(FrameAt(items, columns, clock, k)))
      && t[|t| - 1] == Newline
      && (forall k :: 0 <= k < |t| - 1 ==> !t[k].Newline?)
  {
    var t := SessionTrace(items, columns, clock);
    var frames := Frames(BarWidth(columns), clock);
    var s := Steps(items, frames, |items|);
    StepsLayout(items, frames, |items|);
    assert forall k :: 0 <= k < |s| ==> t[k] == s[k];
  }

  lemma {:induction false} YieldsAppend<T>(a: seq<Event<T>>, b: seq<Event<T>>)
    ensures Yields(a + b) == Yields(a) + Yields(b)
    decreases |b|
  {
    if b != [] {
      var b' := b[..|b| - 1];
      assert (a + b)[..|a + b| - 1] == a + b';
      YieldsAppend(a, b');
    } else {
      assert a + b == a;
    }
  }

  lemma {:induction false} StepsYields<T>(items: seq<T>, frames: seq<Frame>, n: nat)
    requires |frames| == |items| && n <= |items|
    ensures Yields(Steps(items, frames, n)) == items[..n]
  {
    if n > 0 {
      StepsYields(items, frames, n - 1);
      YieldsAppend(Steps(items, frames, n - 1), [Yielded(items[n - 1]), Shown(frames[n - 1])]);
      RoundYields(items[n - 1], Shown(frames[n - 1]));
      assert items[..n] == items[..n - 1] + [items[n - 1]];
    }
  }

  /** A loop round hands exactly its one element to the consumer. */
  lemma RoundYields<T>(x: T, e: Event<T>)
    requires !e.Yielded?
    ensures Yields([Yielded(x), e]) == [x]
  {
    var round := [Yielded(x), e];
    var first := [Yielded(x)];
    assert round[..1] == first;
    assert first[..0] == [];
    assert Yields(first) == [x];
  }

  /** The consumer receives every element exactly once, unchanged and in
      order: the wrapper passes the sequence through 1:1. */
  lemma SessionYields<T>(items: seq<T>, columns: int, clock: seq<nat>)
    requires |clock| == |items|
    ensures Yields(SessionTrace(items, columns, clock)) == items
  {
    var frames := Frames(BarWidth(columns), clock);
    StepsYields(items, frames, |items|);
    YieldsAppend(Steps(items, frames, |items|), [Newline]);
    var last: seq<Event<T>> := [Newline];
    assert Yields(last) == [] by {
      assert last[..0] == [];
    }
    assert items[..|items|] == items;
  }

  /** Across the frames of one session on a terminal of at least 20
      columns, the filled-cell count never decreases, every bar has the
      same width, and the `H:MM:SS` shown never goes back (compared
      lexicographically, hours first) while the clock does not. */
  lemma SessionFramesMonotone<T>(items: seq<T>, columns: int, clock: seq<nat>, k: nat, l: nat)
    requires |clock| == |items| && 20 <= columns && k <= l < |items|
    ensures FrameAt(items, columns, clock, k).filled <= FrameAt(items, columns, clock, l).filled
    ensures |FrameAt(items, columns, clock, k).bar| == |FrameAt(items, columns, clock, l).bar| == BarWidth(columns)
    ensures clock[k] <= clock[l] ==>
      ClockLe(FrameAt(items, columns, clock, k).elapsed, FrameAt(items, columns, clock, l).elapsed)
  {
    FilledMonotone(BarWidth(columns), k + 1, l + 1, |items|);
    if clock[k] <= clock[l] {
      ClockOrder(FrameAt(items, columns, clock, k).elapsed, FrameAt(items, columns, clock, l).elapsed);
    }
  }
}
