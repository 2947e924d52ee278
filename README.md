# Progress bar and Fibonacci workloads of a Python micro-benchmark

This project models the integer core of the benchmark script `bench.py`
in Dafny.

- **The `progress_bar` generator.** It wraps a sized sequence and hands
  each element to the consumer unchanged. Each time the consumer comes
  back for the next element, it draws one frame. A frame holds:
  - a bar `[====    ]` whose width comes from the terminal's column count;
  - a percentage;
  - the elapsed time as `H:MM:SS`.

  When the input runs out, the generator prints one newline.
- **The two exact-integer Fibonacci workloads.** One is the recursive
  inner `fibonacci`. The other is the two-variable loop of
  `fibonacci_iterative`.

Inputs that the source reads from its environment are parameters here:
- the terminal's column count is an `int`;
- the elapsed time at each frame is a whole number of seconds
  (`clock[k]` for the frame drawn after element `k`).

The generator's hand-offs with its consumer are recorded as one trace of
events:
- `Yielded(x)` when an element goes to the consumer;
- `Shown(frame)` when a frame is drawn;
- `Newline` at the end.

Modules:
- `Text` (text.dfy): Python's `c * n` string repetition; the `{:0w}`
  zero-padded integer field; the decimal reading that undoes it.
- `Arithmetic` (arith.dfy): helper facts about multiplication and
  division on integers.
- `ElapsedClock` (clock.dfy): the two `divmod`s that split the elapsed
  seconds; the `H:MM:SS` text; a parser that reads the text back.
- `ProgressBar` (progress.dfy): bar width, filled-cell count, bar string,
  `show_progress`, the frame line, the session trace, and the generator
  loop `Run`, which is proved to produce exactly the session trace.
- `Fibonacci` (fibonacci.dfy): `range`, the recursive `fibonacci`, and
  the iterative loop.

## Edge cases

- **No fallback width.** `get_terminal_size()` raises when standard
  output is not a terminal, so the column count is an input with no
  default.
- **Negative widths.** Fewer than 20 columns gives a negative width
  `columns - 20`. The model keeps that case. Python's `'=' * n` with
  `n <= 0` is the empty string, so the bar is then empty
  (`ShowProgress`).
- **Empty input.** For an input of length 0 the loop body never runs and
  only the newline is printed. `ShowProgress` requires `0 < total`,
  because the source divides by `total`. That every call in `Run` meets
  this requirement is part of what is verified, and `Run` states that
  an empty input yields the trace `[Newline]`.

## Model

| member | source | states |
|---|---|---|
| `ProgressBar.BarWidth` | bench.py:12 | the bar width is the smaller of `columns - 20` and 40: it is at most both and equal to one of them |
| `ProgressBar.TruncDiv` | bench.py:15 | `int(a / b)` truncates the exact quotient toward zero: the floor for `a >= 0`, the ceiling for `a < 0` |
| `ProgressBar.Filled` | bench.py:15 | for `0 <= i <= total`, the filled count lies in `[0, width]` when the width is non-negative and in `[width, 0]` when it is negative; at `i == total` it equals the width |
| `ProgressBar.FilledMonotone` | bench.py:15 | for a non-negative width, the filled count never decreases as the iteration count grows |
| `ProgressBar.Bar` | bench.py:23 | for `0 <= filled <= width`, the bar has exactly `width` cells: `=` before position `filled`, blank after; for `width <= filled <= 0` it is empty; every cell is `=` or blank |
| `Text.Repeat` | bench.py:23 | `c * n` has `max(0, n)` characters, each equal to `c` |
| `ProgressBar.ShowProgress` | bench.py:14-23 | a frame inside a session with width at least 0 has a bar of exactly that width, with the filled count in bounds; the last frame's bar is all `=`; a negative width gives an empty bar; the split elapsed time adds back to the given seconds, with minutes and seconds below 60 |
| `ProgressBar.FrameTimeExact` | bench.py:16-21 | a frame's `H:MM:SS` text parses back to the frame's clock, which adds up to the elapsed seconds |
| `ProgressBar.Render` | bench.py:25 | the frame line `\r[<bar>] <percent>% <H:MM:SS>`: it starts with `\r[`, the bar follows and is closed by `]`, the elapsed text ends the line, and the length is the sum of the parts plus six |
| `ProgressBar.FrameLine` | bench.py:25-26 | a frame line starts with a carriage return and holds no newline, whenever the percentage text holds none |
| `ElapsedClock.Split` | bench.py:17-18 | the two `divmod`s give `hours*3600 + minutes*60 + seconds == elapsed`, with minutes and seconds below 60 |
| `ElapsedClock.ClockText` | bench.py:19-21 | the `{:01}:{:02}:{:02}` text of hours, minutes and seconds: every character is a digit or `:` |
| `ElapsedClock.ParseClock` | bench.py:19-21 | reference definition with no counterpart in the source, used to state that the clock text loses nothing: a text it accepts ends in `:MM:SS` with the two colons in place |
| `ElapsedClock.ClockOrder` | bench.py:17-21 | for normalised clocks, a smaller-or-equal total of seconds means a display that is smaller or equal lexicographically: hours first, then minutes, then seconds |
| `ElapsedClock.SplitUnique` | bench.py:17-18 | any clock with minutes and seconds below 60 that adds up to the elapsed time is the split |
| `ElapsedClock.ClockTextRoundTrip` | bench.py:19-21 | the `{:01}:{:02}:{:02}` text of a clock is the hours numeral plus six characters, and it parses back to the same clock |
| `ElapsedClock.ElapsedTextExact` | bench.py:16-21 | the text shown for whole elapsed seconds parses back to a clock that adds up to exactly those seconds |
| `Text.Decimal` | bench.py:19-21 | a numeral is a non-empty run of digits with no leading zero; one digit below 10 and at most two below 100 |
| `Text.DecimalRoundTrip` | bench.py:19-21 | reading a numeral back as a number gives the number it was made from |
| `Text.ZeroPad` | bench.py:19-21 | the `{:0w}` field of a non-negative int: all digits, and as wide as the field width or the numeral, whichever is larger |
| `Text.ZeroPadReadsBack` | bench.py:19-21 | a zero-padded field is all digits, is as wide as the field width or the numeral (whichever is larger), and reads back as the number |
| `ProgressBar.Run` | bench.py:8-32 | running the generator to exhaustion produces exactly the session trace; an empty input produces only the newline |
| `ProgressBar.Frames` | bench.py:28-30 | the frames one session draws, one per element: entry `k` is for iteration `k + 1` and shows exactly `clock[k]` seconds; with a non-negative width every bar has that width, the filled count never decreases from one frame to a later one, and the last bar is all `=` |
| `ProgressBar.FrameAt` | bench.py:28-30 | the frame drawn after element `k` is entry `k` of `Frames`, which is `show_progress(k + 1)` with the bar width of the given columns and `total = len(items)` |
| `ProgressBar.Steps` | bench.py:28-30 | the events of the first `n` loop rounds, each handing out one element and then drawing its frame: `2n` events |
| `ProgressBar.SessionTrace` | bench.py:28-32 | the events of a whole session: the loop rounds, then the newline; `2·total + 1` events, the last being the newline |
| `ProgressBar.Yields` | bench.py:29 | reference definition with no counterpart in the source: the elements a trace hands to the consumer, never more than the trace's length |
| `ProgressBar.StepsPrefix` | bench.py:28-30 | later rounds only append: the trace after `m` rounds is a prefix of the trace after `n >= m` rounds |
| `ProgressBar.StepsRoundAt` | bench.py:28-30 | round `k` sits at positions `2k` (element `k` handed out) and `2k + 1` (frame `k + 1`) |
| `ProgressBar.StepsLayout` | bench.py:28-30 | after `n` loop rounds the trace has `2n` events: element `k` at position `2k`, frame `k + 1` at position `2k + 1`, and no newline |
| `ProgressBar.SessionLayout` | bench.py:28-32 | a session has `2·total + 1` events: each element is followed by its frame, and the newline comes last and only once |
| `ProgressBar.StepsYields` | bench.py:28-29 | the elements handed out in the first `n` rounds are exactly the first `n` elements of the input, in order |
| `ProgressBar.SessionYields` | bench.py:28-29 | a whole session hands the consumer exactly the input sequence: every element once, unchanged, in order |
| `ProgressBar.SessionFramesMonotone` | bench.py:28-30 | with at least 20 columns, later frames have no fewer filled cells, every bar has the bar width, and when the clock does not go back the shown (hours, minutes, seconds) of the earlier frame is lexicographically (hours first, then minutes, then seconds) no later than that of the later one |
| `Fibonacci.Range` | bench.py:52 | `range(lo, hi)` has `max(0, hi - lo)` elements, element `k` being `lo + k` |
| `Fibonacci.Fib` | bench.py:42-46 | the recursive `fibonacci` is never below 1, and for `n >= 1` never below `n` |
| `Fibonacci.FibonacciIterative` | bench.py:50-53 | the loop makes `max(0, n - 2)` updates, one per element of `range(2, n)` (returned as `rounds`); afterwards `(first, second)` is `(0, 1)` for `n <= 2` and `(Fib(n - 3), Fib(n - 2))` otherwise |

## Left out

- Wall-clock reads (`time()`, bench.py:10 and 16): clock reads on floats. Each frame's elapsed time is a whole number of seconds given as a parameter. For a non-negative float elapsed time, `int()` of the two `divmod` parts equals the split of its floor, so this loses nothing for the text shown. A negative elapsed time (the wall clock set back after `start_time` was read), for which the source shows, for example, `-1:59:59`, is not modelled.
- `get_terminal_size()` (bench.py:11): a terminal query. The column count is a parameter. The line count it also returns is unused.
- The percentage `round((iteration / total) * 100, 1)` and its `: >5` field (bench.py:24-25): float rounding and formatting. `Render` takes the formatted percentage as text.
- The actual `print(..., end='', flush=True)` and the final `print()` (bench.py:26, 32): output is the abstract event trace. `Render` gives the text of one frame line.
- `ProgressBar.Filled`: treats `bar_width * iteration / total` as an exact rational number. Python computes a float, and the two agree at least while `|bar_width * iteration|` stays below 2^53. Float rounding beyond that is not modelled.
- Generator laziness: the consumer's suspension between elements is not modelled. The trace records the order of hand-offs and frames. The consumer's own work is invisible to the core.
- A consumer that stops early (a `break`, or an exception in its loop body): `Run` models a run to exhaustion only. If the consumer stops after taking element `k`, the source never draws that element's frame and never prints the newline. The output is then `Steps(items, Frames(BarWidth(columns), clock), k - 1) + [Yielded(items[k - 1])]`, with no newline.
- Exceptions raised by the wrapped iterable: the input is a finished sequence, so none can occur.
- The outer loop of `fibonacci_recursive` (bench.py:47-48): it calls `Fib(i)` for each `i` in `range(1, n)` and throws the results away. Its progress output is `ProgressBar.Run` over `Fibonacci.Range(1, n)`.
- The progress output of `fibonacci_iterative` (bench.py:52): it is `ProgressBar.Run` over `Fibonacci.Range(2, n)`, and `FibonacciIterative` models only the arithmetic. The source function returns nothing. The model returns the final `first, second` pair so that the loop's result can be stated.
- `pi_wallis` and `multiply_matrices` (bench.py:34-39, 55-62): floating-point arithmetic, with matrices filled by `random()`.
- `compress` (bench.py:64-69): a thin wrapper over the BZ2 and LZMA library compressors.
- `benchmarks` and `main` (bench.py:71-124): wall-clock timing around repeated workload calls, plus report printing.
