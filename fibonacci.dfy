/** The two exact-integer Fibonacci workloads of bench.py:41-53. */
module Fibonacci {

  /** Python's `range(lo, hi)`: the integers from `lo` up to, not
      including, `hi`; empty when `hi <= lo`. */
  function Range(lo: int, hi: int): (r: seq<int>)
    ensures |r| == if hi <= lo then 0 else hi - lo
    ensures forall k :: 0 <= k < |r| ==> r[k] == lo + k
    decreases hi - lo
  {
    if hi <= lo then [] else [lo] + Range(lo + 1, hi)
  }

  /** The inner `fibonacci` of `fibonacci_recursive`: 1 for every `n <= 1`,
      otherwise the sum of the two previous values. It is never below 1,
      and from 1 on never below its argument. */
  function Fib(n: int): (r: nat)
    ensures 1 <= r
    ensures 1 <= n ==> n <= r
    decreases n
  {
    if n <= 1 then 1 else Fib(n - 1) + Fib(n - 2)
  }

  /** `fibonacci_iterative(n)`: starting from `first, second = 0, 1`, one
      update `first, second = second, first + second` per element of
      `range(2, n)`, that is `max(0, n - 2)` times. After `k` updates
      `second` is `Fib(k)` and `first` the value before it. The source
      returns nothing; the final pair and the number of updates are
      returned here so that they can be stated. */
  method FibonacciIterative(n: int) returns (first: nat, second: nat, rounds: nat)
    ensures rounds == if n <= 2 then 0 else n - 2
    ensures n <= 2 ==> first == 0 && second == 1
    ensures 2 < n ==> first == Fib(n - 3) && second == Fib(n - 2)
  {
    first, second := 0, 1;
    var steps := Range(2, n);
    var k := 0;
    while k < |steps|
      invariant 0 <= k <= |steps|
      invariant second == Fib(k)
      invariant first == if k == 0 then 0 else Fib(k - 1)
    {
      first, second := second, first + second;
      k := k + 1;
    }
    rounds := k;
  }
}
