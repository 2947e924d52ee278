/** Text rendering helpers shared by the progress bar: Python's string
    repetition `c * n` and the `{:0w}` zero-padded rendering of a
    non-negative integer, with the decimal reading that undoes it. */
module Text {

  datatype Option<T> = None | Some(value: T)

  /** Python's `c * n` for a one-character string `c`: `n` copies of `c`,
      and the empty string when `n` is zero or negative. */
  function Repeat(c: char, n: int): (r: string)
    ensures |r| == if n <= 0 then 0 else n
    ensures forall k :: 0 <= k < |r| ==> r[k] == c
    decreases if n <= 0 then 0 else n
  {
    if n <= 0 then [] else [c] + Repeat(c, n - 1)
  }

  predicate IsDigit(c: char) {
    '0' <= c <= '9'
  }

  predicate AllDigits(s: string) {
    forall k :: 0 <= k < |s| ==> IsDigit(s[k])
  }

  function DigitChar(d: nat): (c: char)
    requires d < 10
    ensures IsDigit(c)
  {
    (('0' as int) + d) as char
  }

  function DigitValue(c: char): (d: nat)
    requires IsDigit(c)
    ensures d < 10
  {
    (c as int) - ('0' as int)
  }

  /** The decimal numeral of `n`, most significant digit first, without
      leading zeros (what `str(n)` gives for a non-negative int). */
  function Decimal(n: nat): (r: string)
    ensures 1 <= |r| && AllDigits(r)
    ensures |r| > 1 ==> r[0] != '0'
    ensures n < 10 ==> |r| == 1
    ensures n < 100 ==> |r| <= 2
  {
    if n < 10 then [DigitChar(n)] else Decimal(n / 10) + [DigitChar(n % 10)]
  }

  /** The number a string of decimal digits denotes. */
  function DecimalValue(s: string): nat
    requires AllDigits(s)
  {
    if s == [] then 0 else DecimalValue(s[..|s| - 1]) * 10 + DigitValue(s[|s| - 1])
  }

  /** `"{:0w}".format(n)` for a non-negative int `n`: the numeral of `n`,
      left-padded with zeros to at least `width` characters. */
  function ZeroPad(n: nat, width: int): (r: string)
    ensures AllDigits(r)
    ensures |r| == if width <= |Decimal(n)| then |Decimal(n)| else width
  {
    Repeat('0', width - |Decimal(n)|) + Decimal(n)
  }

  lemma {:induction false} DecimalRoundTrip(n: nat)
    ensures DecimalValue(Decimal(n)) == n
  {
    if n >= 10 {
      var s := Decimal(n);
      assert s[..|s| - 1] == Decimal(n / 10);
      DecimalRoundTrip(n / 10);
      assert DigitValue(DigitChar(n % 10)) == n % 10;
    } else {
      assert DigitValue(DigitChar(n)) == n;
    }
  }

  /** Leading zeros do not change the number a numeral denotes. */
  lemma {:induction false} LeadingZeros(z: nat, s: string)
    requires AllDigits(s)
    ensures AllDigits(Repeat('0', z) + s)
    ensures DecimalValue(Repeat('0', z) + s) == DecimalValue(s)
  {
    var t := Repeat('0', z) + s;
    if s == [] {
      assert t == Repeat('0', z);
      AllZeros(z);
    } else {
      var s' := s[..|s| - 1];
      assert t[..|t| - 1] == Repeat('0', z) + s';
      LeadingZeros(z, s');
    }
  }

  lemma {:induction false} AllZeros(z: nat)
    ensures AllDigits(Repeat('0', z))
    ensures DecimalValue(Repeat('0', z)) == 0
  {
    if z > 0 {
      var t := Repeat('0', z);
      assert t[..|t| - 1] == Repeat('0', z - 1) by {
        assert t == Repeat('0', z - 1) + ['0'];
      }
      AllZeros(z - 1);
    }
  }

  /** The zero-padded field is exactly `width` characters wide when the
      numeral fits, consists of digits only, and reads back as `n`. */
  lemma ZeroPadReadsBack(n: nat, width: int)
    ensures var r := ZeroPad(n, width);
      && AllDigits(r)
      && DecimalValue(r) == n
      && |r| == (if width <= |Decimal(n)| then |Decimal(n)| else width)
  {
    var z := width - |Decimal(n)|;
    LeadingZeros(if z <= 0 then 0 else z, Decimal(n));
    DecimalRoundTrip(n);
  }
}
