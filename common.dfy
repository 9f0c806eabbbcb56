/**
 * Values shared by both bot variants: optional results, RGB triples and
 * their squared distance, and the small pieces of JavaScript string and
 * number behaviour the colour code relies on (`match(/\d+/g)`, decimal
 * `parseInt`, `Number.prototype.toString(16)`, 32-bit shifts).
 */
module Common {

  /** JavaScript `null` versus a present value. */
  datatype Option<T> = None | Some(value: T)

  /** An RGB triple; components are unbounded because parsed strings may hold any digits. */
  datatype Rgb = Rgb(r: int, g: int, b: int)

  predicate IsByte(v: int) { 0 <= v < 256 }

  predicate IsByteRgb(c: Rgb) { IsByte(c.r) && IsByte(c.g) && IsByte(c.b) }

  /** One channel value of a canvas `ImageData` buffer. */
  type Byte = v: int | 0 <= v < 256

  function Min(a: int, b: int): int { if a <= b then a else b }

  function Square(v: int): nat
  {
    if v >= 0 then MulNonNeg(v, v) else MulNonNeg(-v, -v)
  }

  function MulNonNeg(a: nat, b: nat): (p: nat) { a * b }

  lemma SquareZero(v: int)
    ensures Square(v) == 0 <==> v == 0
  {
    if v > 0 {
      assert v * v >= v * 1;
    } else if v < 0 {
      assert (-v) * (-v) >= (-v) * 1;
    }
  }

  /**
   * Squared Euclidean distance in RGB space. The source compares
   * `Math.sqrt` of this sum; since the square root is monotone, the
   * comparisons agree, so the model keeps the exact integer.
   */
  function SqDist(a: Rgb, b: Rgb): (d: nat)
    ensures d == 0 <==> a == b
  {
    SquareZero(a.r - b.r);
    SquareZero(a.g - b.g);
    SquareZero(a.b - b.b);
    Square(a.r - b.r) + Square(a.g - b.g) + Square(a.b - b.b)
  }

  // ---------------------------------------------------------------------
  // Decimal digits: the `\d` class of a non-Unicode JavaScript regex.

  predicate IsDigit(c: char) { '0' <= c <= '9' }

  predicate AllDigits(s: string) { forall i :: 0 <= i < |s| ==> IsDigit(s[i]) }

  function DigitValue(c: char): nat
    requires IsDigit(c)
  {
    (c as int) - ('0' as int)
  }

  function DigitChar(d: nat): (c: char)
    requires d < 10
    ensures IsDigit(c) && DigitValue(c) == d
  {
    (('0' as int) + d) as char
  }

  /** `parseInt(s)` (or `Number(s)`) of a run of decimal digits. */
  function DecimalValue(s: string): nat
    requires AllDigits(s)
  {
    if s == [] then 0 else DecimalValue(s[..|s| - 1]) * 10 + DigitValue(s[|s| - 1])
  }

  /** The decimal form of a natural number, as `String(n)` writes it. */
  function DecimalString(n: nat): (s: string)
    ensures s != [] && AllDigits(s)
  {
    if n < 10 then [DigitChar(n)] else DecimalString(n / 10) + [DigitChar(n % 10)]
  }

  lemma {:induction false} DecimalRoundTrip(n: nat)
    ensures DecimalValue(DecimalString(n)) == n
  {
    var s := DecimalString(n);
    if n >= 10 {
      DecimalRoundTrip(n / 10);
      assert s[..|s| - 1] == DecimalString(n / 10);
    }
  }

  /** Length of the maximal run of digits at the front of `s`. */
  function LeadingDigits(s: string): (n: nat)
    ensures n <= |s|
    ensures forall i :: 0 <= i < n ==> IsDigit(s[i])
    ensures n < |s| ==> !IsDigit(s[n])
  {
    if s == [] || !IsDigit(s[0]) then 0 else 1 + LeadingDigits(s[1..])
  }

  /**
   * The matches of the global regex `/\d+/g` on `s`, left to right: the
   * maximal runs of digits. JavaScript returns `null` when there is none;
   * here that is the empty sequence.
   */
  function DigitRuns(s: string): (runs: seq<string>)
    ensures forall i :: 0 <= i < |runs| ==> runs[i] != [] && AllDigits(runs[i])
    decreases |s|
  {
    if s == [] then []
    else if !IsDigit(s[0]) then DigitRuns(s[1..])
    else
      var n := LeadingDigits(s);
      [s[..n]] + DigitRuns(s[n..])
  }

  /** A string without digits contributes no run. */
  lemma {:induction false} DigitRunsSkip(pre: string, rest: string)
    requires forall i :: 0 <= i < |pre| ==> !IsDigit(pre[i])
    ensures DigitRuns(pre + rest) == DigitRuns(rest)
  {
    if pre != [] {
      assert (pre + rest)[0] == pre[0];
      assert !IsDigit((pre + rest)[0]);
      assert (pre + rest)[1..] == pre[1..] + rest;
      assert DigitRuns(pre + rest) == DigitRuns((pre + rest)[1..]);
      DigitRunsSkip(pre[1..], rest);
    } else {
      assert pre + rest == rest;
    }
  }

  /** A maximal run of digits at the front is the first match. */
  lemma DigitRunsTake(run: string, rest: string)
    requires run != [] && AllDigits(run)
    requires rest == [] || !IsDigit(rest[0])
    ensures DigitRuns(run + rest) == [run] + DigitRuns(rest)
  {
    var s := run + rest;
    LeadingDigitsOf(run, rest);
    assert s[..|run|] == run;
    assert s[|run|..] == rest;
  }

  lemma {:induction false} LeadingDigitsOf(run: string, rest: string)
    requires AllDigits(run)
    requires rest == [] || !IsDigit(rest[0])
    ensures LeadingDigits(run + rest) == |run|
  {
    if run != [] {
      assert (run + rest)[1..] == run[1..] + rest;
      LeadingDigitsOf(run[1..], rest);
    }
  }

  // ---------------------------------------------------------------------
  // Hexadecimal digits.

  predicate IsHexDigit(c: char)
  {
    ('0' <= c <= '9') || ('a' <= c <= 'f') || ('A' <= c <= 'F')
  }

  predicate AllHex(s: string) { forall i :: 0 <= i < |s| ==> IsHexDigit(s[i]) }

  /** The value of one digit as `parseInt(_, 16)` reads it, either case. */
  function HexValue(c: char): (v: nat)
    requires IsHexDigit(c)
    ensures v < 16
  {
    if '0' <= c <= '9' then (c as int) - ('0' as int)
    else if 'a' <= c <= 'f' then (c as int) - ('a' as int) + 10
    else (c as int) - ('A' as int) + 10
  }

  /** The lower-case digit `Number.prototype.toString(16)` writes for `d`. */
  function HexChar(d: nat): (c: char)
    requires d < 16
    ensures IsHexDigit(c) && HexValue(c) == d
    ensures !('A' <= c <= 'F')
  {
    if d < 10 then (('0' as int) + d) as char else (('a' as int) + d - 10) as char
  }

  /** Lower-case form of a hex digit. */
  function LowerHex(c: char): (l: char)
    requires IsHexDigit(c)
    ensures l == HexChar(HexValue(c))
  {
    if 'A' <= c <= 'F' then ((c as int) - ('A' as int) + ('a' as int)) as char else c
  }

  /** `n.toString(16)` for a non-negative integer: no leading zeros, lower case. */
  function ToHex(n: nat): (s: string)
    ensures s != []
    decreases n
  {
    if n < 16 then [HexChar(n)] else ToHex(n / 16) + [HexChar(n % 16)]
  }

  /** `v.toString(16)` for any integer: a minus sign before the digits of `|v|`. */
  function JsToHex(v: int): string
  {
    if v < 0 then "-" + ToHex(-v) else ToHex(v)
  }

  /**
   * Appending a byte in base 256 appends its two hex digits, provided the
   * prefix is not zero (so no leading zero is dropped).
   */
  lemma ToHexAppendByte(hi: nat, lo: nat)
    requires hi >= 1 && lo < 256
    ensures ToHex(hi * 256 + lo) == ToHex(hi) + [HexChar(lo / 16), HexChar(lo % 16)]
  {
    var n := hi * 256 + lo;
    var m := hi * 16 + lo / 16;
    assert n / 16 == m && n % 16 == lo % 16;
    assert m / 16 == hi && m % 16 == lo / 16;
    assert ToHex(m) == ToHex(hi) + [HexChar(lo / 16)];
  }

  // ---------------------------------------------------------------------
  // 32-bit integer arithmetic of the JavaScript shift operators.

  const TwoTo32: int := 0x1_0000_0000
  const TwoTo31: int := 0x8000_0000

  /** ECMAScript ToInt32 of an integer value. */
  function Int32(v: int): (w: int)
    ensures -TwoTo31 <= w < TwoTo31
    ensures (v - w) % TwoTo32 == 0
  {
    var m := v % TwoTo32;
    if m >= TwoTo31 then m - TwoTo32 else m
  }

  /** A value already in the 32-bit range is unchanged by ToInt32. */
  lemma Int32Small(v: int)
    requires 0 <= v < TwoTo31
    ensures Int32(v) == v
  {
  }

  /** Multiplication with row-major indices: `y * w + x` splits back into `y` and `x`. */
  lemma RowMajorIndex(y: nat, x: nat, w: nat)
    requires x < w
    ensures (y * w + x) / w == y
    ensures (y * w + x) % w == x
  {
    var n := y * w + x;
    var q, r := n / w, n % w;
    assert q * w + r == n;
    if q > y {
      MulMono(1, q - y, w);
      assert false;
    } else if q < y {
      MulMono(1, y - q, w);
      assert false;
    }
  }

  /** Multiplication by a natural number is monotone, on either side. */
  lemma MulMono(a: nat, b: nat, w: nat)
    requires a <= b
    ensures a * w <= b * w && w * a <= w * b
  {
    assert b * w == a * w + (b - a) * w;
  }

  lemma AppendAssoc<T>(a: seq<T>, b: seq<T>, c: seq<T>)
    ensures a + b + c == a + (b + c)
  {
  }
}
