/**
 * The colour string codecs of wplace-bot.js: `hexToRgb` (`#rrggbb` to a
 * triple), `rgbStringToObject` (the first three digit runs of a CSS
 * `rgb(...)` string), `rgbToHex` (a CSS string back to `#rrggbb`), and the
 * per-channel encoder inside `processImageToPixels`.
 */
module ColorCodec {
  import opened Common

  // ---------------------------------------------------------------------
  // hexToRgb

  /**
   * The strings the pattern `/^#?([a-f\d]{2})([a-f\d]{2})([a-f\d]{2})$/i`
   * matches: six hex digits of either case, optionally after one '#'.
   */
  ghost predicate HexPattern(s: string)
  {
    exists d: string :: |d| == 6 && AllHex(d) && (s == d || s == ['#'] + d)
  }

  /** The six digits of an accepted string. */
  function HexBody(s: string): string
  {
    if |s| == 7 then s[1..] else s
  }

  /** Two hex digits read as one number, as `parseInt(pair, 16)` does. */
  function HexPair(hi: char, lo: char): nat
    requires IsHexDigit(hi) && IsHexDigit(lo)
  {
    HexValue(hi) * 16 + HexValue(lo)
  }

  /** The strings `hexToRgb` accepts, decided character by character. */
  predicate HexAccepted(s: string)
  {
    (|s| == 6 && AllHex(s)) || (|s| == 7 && s[0] == '#' && AllHex(s[1..]))
  }

  /** `hexToRgb`: `None` stands for the `null` it returns when the pattern fails. */
  function HexToRgb(s: string): (c: Option<Rgb>)
    ensures c.Some? ==> |s| == 6 || |s| == 7
    ensures c.Some? ==> IsByteRgb(c.value)
  {
    if HexAccepted(s) then
      var d := HexBody(s);
      Some(Rgb(HexPair(d[0], d[1]), HexPair(d[2], d[3]), HexPair(d[4], d[5])))
    else
      None
  }

  /** `hexToRgb` accepts exactly the strings the regular expression matches. */
  lemma HexToRgbAccepts(s: string)
    ensures HexToRgb(s).Some? <==> HexPattern(s)
  {
    if HexAccepted(s) {
      assert |HexBody(s)| == 6 && AllHex(HexBody(s));
      assert s == HexBody(s) || s == ['#'] + HexBody(s);
    }
    if HexPattern(s) {
      var d: string :| |d| == 6 && AllHex(d) && (s == d || s == ['#'] + d);
      if s != d {
        assert s[1..] == d;
      }
    }
  }

  // ---------------------------------------------------------------------
  // The two-digit encoder of processImageToPixels

  /** `v.toString(16)`, padded with one '0' when it has a single digit. */
  function HexByte(v: int): (h: string)
    requires IsByte(v)
    ensures h == [HexChar(v / 16), HexChar(v % 16)]
  {
    var digits := ToHex(v);
    assert v >= 16 ==> ToHex(v / 16) == [HexChar(v / 16)];
    if |digits| == 1 then ['0'] + digits else digits
  }

  /** `'#' + [r, g, b].map(...).join('')`: the colour string the raster walk emits. */
  function HexColor(c: Rgb): (h: string)
    requires IsByteRgb(c)
    ensures |h| == 7 && h[0] == '#' && AllHex(h[1..])
    ensures forall i :: 1 <= i < 7 ==> !('A' <= h[i] <= 'F')
  {
    ['#'] + HexByte(c.r) + HexByte(c.g) + HexByte(c.b)
  }

  /** Every byte triple survives encoding then `hexToRgb`. */
  lemma HexColorRoundTrip(c: Rgb)
    requires IsByteRgb(c)
    ensures HexToRgb(HexColor(c)) == Some(c)
  {
    var h := HexColor(c);
    var d := HexBody(h);
    assert d == HexByte(c.r) + HexByte(c.g) + HexByte(c.b);
    assert HexPair(d[0], d[1]) == c.r;
    assert HexPair(d[2], d[3]) == c.g;
    assert HexPair(d[4], d[5]) == c.b;
  }

  /** The lower-case form of a string of hex digits. */
  function LowerAll(s: string): (l: string)
    requires AllHex(s)
    ensures |l| == |s|
  {
    seq(|s|, i requires 0 <= i < |s| => LowerHex(s[i]))
  }

  /** Re-encoding a pair of digits yields the pair in lower case. */
  lemma HexBytePair(hi: char, lo: char)
    requires IsHexDigit(hi) && IsHexDigit(lo)
    ensures HexByte(HexPair(hi, lo)) == [LowerHex(hi), LowerHex(lo)]
  {
    var v := HexPair(hi, lo);
    assert v / 16 == HexValue(hi) && v % 16 == HexValue(lo);
  }

  /**
   * The converse round trip: encoding what `hexToRgb` accepted gives back
   * the input, in lower case and with a leading '#'.
   */
  lemma HexToRgbCanonical(s: string)
    requires HexToRgb(s).Some?
    ensures HexColor(HexToRgb(s).value) == ['#'] + LowerAll(HexBody(s))
  {
    var d := HexBody(s);
    assert |d| == 6 && AllHex(d);
    HexBytePair(d[0], d[1]);
    HexBytePair(d[2], d[3]);
    HexBytePair(d[4], d[5]);
    var l := LowerAll(d);
    assert l == [LowerHex(d[0]), LowerHex(d[1])] + [LowerHex(d[2]), LowerHex(d[3])] + [LowerHex(d[4]), LowerHex(d[5])];
  }

  // ---------------------------------------------------------------------
  // rgbStringToObject

  /**
   * `rgbStringToObject`: `null` when the string holds fewer than three digit
   * runs, otherwise the decimal values of the first three.
   */
  function RgbStringToObject(s: string): (c: Option<Rgb>)
    ensures c.None? <==> |DigitRuns(s)| < 3
    ensures c.Some? ==> c.value.r >= 0 && c.value.g >= 0 && c.value.b >= 0
  {
    var runs := DigitRuns(s);
    if |runs| < 3 then None
    else Some(Rgb(DecimalValue(runs[0]), DecimalValue(runs[1]), DecimalValue(runs[2])))
  }

  /** The `rgb(R, G, B)` form in which a browser reports a computed background colour. */
  function CssRgb(c: Rgb): string
    requires c.r >= 0 && c.g >= 0 && c.b >= 0
  {
    "rgb(" + DecimalString(c.r) + ", " + DecimalString(c.g) + ", " + DecimalString(c.b) + ")"
  }

  /** The digit runs of a CSS colour string are its three decimal components. */
  lemma CssRgbRuns(c: Rgb)
    requires c.r >= 0 && c.g >= 0 && c.b >= 0
    ensures DigitRuns(CssRgb(c)) == [DecimalString(c.r), DecimalString(c.g), DecimalString(c.b)]
  {
    var dr, dg, db := DecimalString(c.r), DecimalString(c.g), DecimalString(c.b);
    var tail3 := ")";
    var tail2 := ", " + db + tail3;
    var tail1 := ", " + dg + tail2;
    assert CssRgb(c) == "rgb(" + dr + tail1;
    assert DigitRuns(tail3) == [] by {
      assert tail3 == ")" + [];
      DigitRunsSkip(")", []);
    }
    RunAfter(", ", db, tail3);
    RunAfter(", ", dg, tail2);
    RunAfter("rgb(", dr, tail1);
  }

  /** A separator without digits, then a run, then a non-digit: the run is the next match. */
  lemma RunAfter(sep: string, run: string, rest: string)
    requires forall i :: 0 <= i < |sep| ==> !IsDigit(sep[i])
    requires run != [] && AllDigits(run)
    requires rest == [] || !IsDigit(rest[0])
    ensures DigitRuns(sep + run + rest) == [run] + DigitRuns(rest)
  {
    assert sep + run + rest == sep + (run + rest);
    DigitRunsSkip(sep, run + rest);
    DigitRunsTake(run, rest);
  }

  /** `rgbStringToObject` recovers every colour written in CSS form. */
  lemma CssRgbRoundTrip(c: Rgb)
    requires c.r >= 0 && c.g >= 0 && c.b >= 0
    ensures RgbStringToObject(CssRgb(c)) == Some(c)
  {
    CssRgbRuns(c);
    DecimalRoundTrip(c.r);
    DecimalRoundTrip(c.g);
    DecimalRoundTrip(c.b);
  }

  // ---------------------------------------------------------------------
  // rgbToHex

  const OneShl24: int := 0x100_0000

  /**
   * `rgbToHex`: with no digit run, "#000000"; otherwise the first three runs
   * r, g, b are packed as `(1 << 24) + (r << 16) + (g << 8) + b` with 32-bit
   * shifts, written in base 16 and stripped of the first character. With
   * one or two runs the missing `b` is `undefined`, the sum is `NaN`, and
   * `NaN.toString(16).slice(1)` is "aN".
   */
  function RgbToHex(s: string): (h: string)
    ensures DigitRuns(s) == [] ==> h == "#000000"
    ensures 1 <= |DigitRuns(s)| < 3 ==> h == "#aN"
    ensures h != [] && h[0] == '#'
  {
    var runs := DigitRuns(s);
    if runs == [] then "#000000"
    else if |runs| < 3 then "#aN"
    else
      var r, g, b := DecimalValue(runs[0]), DecimalValue(runs[1]), DecimalValue(runs[2]);
      var sum := OneShl24 + Int32(r * 0x1_0000) + Int32(g * 0x100) + b;
      "#" + JsToHex(sum)[1..]
  }

  /**
   * When the first three digit runs are bytes, `rgbToHex` writes exactly
   * the six lower-case digits the two-digit encoder writes.
   */
  lemma RgbToHexOfBytes(s: string)
    requires RgbStringToObject(s).Some? && IsByteRgb(RgbStringToObject(s).value)
    ensures RgbToHex(s) == HexColor(RgbStringToObject(s).value)
  {
    var c := RgbStringToObject(s).value;
    PackedHex(c.r, c.g, c.b);
  }

  /** With byte components the 32-bit shifts do not wrap, and the sum is written as '1' and six digits. */
  lemma PackedHex(r: int, g: int, b: int)
    requires IsByte(r) && IsByte(g) && IsByte(b)
    ensures JsToHex(OneShl24 + Int32(r * 0x1_0000) + Int32(g * 0x100) + b) == "1" + HexByte(r) + HexByte(g) + HexByte(b)
  {
    Int32Small(r * 0x1_0000);
    Int32Small(g * 0x100);
    var sum := OneShl24 + r * 0x1_0000 + g * 0x100 + b;
    assert sum == ((256 + r) * 256 + g) * 256 + b;
    ToHexAppendByte((256 + r) * 256 + g, b);
    ToHexAppendByte(256 + r, g);
    ToHexAppendByte(1, r);
    assert ToHex(1) == "1";
  }

  /**
   * Round trip through both codecs: for byte components, `hexToRgb` of
   * what `rgbToHex` produced gives back the components `rgbStringToObject` reads.
   */
  lemma RgbToHexRoundTrip(s: string)
    requires RgbStringToObject(s).Some? && IsByteRgb(RgbStringToObject(s).value)
    ensures |RgbToHex(s)| == 7 && AllHex(RgbToHex(s)[1..])
    ensures HexToRgb(RgbToHex(s)) == RgbStringToObject(s)
  {
    RgbToHexOfBytes(s);
    HexColorRoundTrip(RgbStringToObject(s).value);
  }

  /** A CSS colour with byte components converts to its `#rrggbb` form. */
  lemma CssRgbToHex(c: Rgb)
    requires IsByteRgb(c)
    ensures RgbToHex(CssRgb(c)) == HexColor(c)
  {
    CssRgbRoundTrip(c);
    RgbToHexOfBytes(CssRgb(c));
  }
}
