/**
 * Nearest-palette matching. Both variants scan the palette once with two
 * accumulators (the best entry so far and its distance, initially
 * `Infinity`) and replace the best only on a strictly smaller distance, so
 * the first of equally close entries wins: `findClosestColor` in
 * wplace-bot.js returns the entry, `getClosestColor` in pow.js its index.
 */
module Nearest {
  import opened Common
  import opened ColorCodec

  /** The palette colours as `rgbStringToObject` reads them. */
  function ParseAll(colors: seq<string>): (p: seq<Option<Rgb>>)
    ensures |p| == |colors|
    ensures forall i :: 0 <= i < |colors| ==> p[i] == RgbStringToObject(colors[i])
  {
    seq(|colors|, i requires 0 <= i < |colors| => RgbStringToObject(colors[i]))
  }

  /**
   * The `forEach` over the parsed palette from position `i` on. An entry
   * that did not parse is passed over; `minDist == None` is the initial
   * `Infinity`.
   */
  function Scan(parsed: seq<Option<Rgb>>, t: Rgb, i: nat, best: nat, minDist: Option<nat>): (k: nat)
    requires i <= |parsed|
    ensures k == best || i <= k < |parsed|
    decreases |parsed| - i
  {
    if i == |parsed| then best
    else match parsed[i]
      case None => Scan(parsed, t, i + 1, best, minDist)
      case Some(c) =>
        if minDist.None? || SqDist(t, c) < minDist.value then Scan(parsed, t, i + 1, i, Some(SqDist(t, c)))
        else Scan(parsed, t, i + 1, best, minDist)
  }

  /** The scan from the start, with the default answer 0. */
  function ClosestIndex(parsed: seq<Option<Rgb>>, t: Rgb): (k: nat)
    ensures |parsed| > 0 ==> k < |parsed|
    ensures |parsed| == 0 ==> k == 0
  {
    Scan(parsed, t, 0, 0, None)
  }

  predicate AnyParsed(parsed: seq<Option<Rgb>>)
  {
    exists j :: 0 <= j < |parsed| && parsed[j].Some?
  }

  /**
   * `k` is the nearest parsed entry to `t`, and no parsed entry before it
   * is as near: the first-seen minimum.
   */
  ghost predicate IsNearest(parsed: seq<Option<Rgb>>, t: Rgb, k: nat)
  {
    && k < |parsed|
    && parsed[k].Some?
    && (forall j :: 0 <= j < |parsed| && parsed[j].Some? ==>
          SqDist(t, parsed[k].value) <= SqDist(t, parsed[j].value))
    && (forall j :: 0 <= j < k && parsed[j].Some? ==>
          SqDist(t, parsed[k].value) < SqDist(t, parsed[j].value))
  }

  /** What the accumulators mean after the entries before `i` were seen. */
  ghost predicate ScanState(parsed: seq<Option<Rgb>>, t: Rgb, i: nat, best: nat, minDist: Option<nat>)
  {
    && i <= |parsed|
    && (minDist.None? ==> best == 0 && forall j :: 0 <= j < i ==> parsed[j].None?)
    && (minDist.Some? ==>
          && best < i
          && parsed[best].Some?
          && SqDist(t, parsed[best].value) == minDist.value
          && (forall j :: 0 <= j < i && parsed[j].Some? ==> minDist.value <= SqDist(t, parsed[j].value))
          && (forall j :: 0 <= j < best && parsed[j].Some? ==> minDist.value < SqDist(t, parsed[j].value)))
  }

  lemma {:induction false} ScanCorrect(parsed: seq<Option<Rgb>>, t: Rgb, i: nat, best: nat, minDist: Option<nat>)
    requires ScanState(parsed, t, i, best, minDist)
    ensures AnyParsed(parsed) ==> IsNearest(parsed, t, Scan(parsed, t, i, best, minDist))
    ensures !AnyParsed(parsed) ==> Scan(parsed, t, i, best, minDist) == 0
    decreases |parsed| - i
  {
    if i == |parsed| {
      if minDist.None? {
        assert !AnyParsed(parsed);
      }
    } else {
      match parsed[i]
      case None =>
        ScanCorrect(parsed, t, i + 1, best, minDist);
      case Some(c) =>
        if minDist.None? || SqDist(t, c) < minDist.value {
          ScanCorrect(parsed, t, i + 1, i, Some(SqDist(t, c)));
        } else {
          ScanCorrect(parsed, t, i + 1, best, minDist);
        }
    }
  }

  /**
   * The scan returns the first-seen nearest parsed entry, the only index
   * meeting that description; with no parsed entry it returns 0.
   */
  lemma ClosestIndexSpec(parsed: seq<Option<Rgb>>, t: Rgb)
    ensures AnyParsed(parsed) ==> IsNearest(parsed, t, ClosestIndex(parsed, t))
    ensures AnyParsed(parsed) ==>
      forall k :: IsNearest(parsed, t, k) ==> k == ClosestIndex(parsed, t)
    ensures !AnyParsed(parsed) ==> ClosestIndex(parsed, t) == 0
  {
    ScanCorrect(parsed, t, 0, 0, None);
  }

  // ---------------------------------------------------------------------
  // wplace-bot.js: findClosestColor

  /** A palette swatch: an opaque handle for its page element, and its CSS colour. */
  datatype PaletteEntry = PaletteEntry(element: nat, color: string)

  function Colors(palette: seq<PaletteEntry>): (cs: seq<string>)
    ensures |cs| == |palette|
    ensures forall i :: 0 <= i < |palette| ==> cs[i] == palette[i].color
  {
    seq(|palette|, i requires 0 <= i < |palette| => palette[i].color)
  }

  /**
   * `findClosestColor`: `null` for an empty palette; the first entry when
   * the target is not a `#rrggbb` string or no palette colour parses;
   * otherwise the first-seen nearest entry whose colour parses.
   */
  function FindClosestColor(palette: seq<PaletteEntry>, target: string): (r: Option<PaletteEntry>)
    ensures r.None? <==> |palette| == 0
    ensures r.Some? ==> r.value in palette
  {
    if |palette| == 0 then None
    else match HexToRgb(target)
      case None => Some(palette[0])
      case Some(t) =>
        var k := ClosestIndex(ParseAll(Colors(palette)), t);
        Some(palette[k])
  }

  /** A target that is not a `#rrggbb` string gets the first entry. */
  lemma FindClosestColorFallback(palette: seq<PaletteEntry>, target: string)
    requires |palette| > 0 && !HexPattern(target)
    ensures FindClosestColor(palette, target) == Some(palette[0])
  {
    HexToRgbAccepts(target);
  }

  /**
   * For a `#rrggbb` target, the entry returned is the first-seen nearest
   * among those whose colour parses; an entry whose colour does not parse
   * is returned only as the default first entry, when none parses.
   */
  lemma FindClosestColorNearest(palette: seq<PaletteEntry>, target: string)
    requires |palette| > 0 && HexToRgb(target).Some?
    ensures var parsed := ParseAll(Colors(palette));
      AnyParsed(parsed) ==>
        exists k: nat :: IsNearest(parsed, HexToRgb(target).value, k) && FindClosestColor(palette, target) == Some(palette[k])
    ensures !AnyParsed(ParseAll(Colors(palette))) ==> FindClosestColor(palette, target) == Some(palette[0])
  {
    ClosestIndexSpec(ParseAll(Colors(palette)), HexToRgb(target).value);
  }

  /**
   * A palette that holds the target colour exactly answers with an entry of
   * exactly that colour, the first one.
   */
  lemma FindClosestColorExact(palette: seq<PaletteEntry>, target: string, i: nat)
    requires i < |palette| && HexToRgb(target).Some?
    requires RgbStringToObject(palette[i].color) == HexToRgb(target)
    ensures exists k :: 0 <= k <= i && FindClosestColor(palette, target) == Some(palette[k]) &&
                        RgbStringToObject(palette[k].color) == HexToRgb(target)
  {
    var parsed := ParseAll(Colors(palette));
    var t := HexToRgb(target).value;
    assert parsed[i].Some?;
    ClosestIndexSpec(parsed, t);
    var k := ClosestIndex(parsed, t);
    assert SqDist(t, parsed[k].value) <= SqDist(t, parsed[i].value) == 0;
    assert k <= i;
  }

  // ---------------------------------------------------------------------
  // pow.js: getClosestColor

  /**
   * `getClosestColor(r, g, b)` as intended: the index of the first-seen
   * nearest palette colour, entries without three digit runs passed over,
   * and 0 when there is none.
   */
  function GetClosestColor(palette: seq<string>, r: int, g: int, b: int): (k: nat)
    ensures |palette| > 0 ==> k < |palette|
    ensures |palette| == 0 ==> k == 0
  {
    ClosestIndex(ParseAll(palette), Rgb(r, g, b))
  }

  /** The index `getClosestColor` returns is the first-seen nearest parsed colour. */
  lemma GetClosestColorNearest(palette: seq<string>, r: int, g: int, b: int)
    ensures AnyParsed(ParseAll(palette)) ==> IsNearest(ParseAll(palette), Rgb(r, g, b), GetClosestColor(palette, r, g, b))
    ensures !AnyParsed(ParseAll(palette)) ==> GetClosestColor(palette, r, g, b) == 0
  {
    ClosestIndexSpec(ParseAll(palette), Rgb(r, g, b));
  }

  /**
   * The scan of pow.js as written. Each colour goes through
   * `color.match(/\d+/g).map(Number)`: a colour without any digit makes
   * `match` return `null`, and calling `.map` on it throws a `TypeError`
   * (`None`); a colour with one or two runs leaves a component `undefined`,
   * the distance is `NaN`, and `NaN < d` is false, so the entry is passed over.
   */
  function ScanAsWritten(palette: seq<string>, t: Rgb, i: nat, best: nat, minDist: Option<nat>): Option<nat>
    requires i <= |palette|
    decreases |palette| - i
  {
    if i == |palette| then Some(best)
    else
      var runs := DigitRuns(palette[i]);
      if runs == [] then None
      else if |runs| < 3 then ScanAsWritten(palette, t, i + 1, best, minDist)
      else
        var d := SqDist(t, Rgb(DecimalValue(runs[0]), DecimalValue(runs[1]), DecimalValue(runs[2])));
        if minDist.None? || d < minDist.value then ScanAsWritten(palette, t, i + 1, i, Some(d))
        else ScanAsWritten(palette, t, i + 1, best, minDist)
  }

  function GetClosestColorAsWritten(palette: seq<string>, r: int, g: int, b: int): Option<nat>
  {
    ScanAsWritten(palette, Rgb(r, g, b), 0, 0, None)
  }

  lemma {:induction false} ScanAsWrittenAgrees(palette: seq<string>, t: Rgb, i: nat, best: nat, minDist: Option<nat>)
    requires i <= |palette|
    ensures ScanAsWritten(palette, t, i, best, minDist).None? <==>
      exists j :: i <= j < |palette| && DigitRuns(palette[j]) == []
    ensures ScanAsWritten(palette, t, i, best, minDist).Some? ==>
      ScanAsWritten(palette, t, i, best, minDist).value == Scan(ParseAll(palette), t, i, best, minDist)
    decreases |palette| - i
  {
    if i < |palette| {
      var runs := DigitRuns(palette[i]);
      if runs != [] {
        if |runs| < 3 {
          ScanAsWrittenAgrees(palette, t, i + 1, best, minDist);
        } else {
          var d := SqDist(t, Rgb(DecimalValue(runs[0]), DecimalValue(runs[1]), DecimalValue(runs[2])));
          if minDist.None? || d < minDist.value {
            ScanAsWrittenAgrees(palette, t, i + 1, i, Some(d));
          } else {
            ScanAsWrittenAgrees(palette, t, i + 1, best, minDist);
          }
        }
      }
    }
  }

  /**
   * As written, `getClosestColor` throws exactly when some palette colour
   * has no digit at all; otherwise it agrees with the intended version.
   */
  lemma GetClosestColorAsWrittenSpec(palette: seq<string>, r: int, g: int, b: int)
    ensures GetClosestColorAsWritten(palette, r, g, b).None? <==>
      exists j :: 0 <= j < |palette| && DigitRuns(palette[j]) == []
    ensures GetClosestColorAsWritten(palette, r, g, b).Some? ==>
      GetClosestColorAsWritten(palette, r, g, b).value == GetClosestColor(palette, r, g, b)
  {
    ScanAsWrittenAgrees(palette, Rgb(r, g, b), 0, 0, None);
  }

  /**
   * A palette element without an inline background colour reads as "",
   * which makes the as-written scan throw, while a black swatch at index 1
   * is an exact match for black.
   */
  lemma GetClosestColorThrowsOnEmptyStyle()
    ensures GetClosestColorAsWritten(["", "rgb(0, 0, 0)"], 0, 0, 0) == None
    ensures GetClosestColor(["", "rgb(0, 0, 0)"], 0, 0, 0) == 1
  {
    var palette := ["", "rgb(0, 0, 0)"];
    assert DigitRuns(palette[0]) == [];
    GetClosestColorAsWrittenSpec(palette, 0, 0, 0);
    BlackSwatchChosen(palette);
  }

  lemma BlackSwatchChosen(palette: seq<string>)
    requires palette == ["", "rgb(0, 0, 0)"]
    ensures GetClosestColor(palette, 0, 0, 0) == 1
  {
    var black := Rgb(0, 0, 0);
    CssRgbRoundTrip(black);
    assert DecimalString(0) == "0";
    assert CssRgb(black) == palette[1];
    var parsed := ParseAll(palette);
    assert parsed[1] == Some(black);
    assert parsed[0] == None by {
      assert DigitRuns(palette[0]) == [];
    }
    GetClosestColorNearest(palette, 0, 0, 0);
  }
}
