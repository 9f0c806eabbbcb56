/**
 * The image side of wplace-bot.js: the `{x, y, color}` pixel record, the
 * row-major layout `loadSimpleImage` builds from a flat colour list, the
 * two built-in presets, the all-or-nothing validation of
 * `loadImageFromData`, and the RGBA walk of `processImageToPixels`.
 */
module WPlaceImages {
  import opened Common
  import opened ColorCodec

  /** A pixel to place: offsets from the start position and a colour string. */
  datatype Pixel = Pixel(x: int, y: int, color: string)

  // ---------------------------------------------------------------------
  // loadSimpleImage

  /** The first `n` cells of a `width`-wide grid in row-major order, coloured from `data`. */
  function GridPrefix(data: seq<string>, width: nat, n: nat): (px: seq<Pixel>)
    requires width > 0 && n <= |data|
    ensures |px| == n
  {
    seq(n, i requires 0 <= i < n && n <= |data| => Pixel(i % width, i / width, data[i]))
  }

  /**
   * What `loadSimpleImage(data, width, height)` leaves in `pixels`: cell
   * `index = y * width + x` of the `width` by `height` grid, for every index
   * that `data` covers.
   */
  function SimpleImage(data: seq<string>, width: int, height: int): seq<Pixel>
  {
    if width <= 0 || height <= 0 then [] else GridPrefix(data, width, Min(width * height, |data|))
  }

  lemma DivBelow(i: nat, w: nat, h: nat)
    requires w > 0 && i < w * h
    ensures i / w < h
  {
    if i / w >= h {
      MulMono(h, i / w, w);
      assert false;
    }
  }

  /**
   * `loadSimpleImage` keeps min(width * height, |data|) cells in row-major
   * order: entry i sits at column i mod width and row i div width, inside
   * the grid, with colour data[i].
   */
  lemma SimpleImageLayout(data: seq<string>, width: int, height: int)
    ensures |SimpleImage(data, width, height)| ==
      if width <= 0 || height <= 0 then 0 else Min(width * height, |data|)
    ensures forall i :: 0 <= i < |SimpleImage(data, width, height)| ==>
      var p := SimpleImage(data, width, height)[i];
      && p.x == i % width && p.y == i / width
      && 0 <= p.x < width && 0 <= p.y < height
      && p.y * width + p.x == i
      && p.color == data[i]
  {
    if width > 0 && height > 0 {
      var px := SimpleImage(data, width, height);
      assert px == GridPrefix(data, width, Min(width * height, |data|));
      forall i | 0 <= i < |px|
        ensures px[i].x == i % width && px[i].y == i / width
        ensures 0 <= px[i].x < width && 0 <= px[i].y < height
        ensures px[i].y * width + px[i].x == i
        ensures px[i].color == data[i]
      {
        CellOfIndex(i, width, height);
        assert px[i] == Pixel(i % width, i / width, data[i]);
      }
    }
  }

  /** Index `i` of a `w` by `h` grid lies at column `i % w` and row `i / w`, inside the grid. */
  lemma CellOfIndex(i: nat, w: nat, h: nat)
    requires w > 0 && i < w * h
    ensures 0 <= i % w < w && 0 <= i / w < h && (i / w) * w + i % w == i
  {
    DivBelow(i, w, h);
  }

  // ---------------------------------------------------------------------
  // The presets

  const RedSquare: string := "\U{1F7E5}"
  const WhiteSquare: string := "\U{2B1C}"
  const YellowSquare: string := "\U{1F7E8}"
  const BlackSquare: string := "\U{2B1B}"

  /** `colorMap[emoji] || '#FFFFFF'`: a missing or empty entry falls back to white. */
  function ColorOf(colorMap: map<string, string>, glyph: string): string
  {
    if glyph in colorMap && colorMap[glyph] != "" then colorMap[glyph] else "#FFFFFF"
  }

  function MapGlyphs(colorMap: map<string, string>, glyphs: seq<string>): (colors: seq<string>)
    ensures |colors| == |glyphs|
    ensures forall i :: 0 <= i < |glyphs| ==> colors[i] == ColorOf(colorMap, glyphs[i])
  {
    seq(|glyphs|, i requires 0 <= i < |glyphs| => ColorOf(colorMap, glyphs[i]))
  }

  function HeartGlyphs(): seq<string>
  {
    var W, R := WhiteSquare, RedSquare;
    [W, R, R, W, R, R, W] +
    [R, R, R, R, R, R, R] +
    [R, R, R, R, R, R, R] +
    [R, R, R, R, R, R, R] +
    [W, R, R, R, R, R, W] +
    [W, W, R, R, R, W, W] +
    [W, W, W, R, W, W, W]
  }

  function HeartMap(): map<string, string>
  {
    map[RedSquare := "#FF0000", WhiteSquare := "#FFFFFF"]
  }

  /** The colour list `loadHeartImage` hands to `loadSimpleImage` with a 7 by 7 grid. */
  function HeartColors(): seq<string>
  {
    MapGlyphs(HeartMap(), HeartGlyphs())
  }

  function SmileyGlyphs(): seq<string>
  {
    var W, Y, B := WhiteSquare, YellowSquare, BlackSquare;
    [W, W, Y, Y, Y, W, W] +
    [W, Y, Y, Y, Y, Y, W] +
    [Y, Y, B, Y, B, Y, Y] +
    [Y, Y, Y, Y, Y, Y, Y] +
    [Y, B, Y, Y, Y, B, Y] +
    [W, Y, B, B, B, Y, W] +
    [W, W, Y, Y, Y, W, W]
  }

  function SmileyMap(): map<string, string>
  {
    map[YellowSquare := "#FFFF00", BlackSquare := "#000000", WhiteSquare := "#FFFFFF"]
  }

  /** The colour list `loadSmileyImage` hands to `loadSimpleImage` with a 7 by 7 grid. */
  function SmileyColors(): seq<string>
  {
    MapGlyphs(SmileyMap(), SmileyGlyphs())
  }

  /** Each glyph of the heart is mapped to red or white. */
  lemma HeartMapColors()
    ensures forall i :: 0 <= i < |HeartGlyphs()| ==>
      ColorOf(HeartMap(), HeartGlyphs()[i]) in {"#FF0000", "#FFFFFF"}
  {
    var glyphs := HeartGlyphs();
    forall i | 0 <= i < |glyphs|
      ensures ColorOf(HeartMap(), glyphs[i]) in {"#FF0000", "#FFFFFF"}
    {
      assert glyphs[i] in {RedSquare, WhiteSquare};
    }
  }

  /** Each glyph of the smiley is mapped to yellow, black or white. */
  lemma SmileyMapColors()
    ensures forall i :: 0 <= i < |SmileyGlyphs()| ==>
      ColorOf(SmileyMap(), SmileyGlyphs()[i]) in {"#FFFF00", "#000000", "#FFFFFF"}
  {
    var glyphs := SmileyGlyphs();
    forall i | 0 <= i < |glyphs|
      ensures ColorOf(SmileyMap(), glyphs[i]) in {"#FFFF00", "#000000", "#FFFFFF"}
    {
      assert glyphs[i] in {YellowSquare, BlackSquare, WhiteSquare};
    }
  }

  /** The heart preset is a full 7 by 7 grid in row-major order. */
  lemma HeartGrid()
    ensures |SimpleImage(HeartColors(), 7, 7)| == 49
    ensures forall k :: 0 <= k < 49 ==>
      SimpleImage(HeartColors(), 7, 7)[k].x == k % 7 && SimpleImage(HeartColors(), 7, 7)[k].y == k / 7
  {
    SimpleImageLayout(HeartColors(), 7, 7);
  }

  /**
   * The heart preset fills the whole 7 by 7 grid with red and white: 49
   * pixels, white at row 0 column 0, red at row 0 column 1.
   */
  lemma HeartPreset()
    ensures |SimpleImage(HeartColors(), 7, 7)| == 49
    ensures SimpleImage(HeartColors(), 7, 7)[0] == Pixel(0, 0, "#FFFFFF")
    ensures SimpleImage(HeartColors(), 7, 7)[1] == Pixel(1, 0, "#FF0000")
    ensures forall i :: 0 <= i < 49 ==>
      SimpleImage(HeartColors(), 7, 7)[i].color in {"#FF0000", "#FFFFFF"}
  {
    var glyphs := HeartGlyphs();
    var colors := HeartColors();
    assert glyphs[0] == WhiteSquare && glyphs[1] == RedSquare;
    assert ColorOf(HeartMap(), WhiteSquare) == "#FFFFFF";
    assert ColorOf(HeartMap(), RedSquare) == "#FF0000";
    HeartMapColors();
    SimpleImageLayout(colors, 7, 7);
  }

  /** The smiley preset fills the 7 by 7 grid with yellow, black and white. */
  lemma SmileyPreset()
    ensures |SimpleImage(SmileyColors(), 7, 7)| == 49
    ensures SimpleImage(SmileyColors(), 7, 7)[2] == Pixel(2, 0, "#FFFF00")
    ensures SimpleImage(SmileyColors(), 7, 7)[16] == Pixel(2, 2, "#000000")
    ensures forall i :: 0 <= i < 49 ==>
      SimpleImage(SmileyColors(), 7, 7)[i].color in {"#FFFF00", "#000000", "#FFFFFF"}
  {
    var glyphs := SmileyGlyphs();
    var colors := SmileyColors();
    assert glyphs[2] == YellowSquare && glyphs[16] == BlackSquare;
    assert ColorOf(SmileyMap(), YellowSquare) == "#FFFF00";
    assert ColorOf(SmileyMap(), BlackSquare) == "#000000";
    SmileyMapColors();
    SimpleImageLayout(colors, 7, 7);
  }

  // ---------------------------------------------------------------------
  // loadImageFromData

  /** The `typeof` class of a property value: a number, a string, or anything else. */
  datatype JsValue = JsNumber(n: int) | JsString(s: string) | JsOther

  /** One element of the argument: a non-null object, `null`, or a primitive. */
  datatype JsEntry = JsObject(x: JsValue, y: JsValue, color: JsValue) | JsNull | JsPrimitive

  /** The argument of `loadImageFromData`: an array or any other value. */
  datatype JsInput = JsArray(entries: seq<JsEntry>) | NotAnArray

  /**
   * How a load ends: `return true`, `return false`, a thrown `TypeError`, or
   * the `IndexSizeError` that `getImageData` throws on a raster of size 0.
   */
  datatype LoadOutcome = Loaded | Rejected | ThrewTypeError | ThrewIndexSizeError

  predicate IsPixelRecord(e: JsEntry)
  {
    e.JsObject? && e.x.JsNumber? && e.y.JsNumber? && e.color.JsString?
  }

  /**
   * The `every` scan, left to right, stopping at the first failing entry.
   * `typeof null === 'object'`, so a `null` entry passes the first test and
   * reading its `x` throws.
   */
  function Validate(entries: seq<JsEntry>): (outcome: LoadOutcome)
    ensures outcome == Loaded ==> forall i :: 0 <= i < |entries| ==> IsPixelRecord(entries[i])
  {
    if entries == [] then Loaded
    else match entries[0]
      case JsNull => ThrewTypeError
      case JsPrimitive => Rejected
      case JsObject(_, _, _) => if IsPixelRecord(entries[0]) then Validate(entries[1..]) else Rejected
  }

  /**
   * The validation accepts exactly the arrays of `{x: number, y: number,
   * color: string}` records, and throws exactly when a `null` comes before
   * any other bad entry.
   */
  lemma {:induction false} ValidateSpec(entries: seq<JsEntry>)
    ensures Validate(entries) == Loaded <==> forall i :: 0 <= i < |entries| ==> IsPixelRecord(entries[i])
    ensures Validate(entries) == ThrewTypeError <==>
      exists i :: 0 <= i < |entries| && entries[i] == JsNull && forall j :: 0 <= j < i ==> IsPixelRecord(entries[j])
  {
    if entries != [] {
      ValidateSpec(entries[1..]);
      if IsPixelRecord(entries[0]) {
        if Validate(entries) == ThrewTypeError {
          var i :| 0 <= i < |entries[1..]| && entries[1..][i] == JsNull
                   && forall j :: 0 <= j < i ==> IsPixelRecord(entries[1..][j]);
          assert entries[i + 1] == JsNull;
          assert forall j :: 0 <= j < i + 1 ==> IsPixelRecord(entries[j]) by {
            forall j | 0 <= j < i + 1 ensures IsPixelRecord(entries[j]) {
              if j > 0 { assert entries[j] == entries[1..][j - 1]; }
            }
          }
        }
        if exists i :: 0 <= i < |entries| && entries[i] == JsNull && forall j :: 0 <= j < i ==> IsPixelRecord(entries[j]) {
          var i :| 0 <= i < |entries| && entries[i] == JsNull && forall j :: 0 <= j < i ==> IsPixelRecord(entries[j]);
          assert i > 0;
          assert entries[1..][i - 1] == JsNull;
          assert forall j :: 0 <= j < i - 1 ==> IsPixelRecord(entries[1..][j]) by {
            forall j | 0 <= j < i - 1 ensures IsPixelRecord(entries[1..][j]) {
              assert entries[1..][j] == entries[j + 1];
            }
          }
        }
      } else {
        assert !IsPixelRecord(entries[0]);
        if entries[0] != JsNull {
          assert forall i :: 0 <= i < |entries| && entries[i] == JsNull ==> i > 0;
        }
      }
    }
  }

  /** The pixels an accepted array stands for, in the same order. */
  function ToPixels(entries: seq<JsEntry>): (px: seq<Pixel>)
    requires forall i :: 0 <= i < |entries| ==> IsPixelRecord(entries[i])
    ensures |px| == |entries|
  {
    seq(|entries|, i requires 0 <= i < |entries| && IsPixelRecord(entries[i]) =>
      Pixel(entries[i].x.n, entries[i].y.n, entries[i].color.s))
  }

  /** The `{x, y, color}` objects a pixel list is written as. */
  function FromPixels(px: seq<Pixel>): (entries: seq<JsEntry>)
    ensures |entries| == |px|
    ensures forall i :: 0 <= i < |px| ==> IsPixelRecord(entries[i])
  {
    seq(|px|, i requires 0 <= i < |px| => JsObject(JsNumber(px[i].x), JsNumber(px[i].y), JsString(px[i].color)))
  }

  /** Any pixel list passes validation and is read back unchanged. */
  lemma FromPixelsRoundTrip(px: seq<Pixel>)
    ensures Validate(FromPixels(px)) == Loaded
    ensures ToPixels(FromPixels(px)) == px
  {
    ValidateSpec(FromPixels(px));
  }

  // ---------------------------------------------------------------------
  // processImageToPixels

  /** The colour string the walk emits for cell `i`: `#rrggbb` of its first three channels. */
  function CellColor(data: seq<Byte>, i: nat): string
    requires 4 * i + 3 < |data|
  {
    HexColor(Rgb(data[4 * i], data[4 * i + 1], data[4 * i + 2]))
  }

  predicate Opaque(data: seq<Byte>, i: nat)
    requires 4 * i + 3 < |data|
  {
    data[4 * i + 3] >= 128
  }

  /**
   * The pixels the walk has emitted after the first `n` cells in row-major
   * order: a cell whose alpha is below 128 is skipped (`continue`).
   */
  function RasterPrefix(width: nat, data: seq<Byte>, n: nat): seq<Pixel>
    requires width > 0 && 4 * n <= |data|
  {
    if n == 0 then []
    else
      var i := n - 1;
      RasterPrefix(width, data, i) +
        (if Opaque(data, i) then [Pixel(i % width, i / width, CellColor(data, i))] else [])
  }

  /** What `processImageToPixels` returns for a `width` by `height` RGBA buffer. */
  function RasterPixels(width: nat, height: nat, data: seq<Byte>): seq<Pixel>
    requires |data| == width * height * 4
  {
    if width == 0 then [] else RasterPrefix(width, data, width * height)
  }

  /** The row-major index of a pixel's cell. */
  function Key(p: Pixel, width: int): int { p.y * width + p.x }

  /** Every emitted pixel is an opaque cell among the first `n`, with that cell's colour. */
  ghost predicate OnlyOpaqueCells(width: nat, data: seq<Byte>, n: nat, px: seq<Pixel>)
    requires 4 * n <= |data|
  {
    forall k :: 0 <= k < |px| ==>
      && 0 <= px[k].x < width && 0 <= px[k].y
      && 0 <= Key(px[k], width) < n
      && Opaque(data, Key(px[k], width))
      && px[k].color == CellColor(data, Key(px[k], width))
  }

  /** Pixels come in strictly increasing row-major order. */
  ghost predicate RowMajorOrder(width: nat, px: seq<Pixel>)
  {
    forall k, l :: 0 <= k < l < |px| ==> Key(px[k], width) < Key(px[l], width)
  }

  /** Every opaque cell among the first `n` is emitted. */
  ghost predicate AllOpaqueCells(width: nat, data: seq<Byte>, n: nat, px: seq<Pixel>)
    requires 4 * n <= |data|
  {
    forall i :: 0 <= i < n && Opaque(data, i) ==> exists k :: 0 <= k < |px| && Key(px[k], width) == i
  }

  /** The cell the walk visits at step `i` has row-major index `i`. */
  lemma KeyOfCell(width: nat, i: nat)
    requires width > 0
    ensures Key(Pixel(i % width, i / width, ""), width) == i
    ensures forall c :: Key(Pixel(i % width, i / width, c), width) == i
  {
  }

  /** After `n` cells every emitted pixel is an opaque cell among them, with its colour. */
  lemma {:induction false} RasterPrefixSound(width: nat, data: seq<Byte>, n: nat)
    requires width > 0 && 4 * n <= |data|
    ensures OnlyOpaqueCells(width, data, n, RasterPrefix(width, data, n))
  {
    if n > 0 {
      var i := n - 1;
      RasterPrefixSound(width, data, i);
      KeyOfCell(width, i);
      var prev := RasterPrefix(width, data, i);
      var px := RasterPrefix(width, data, n);
      forall k | 0 <= k < |px|
        ensures 0 <= px[k].x < width && 0 <= px[k].y && 0 <= Key(px[k], width) < n
        ensures Opaque(data, Key(px[k], width)) && px[k].color == CellColor(data, Key(px[k], width))
      {
        if k < |prev| {
          assert px[k] == prev[k];
        } else {
          assert px[k] == Pixel(i % width, i / width, CellColor(data, i));
        }
      }
    }
  }

  /** The walk emits pixels in strictly increasing row-major order. */
  lemma {:induction false} RasterPrefixOrdered(width: nat, data: seq<Byte>, n: nat)
    requires width > 0 && 4 * n <= |data|
    ensures RowMajorOrder(width, RasterPrefix(width, data, n))
  {
    if n > 0 {
      var i := n - 1;
      RasterPrefixOrdered(width, data, i);
      RasterPrefixSound(width, data, i);
      KeyOfCell(width, i);
    }
  }

  /** After `n` cells every opaque one among them has been emitted. */
  lemma {:induction false} RasterPrefixComplete(width: nat, data: seq<Byte>, n: nat)
    requires width > 0 && 4 * n <= |data|
    ensures AllOpaqueCells(width, data, n, RasterPrefix(width, data, n))
  {
    if n > 0 {
      var i := n - 1;
      RasterPrefixComplete(width, data, i);
      var prev := RasterPrefix(width, data, i);
      var px := RasterPrefix(width, data, n);
      var cell := Pixel(i % width, i / width, CellColor(data, i));
      KeyOfCell(width, i);
      assert Key(cell, width) == i;
      assert px == prev + (if Opaque(data, i) then [cell] else []);
      forall j | 0 <= j < n && Opaque(data, j)
        ensures exists k :: 0 <= k < |px| && Key(px[k], width) == j
      {
        if j < i {
          var k :| 0 <= k < |prev| && Key(prev[k], width) == j;
          assert px[k] == prev[k];
        } else {
          assert px[|prev|] == cell;
        }
      }
    }
  }

  /**
   * `processImageToPixels` emits, in row-major order, exactly the cells of
   * the grid whose alpha is at least 128, each inside the grid and with its
   * `#rrggbb` colour.
   */
  lemma RasterPixelsSpec(width: nat, height: nat, data: seq<Byte>)
    requires width > 0 && |data| == width * height * 4
    ensures OnlyOpaqueCells(width, data, width * height, RasterPixels(width, height, data))
    ensures RowMajorOrder(width, RasterPixels(width, height, data))
    ensures forall k :: 0 <= k < |RasterPixels(width, height, data)| ==>
      RasterPixels(width, height, data)[k].y < height
    ensures forall i :: 0 <= i < width * height && Opaque(data, i) ==>
      exists k :: 0 <= k < |RasterPixels(width, height, data)| &&
        RasterPixels(width, height, data)[k].x == i % width &&
        RasterPixels(width, height, data)[k].y == i / width
  {
    var n := width * height;
    assert 4 * n == |data|;
    var px := RasterPrefix(width, data, n);
    assert px == RasterPixels(width, height, data);
    RasterPrefixSound(width, data, n);
    RasterPrefixOrdered(width, data, n);
    RasterPrefixComplete(width, data, n);
    forall k | 0 <= k < |px|
      ensures px[k].y < height
    {
      assert Key(px[k], width) < n;
      RowBelow(px[k].y, px[k].x, width, height);
    }
    forall i | 0 <= i < n && Opaque(data, i)
      ensures exists k :: 0 <= k < |px| && px[k].x == i % width && px[k].y == i / width
    {
      assert exists k :: 0 <= k < |px| && Key(px[k], width) == i;
      var k :| 0 <= k < |px| && Key(px[k], width) == i;
      CellOfKey(px[k], width, i);
    }
  }

  /** A pixel inside a `width`-wide row is recovered from its row-major index. */
  lemma CellOfKey(p: Pixel, width: nat, i: int)
    requires 0 <= p.x < width && 0 <= p.y && Key(p, width) == i
    ensures p.x == i % width && p.y == i / width
  {
    RowMajorIndex(p.y, p.x, width);
  }

  lemma RowBelow(y: int, x: int, w: nat, h: nat)
    requires 0 <= y && 0 <= x
    requires y * w + x < w * h
    ensures y < h
  {
    if y >= h {
      MulMono(h, y, w);
      assert false;
    }
  }

  /** Where cell (x, y) of a `w` by `h` grid sits in row-major order. */
  lemma CellInGrid(y: nat, x: nat, w: nat, h: nat)
    requires y < h && x <= w
    ensures y * w + x <= w * h
    ensures x < w ==> y * w + x < w * h
    ensures y * w + w == (y + 1) * w
  {
    MulMono(y + 1, h, w);
    assert h * w == w * h;
  }

  /** One more cell of the walk. */
  lemma RasterStep(width: nat, data: seq<Byte>, i: nat)
    requires width > 0 && 4 * i + 4 <= |data|
    ensures RasterPrefix(width, data, i + 1) == RasterPrefix(width, data, i) +
      (if data[4 * i + 3] >= 128 then [Pixel(i % width, i / width, CellColor(data, i))] else [])
  {
  }

  /** Cell `k = y * width + x` of a `width` by `height` grid: inside it, at column `x` and row `y`. */
  lemma GridCell(width: nat, height: nat, y: nat, x: nat, k: nat)
    requires y < height && x < width && k == y * width + x
    ensures k < width * height && k % width == x && k / width == y
  {
    CellInGrid(y, x, width, height);
    RowMajorIndex(y, x, width);
  }

  /** The step of `RasterPrefix` for cell `k`, whose channels start at `i`, read as the walk reads the buffer. */
  lemma RasterCell(width: nat, data: seq<Byte>, k: nat, x: nat, y: nat, i: nat)
    requires width > 0 && 4 * k + 4 <= |data| && x == k % width && y == k / width && i == 4 * k
    ensures i + 3 < |data|
    ensures Opaque(data, k) == (data[i + 3] >= 128)
    ensures CellColor(data, k) == HexColor(Rgb(data[i], data[i + 1], data[i + 2]))
    ensures RasterPrefix(width, data, k + 1) == RasterPrefix(width, data, k) +
      (if Opaque(data, k) then [Pixel(x, y, CellColor(data, k))] else [])
  {
    RasterStep(width, data, k);
  }

  /** `processImageToPixels`: the nested walk over the buffer, pushing kept pixels, one row at a time. */
  method ProcessImageToPixels(width: nat, height: nat, data: seq<Byte>) returns (pixels: seq<Pixel>)
    requires |data| == width * height * 4
    ensures pixels == RasterPixels(width, height, data)
  {
    pixels := [];
    if width == 0 {
      return;
    }
    var y := 0;
    while y < height
      invariant 0 <= y <= height
      invariant y * width <= width * height
      invariant pixels == RasterPrefix(width, data, y * width)
    {
      CellInGrid(y, width, width, height);
      pixels := ProcessRow(width, height, data, y, pixels);
      y := y + 1;
    }
    MulComm(y, width);
  }

  /** The inner loop of `processImageToPixels`: the cells of row `y`, left to right. */
  method ProcessRow(width: nat, height: nat, data: seq<Byte>, y: nat, pixels: seq<Pixel>) returns (out: seq<Pixel>)
    requires |data| == width * height * 4 && y < height
    requires width > 0 && y * width + width <= width * height
    requires pixels == RasterPrefix(width, data, y * width)
    ensures out == RasterPrefix(width, data, y * width + width)
  {
    out := pixels;
    var x := 0;
    while x < width
      invariant 0 <= x <= width
      invariant out == RasterPrefix(width, data, y * width + x)
    {
      var i := (y * width + x) * 4;
      GridCell(width, height, y, x, y * width + x);
      RasterCell(width, data, y * width + x, x, y, i);
      var r, g, b, a := data[i], data[i + 1], data[i + 2], data[i + 3];
      if a >= 128 {
        out := out + [Pixel(x, y, HexColor(Rgb(r, g, b)))];
      }
      x := x + 1;
    }
  }

  lemma MulComm(a: nat, b: nat)
    ensures a * b == b * a
  {
  }
}
