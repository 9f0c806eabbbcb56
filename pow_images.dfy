/**
 * The images of pow.js: rows of RGBA 4-tuples, the two 3 by 3 presets, and
 * the loop of `loadImageFromUrl` that packs a decoded RGBA buffer into rows.
 */
module PowImages {
  import opened Common

  /** One `[r, g, b, a]` entry of `imageData`. */
  datatype Rgba = Rgba(r: int, g: int, b: int, a: int)

  /** `imageData`: rows of entries, drawn row by row. */
  type Image = seq<seq<Rgba>>

  // ---------------------------------------------------------------------
  // Presets

  const Red: Rgba := Rgba(255, 0, 0, 255)
  const Yellow: Rgba := Rgba(255, 255, 0, 255)

  /** The heart preset: red all round, a transparent white centre. */
  function HeartImage(): Image
  {
    [[Red, Red, Red],
     [Red, Rgba(255, 255, 255, 0), Red],
     [Red, Red, Red]]
  }

  /** The smiley preset: yellow all round, an opaque black centre. */
  function SmileyImage(): Image
  {
    [[Yellow, Yellow, Yellow],
     [Yellow, Rgba(0, 0, 0, 255), Yellow],
     [Yellow, Yellow, Yellow]]
  }

  /**
   * The entries with a non-zero alpha from row `y`, column `x` on, in the
   * order the nested loops of `start` reach them.
   */
  function OpaqueFrom(image: Image, y: nat, x: nat): nat
    decreases |image| - y, if y < |image| then |image[y]| - x else 0
  {
    if y >= |image| then 0
    else if x >= |image[y]| then OpaqueFrom(image, y + 1, 0)
    else (if image[y][x].a != 0 then 1 else 0) + OpaqueFrom(image, y, x + 1)
  }

  /** The heart is 3 by 3 and its only transparent entry is the centre, so 8 entries are opaque. */
  lemma HeartShape()
    ensures |HeartImage()| == 3
    ensures forall y :: 0 <= y < 3 ==> |HeartImage()[y]| == 3
    ensures forall y, x :: 0 <= y < 3 && 0 <= x < 3 ==> (HeartImage()[y][x].a == 0 <==> y == 1 && x == 1)
    ensures OpaqueFrom(HeartImage(), 0, 0) == 8
  {
    var h := HeartImage();
    assert OpaqueFrom(h, 2, 0) == 3 by {
      assert OpaqueFrom(h, 3, 0) == 0;
      assert OpaqueFrom(h, 2, 3) == 0;
      assert OpaqueFrom(h, 2, 2) == 1;
      assert OpaqueFrom(h, 2, 1) == 2;
    }
    assert OpaqueFrom(h, 1, 0) == 5 by {
      assert OpaqueFrom(h, 1, 3) == 3;
      assert OpaqueFrom(h, 1, 2) == 4;
      assert OpaqueFrom(h, 1, 1) == 4;
    }
    assert OpaqueFrom(h, 0, 0) == 8 by {
      assert OpaqueFrom(h, 0, 3) == 5;
      assert OpaqueFrom(h, 0, 2) == 6;
      assert OpaqueFrom(h, 0, 1) == 7;
    }
  }

  /** The smiley is 3 by 3, fully opaque, yellow except for its black centre. */
  lemma SmileyShape()
    ensures |SmileyImage()| == 3
    ensures forall y :: 0 <= y < 3 ==> |SmileyImage()[y]| == 3
    ensures forall y, x :: 0 <= y < 3 && 0 <= x < 3 ==>
      SmileyImage()[y][x] == if y == 1 && x == 1 then Rgba(0, 0, 0, 255) else Yellow
  {
  }

  // ---------------------------------------------------------------------
  // The row packing of loadImageFromUrl

  /** The entry built from the four channels of cell `c`, which start at `c * 4`. */
  function CellAt(data: seq<Byte>, c: nat): Rgba
    requires c * 4 + 3 < |data|
  {
    Rgba(data[c * 4], data[c * 4 + 1], data[c * 4 + 2], data[c * 4 + 3])
  }

  /** Cell (x, y) of a `width` by `height` buffer lies inside it. */
  lemma CellInBuffer(width: nat, height: nat, y: nat, x: nat)
    requires y < height && x < width
    ensures (y * width + x) * 4 + 3 < width * height * 4
  {
    MulMono(y + 1, height, width);
    assert (y + 1) * width == y * width + width;
  }

  /** Row `y` of the packed image: the `width` cells from cell `y * width` on. */
  function PackedRow(data: seq<Byte>, width: nat, height: nat, y: nat): (row: seq<Rgba>)
    requires |data| == width * height * 4 && y < height
    ensures |row| == width
  {
    seq(width, x requires 0 <= x < width => CellInBuffer(width, height, y, x); CellAt(data, y * width + x))
  }

  /** What `loadImageFromUrl` stores: `height` rows of `width` entries from the RGBA buffer. */
  function Packed(width: nat, height: nat, data: seq<Byte>): (image: Image)
    requires |data| == width * height * 4
    ensures |image| == height
  {
    seq(height, y requires 0 <= y < height => PackedRow(data, width, height, y))
  }

  /** The channels of a row, entry after entry. */
  function FlattenRow(row: seq<Rgba>): (flat: seq<int>)
    ensures |flat| == 4 * |row|
  {
    if row == [] then [] else [row[0].r, row[0].g, row[0].b, row[0].a] + FlattenRow(row[1..])
  }

  /** The channels of an image, row after row. */
  function Flatten(image: Image): seq<int>
  {
    if image == [] then [] else FlattenRow(image[0]) + Flatten(image[1..])
  }

  /** The cells `o` to `o + n - 1`, one entry each. */
  function Cells(data: seq<Byte>, o: nat, n: nat): (row: seq<Rgba>)
    requires (o + n) * 4 <= |data|
    ensures |row| == n
  {
    seq(n, x requires 0 <= x < n => CellAt(data, o + x))
  }

  /** A run of `n` cells from cell `o` flattens back to its channels. */
  lemma {:induction false} CellsRoundTrip(data: seq<Byte>, o: nat, n: nat)
    requires (o + n) * 4 <= |data|
    ensures FlattenRow(Cells(data, o, n)) == data[o * 4 .. (o + n) * 4]
    decreases n
  {
    var row := Cells(data, o, n);
    if n > 0 {
      assert row[1..] == Cells(data, o + 1, n - 1);
      CellsRoundTrip(data, o + 1, n - 1);
      var head := data[o * 4 .. o * 4 + 4];
      assert row[0] == CellAt(data, o);
      assert head == [data[o * 4], data[o * 4 + 1], data[o * 4 + 2], data[o * 4 + 3]];
      assert data[o * 4 .. (o + n) * 4] == head + data[(o + 1) * 4 .. (o + 1 + (n - 1)) * 4];
    }
  }

  /** `count` rows of `width` cells each, the first starting at cell `o`. */
  function CellRows(data: seq<Byte>, o: nat, width: nat, count: nat): (rows: Image)
    requires (o + count * width) * 4 <= |data|
    ensures |rows| == count
  {
    seq(count, j requires 0 <= j < count => RowInside(o, width, count, j); Cells(data, o + j * width, width))
  }

  lemma RowInside(o: nat, width: nat, count: nat, j: nat)
    requires j < count
    ensures o + j * width + width <= o + count * width
  {
    MulMono(j + 1, count, width);
  }

  /** Consecutive rows of cells, ending at cell `end`, flatten back to the channels they were built from. */
  lemma {:induction false} CellRowsRoundTrip(data: seq<Byte>, o: nat, width: nat, count: nat, end: nat)
    requires end == o + count * width && end * 4 <= |data|
    ensures Flatten(CellRows(data, o, width, count)) == data[o * 4 .. end * 4]
    decreases count
  {
    var rows := CellRows(data, o, width, count);
    if count > 0 {
      var next := o + width;
      MulPred(count, width);
      forall j | 0 <= j < count - 1
        ensures rows[1..][j] == CellRows(data, next, width, count - 1)[j]
      {
        MulPred(j + 1, width);
      }
      assert rows[1..] == CellRows(data, next, width, count - 1);
      CellRowsRoundTrip(data, next, width, count - 1, end);
      CellsRoundTrip(data, o, width);
      assert rows[0] == Cells(data, o, width);
      SliceSplit(data, o * 4, next * 4, end * 4);
    }
  }

  lemma MulPred(n: nat, w: nat)
    requires n > 0
    ensures n * w == (n - 1) * w + w && n * w >= w
  {
  }

  lemma SliceSplit<T>(s: seq<T>, lo: nat, mid: nat, hi: nat)
    requires lo <= mid <= hi <= |s|
    ensures s[lo .. hi] == s[lo .. mid] + s[mid .. hi]
  {
  }

  /** The packed image is the rows of cells from cell 0. */
  lemma PackedAsCellRows(width: nat, height: nat, data: seq<Byte>)
    requires |data| == width * height * 4
    ensures (0 + height * width) * 4 == |data|
    ensures Packed(width, height, data) == CellRows(data, 0, width, height)
  {
    assert height * width == width * height;
    forall y | 0 <= y < height
      ensures Packed(width, height, data)[y] == CellRows(data, 0, width, height)[y]
    {
      assert Packed(width, height, data)[y] == PackedRow(data, width, height, y);
    }
  }

  /** Packing loses nothing: flattening the rows gives back the buffer. */
  lemma PackedRoundTrip(width: nat, height: nat, data: seq<Byte>)
    requires |data| == width * height * 4
    ensures Flatten(Packed(width, height, data)) == data
  {
    PackedAsCellRows(width, height, data);
    CellRowsRoundTrip(data, 0, width, height, height * width);
    assert data[0 .. (height * width) * 4] == data;
  }

  /** The nested loops of `loadImageFromUrl` that push one row at a time. */
  method PackRows(width: nat, height: nat, data: seq<Byte>) returns (pixelData: Image)
    requires |data| == width * height * 4
    ensures pixelData == Packed(width, height, data)
  {
    pixelData := [];
    var y := 0;
    while y < height
      invariant y <= height
      invariant pixelData == Packed(width, height, data)[..y]
    {
      var row := [];
      var x := 0;
      while x < width
        invariant x <= width
        invariant row == PackedRow(data, width, height, y)[..x]
      {
        var i := (y * width + x) * 4;
        CellInBuffer(width, height, y, x);
        assert PackedRow(data, width, height, y)[..x + 1] ==
          PackedRow(data, width, height, y)[..x] + [CellAt(data, y * width + x)];
        row := row + [Rgba(data[i], data[i + 1], data[i + 2], data[i + 3])];
        x := x + 1;
      }
      assert row == Packed(width, height, data)[y];
      assert Packed(width, height, data)[..y + 1] == Packed(width, height, data)[..y] + [row];
      pixelData := pixelData + [row];
      y := y + 1;
    }
    assert Packed(width, height, data)[..height] == Packed(width, height, data);
  }
}
