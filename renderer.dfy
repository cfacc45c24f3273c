/** `map_blocks_to_colors` (blocks into pixels) and `create_image` (pixels on the raster). */
module Renderer {
  import opened Types
  import Arith

  // ---------------------------------------------------------------------------
  // Expansion (`map_blocks_to_colors`)
  // ---------------------------------------------------------------------------

  /** `block_color_map.get(block, (0, 0, 0))`. */
  function Lookup(colorMap: map<Block, Rgb>, b: Block): (c: Rgb)
    ensures b in colorMap ==> c == colorMap[b]
    ensures b !in colorMap ==> c == Black
  {
    if b in colorMap then colorMap[b] else Black
  }

  /** m copies of one colour. */
  function Repeat(c: Rgb, m: nat): (r: seq<Rgb>)
    ensures |r| == m && forall k :: 0 <= k < m ==> r[k] == c
  {
    seq(m, _ => c)
  }

  /** The pixel sequence: for each block in chunk order, m pixels of its colour. */
  function Expand(blocks: seq<Block>, colorMap: map<Block, Rgb>, m: nat): seq<Rgb> {
    if blocks == [] then []
    else Expand(blocks[..|blocks| - 1], colorMap, m) + Repeat(Lookup(colorMap, blocks[|blocks| - 1]), m)
  }

  /** There are m pixels per block. */
  lemma {:induction false} ExpandLength(blocks: seq<Block>, colorMap: map<Block, Rgb>, m: nat)
    ensures |Expand(blocks, colorMap, m)| == |blocks| * m
    decreases |blocks|
  {
    if blocks != [] {
      ExpandLength(blocks[..|blocks| - 1], colorMap, m);
      assert (|blocks| - 1) * m + m == |blocks| * m;
    }
  }

  /**
   * Pixel k carries the colour of block k / m: the blocks keep their chunk
   * order, whatever their rank.
   */
  lemma {:induction false} ExpandAt(blocks: seq<Block>, colorMap: map<Block, Rgb>, m: nat, k: nat)
    requires k < |blocks| * m
    ensures m > 0 && k / m < |blocks|
    ensures |Expand(blocks, colorMap, m)| == |blocks| * m
    ensures Expand(blocks, colorMap, m)[k] == Lookup(colorMap, blocks[k / m])
    ensures blocks[k / m] in colorMap ==> Expand(blocks, colorMap, m)[k] == colorMap[blocks[k / m]]
    ensures blocks[k / m] !in colorMap ==> Expand(blocks, colorMap, m)[k] == Black
    decreases |blocks|
  {
    ExpandLength(blocks, colorMap, m);
    var init := blocks[..|blocks| - 1];
    var n := |init|;
    assert m > 0;
    ExpandLength(init, colorMap, m);
    assert n * m + m == |blocks| * m;
    if k < n * m {
      ExpandAt(init, colorMap, m, k);
    } else {
      Arith.DivModUnique(k, m, n, k - n * m);
    }
  }

  /**
   * `map_blocks_to_colors`: for each block in order, looks up its colour and
   * appends it blockSize / pixelsPerBlock times.
   */
  method MapBlocksToColors(blocks: seq<Block>, colorMap: map<Block, Rgb>, blockSize: nat, pixelsPerBlock: nat)
    returns (pixels: seq<Rgb>)
    requires pixelsPerBlock > 0
    ensures pixels == Expand(blocks, colorMap, blockSize / pixelsPerBlock)
  {
    var m := blockSize / pixelsPerBlock;
    pixels := [];
    var i := 0;
    while i < |blocks|
      invariant 0 <= i <= |blocks|
      invariant pixels == Expand(blocks[..i], colorMap, m)
    {
      var color := Lookup(colorMap, blocks[i]);
      var j := 0;
      while j < m
        invariant 0 <= j <= m
        invariant pixels == Expand(blocks[..i], colorMap, m) + Repeat(color, j)
      {
        assert Repeat(color, j + 1) == Repeat(color, j) + [color];
        pixels := pixels + [color];
        j := j + 1;
      }
      assert blocks[..i + 1][..i] == blocks[..i];
      i := i + 1;
    }
    assert blocks[..i] == blocks;
  }

  // ---------------------------------------------------------------------------
  // Layout (`create_image`)
  // ---------------------------------------------------------------------------

  /** `int(math.sqrt(n))`, taken as the exact integer square root. */
  function Isqrt(n: nat): (r: nat)
    ensures r * r <= n < (r + 1) * (r + 1)
  {
    if n == 0 then 0
    else
      var s := Isqrt(n - 1);
      if (s + 1) * (s + 1) <= n then
        assert (s + 1) * (s + 1) < (s + 2) * (s + 2);
        s + 1
      else s
  }

  /** The integer square root is the only r with r*r <= n < (r+1)*(r+1). */
  lemma IsqrtUnique(n: nat, r: nat)
    requires r * r <= n < (r + 1) * (r + 1)
    ensures r == Isqrt(n)
  {
    var s := Isqrt(n);
    if r < s {
      Arith.SquareMono(r + 1, s);
    } else if s < r {
      Arith.SquareMono(s + 1, r);
    }
  }

  /** `int(math.sqrt(n))` as a loop: the largest r whose square is at most n. */
  method IntegerSqrt(n: nat) returns (r: nat)
    ensures r * r <= n < (r + 1) * (r + 1)
    ensures r == Isqrt(n)
  {
    r := 0;
    while (r + 1) * (r + 1) <= n
      invariant r * r <= n
      decreases n - r
    {
      Arith.MulAtLeast(r + 1, r + 1);
      r := r + 1;
    }
    IsqrtUnique(n, r);
  }

  /** Raster width: the integer square root of the pixel count. */
  function Width(n: nat): (w: nat)
    requires n > 0
    ensures w > 0
  {
    Isqrt(n)
  }

  /** Raster height: n / w, plus one row when n is not a multiple of w. */
  function Height(n: nat): (h: nat)
    requires n > 0
    ensures Width(n) * h >= n > Width(n) * (h - 1)
  {
    var w := Width(n);
    var h := n / w + if n % w != 0 then 1 else 0;
    Arith.CeilCover(n, w, h);
    h
  }

  /** n / w lies between w and w + 2, and reaches w + 2 only when w divides n. */
  lemma QuotientBounds(n: nat)
    requires n > 0
    ensures Width(n) <= n / Width(n) <= Width(n) + 2
    ensures n / Width(n) == Width(n) + 2 ==> n % Width(n) == 0
  {
    Arith.SqrtQuotient(n, Width(n));
  }

  /**
   * The raster is the smallest stack of full rows that holds n pixels, and
   * it is roughly square: the height exceeds the width by at most two.
   */
  lemma LayoutSize(n: nat)
    requires n > 0
    ensures Width(n) * Height(n) >= n > Width(n) * (Height(n) - 1)
    ensures Width(n) <= Height(n) <= Width(n) + 2
  {
    QuotientBounds(n);
  }

  /** Every pixel's unflipped row k / w lies above the bottom of the raster. */
  lemma RowInRange(k: nat, n: nat)
    requires k < n
    ensures 0 <= k / Width(n) < Height(n)
  {
    Arith.CeilRow(k, n, Width(n), Height(n));
  }

  /** Column of pixel k: `idx % img_width`. */
  function Column(k: nat, n: nat): (x: nat)
    requires 0 < n
    ensures x < Width(n)
  {
    k % Width(n)
  }

  /**
   * Row of pixel k: `idx // img_width`, mirrored to `img_height - y - 1`
   * when the image is flipped. For every pixel it lies inside the raster, so
   * the `y_coord < img_height` guard never skips one.
   */
  function Row(k: nat, n: nat, flip: bool): (y: int)
    requires k < n
    ensures 0 <= y < Height(n)
  {
    RowInRange(k, n);
    var w := Width(n);
    if flip then Height(n) - k / w - 1 else k / w
  }

  /** The pixel index that the layout maps to cell (y, x): the inverse of (Row, Column). */
  function IndexAt(y: nat, x: nat, n: nat, flip: bool): nat
    requires 0 < n && y < Height(n)
  {
    (if flip then Height(n) - 1 - y else y) * Width(n) + x
  }

  /** Pixel k is written at the cell whose index is k. */
  lemma IndexAtPosition(k: nat, n: nat, flip: bool)
    requires k < n
    ensures IndexAt(Row(k, n, flip), Column(k, n), n, flip) == k
  {
    var w := Width(n);
    assert k == (k / w) * w + k % w;
  }

  /** The only pixel written at cell (y, x) is IndexAt(y, x). */
  lemma PositionOfIndex(y: nat, x: nat, n: nat, flip: bool)
    requires 0 < n && y < Height(n) && x < Width(n) && IndexAt(y, x, n, flip) < n
    ensures Row(IndexAt(y, x, n, flip), n, flip) == y
    ensures Column(IndexAt(y, x, n, flip), n) == x
  {
    var k := IndexAt(y, x, n, flip);
    var row := if flip then Height(n) - 1 - y else y;
    Arith.DivModUnique(k, Width(n), row, x);
  }

  /** Distinct pixels land on distinct cells. */
  lemma PositionInjective(k1: nat, k2: nat, n: nat, flip: bool)
    requires k1 < n && k2 < n
    requires Row(k1, n, flip) == Row(k2, n, flip) && Column(k1, n) == Column(k2, n)
    ensures k1 == k2
  {
    IndexAtPosition(k1, n, flip);
    IndexAtPosition(k2, n, flip);
  }

  /** Cell (Row(k), Column(k)) is the one cell whose index is k. */
  lemma OnlyCellOf(k: nat, n: nat, flip: bool)
    requires k < n
    ensures IndexAt(Row(k, n, flip), Column(k, n), n, flip) == k
    ensures forall y, x :: 0 <= y < Height(n) && 0 <= x < Width(n) && IndexAt(y, x, n, flip) == k ==>
      y == Row(k, n, flip) && x == Column(k, n)
  {
    IndexAtPosition(k, n, flip);
    forall y, x | 0 <= y < Height(n) && 0 <= x < Width(n) && IndexAt(y, x, n, flip) == k
      ensures y == Row(k, n, flip) && x == Column(k, n)
    {
      PositionOfIndex(y, x, n, flip);
    }
  }

  /** The colour cell (y, x) ends with: its pixel, or the black background when it has none. */
  function CellColor(pixels: seq<Rgb>, flip: bool, y: nat, x: nat): Rgb
    requires 0 < |pixels| && y < Height(|pixels|)
  {
    var k := IndexAt(y, x, |pixels|, flip);
    if k < |pixels| then pixels[k] else Black
  }

  /**
   * The raster-writing part of `create_image`: a Height x Width image
   * (indexed [y, x]) starting black, and pixel k drawn at (Column(k), Row(k)).
   * Every pixel appears at its cell, and the cells past the last pixel stay
   * black.
   */
  method CreateImage(pixels: seq<Rgb>, flip: bool) returns (img: array2<Rgb>)
    requires |pixels| > 0
    ensures fresh(img)
    ensures img.Length0 == Height(|pixels|) && img.Length1 == Width(|pixels|)
    ensures forall y, x :: 0 <= y < img.Length0 && 0 <= x < img.Length1 ==>
      img[y, x] == CellColor(pixels, flip, y, x)
    ensures forall k :: 0 <= k < |pixels| ==>
      img[Row(k, |pixels|, flip), Column(k, |pixels|)] == pixels[k]
  {
    var n := |pixels|;
    var w := IntegerSqrt(n);
    var h := n / w;
    if n % w != 0 {
      h := h + 1;
    }
    img := new Rgb[h, w]((_, _) => Black);
    var idx := 0;
    while idx < n
      invariant 0 <= idx <= n
      invariant forall y, x :: 0 <= y < h && 0 <= x < w ==>
        img[y, x] == if IndexAt(y, x, n, flip) < idx then pixels[IndexAt(y, x, n, flip)] else Black
    {
      var xCoord := idx % w;
      var yCoord := idx / w;
      if flip {
        yCoord := h - yCoord - 1;
      }
      assert xCoord == Column(idx, n) && yCoord == Row(idx, n, flip);
      OnlyCellOf(idx, n, flip);
      if yCoord < h {
        img[yCoord, xCoord] := pixels[idx];
      }
      idx := idx + 1;
    }
    forall k | 0 <= k < n
      ensures img[Row(k, n, flip), Column(k, n)] == pixels[k]
    {
      IndexAtPosition(k, n, flip);
    }
  }
}
