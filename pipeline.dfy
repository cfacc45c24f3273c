/** `process_image`: the stages chained from the byte buffer to the raster. */
module Pipeline {
  import opened Types
  import opened Chunker
  import opened Frequency
  import opened Coloring
  import opened Renderer
  import Arith

  /** The blocks the program colours: the truncated buffer, split. */
  function ImageBlocks(data: seq<Byte>, blockSize: nat): seq<Block>
    requires blockSize > 0
  {
    Chunks(Truncate(data, blockSize), blockSize)
  }

  /** The distinct blocks in rank order. */
  function RankedBlocks(blocks: seq<Block>): seq<Block> {
    var r := SortedItems(Tally(blocks));
    seq(|r|, i requires 0 <= i < |r| => r[i].block)
  }

  /** The rank of a block: its position in the ranking. */
  function RankOf(blocks: seq<Block>, b: Block): nat {
    IndexOf(RankedBlocks(blocks), b)
  }

  /** Every block of the stream is ranked, once, at RankOf; the counts are occurrence counts. */
  lemma RankOfFacts(blocks: seq<Block>, b: Block)
    requires b in blocks
    ensures RankOf(blocks, b) < |SortedItems(Tally(blocks))|
    ensures SortedItems(Tally(blocks))[RankOf(blocks, b)].block == b
    ensures SortedItems(Tally(blocks))[RankOf(blocks, b)].count == multiset(blocks)[b]
  {
    var r := SortedItems(Tally(blocks));
    assert Ranks(r, b);
    var i :| 0 <= i < |r| && r[i].block == b;
    RankedBlocksDistinct(blocks);
    IndexOfDistinct(RankedBlocks(blocks), i);
  }

  /** No block is ranked twice. */
  lemma RankedBlocksDistinct(blocks: seq<Block>)
    ensures Distinct(RankedBlocks(blocks))
  {
    var r := SortedItems(Tally(blocks));
    assert DistinctBlocks(r);
  }

  /**
   * The ranking, stated without the sort: of two different blocks of the
   * stream, one ranks before the other exactly when it occurs more often, or
   * as often and first occurs earlier.
   */
  lemma RankOrder(blocks: seq<Block>, b: Block, c: Block)
    requires b in blocks && c in blocks && b != c
    ensures RankOf(blocks, b) < RankOf(blocks, c) <==>
      multiset(blocks)[b] > multiset(blocks)[c] ||
      (multiset(blocks)[b] == multiset(blocks)[c] && IndexOf(blocks, b) < IndexOf(blocks, c))
  {
    RankOfFacts(blocks, b);
    RankOfFacts(blocks, c);
    SortedItemsTieBreak(blocks);
    var i, j := RankOf(blocks, b), RankOf(blocks, c);
    assert i != j;
    assert IndexOf(blocks, b) != IndexOf(blocks, c);
  }

  /** The top-ranked block occurs at least as often as any other. */
  lemma MostFrequentFirst(blocks: seq<Block>, b: Block)
    requires b in blocks
    ensures |RankedBlocks(blocks)| > 0
    ensures RankedBlocks(blocks)[0] in blocks
    ensures multiset(blocks)[b] <= multiset(blocks)[RankedBlocks(blocks)[0]]
  {
    RankOfFacts(blocks, b);
    var r := SortedItems(Tally(blocks));
    SortedItemsTieBreak(blocks);
    assert r[0].block in Tally(blocks).count;
  }

  /** A block is coloured white exactly when it is the top-ranked block. */
  lemma WhiteIffTopRanked(blocks: seq<Block>, maxColors: int, b: Block)
    requires b in blocks
    ensures |RankedBlocks(blocks)| > 0
    ensures RankColor(RankOf(blocks, b), Palette(maxColors)) == White <==> b == RankedBlocks(blocks)[0]
  {
    RankOfFacts(blocks, b);
    RankColorOfPalette(maxColors, RankOf(blocks, b));
  }

  /** The colour map the program builds gives each block the colour of its rank. */
  lemma ColorOfBlock(blocks: seq<Block>, colorMap: map<Block, Rgb>, palette: seq<Rgb>, b: Block)
    requires forall i :: 0 <= i < |SortedItems(Tally(blocks))| ==>
      SortedItems(Tally(blocks))[i].block in colorMap &&
      colorMap[SortedItems(Tally(blocks))[i].block] == RankColor(i, palette)
    requires b in blocks
    ensures Lookup(colorMap, b) == RankColor(RankOf(blocks, b), palette)
  {
    RankOfFacts(blocks, b);
  }

  /**
   * The colour pixel k should have, with m pixels per block: the colour that
   * the rank of its block, block k / m, selects from the palette.
   */
  function PixelColor(blocks: seq<Block>, m: nat, maxColors: int, k: nat): Rgb
    requires k < |blocks| * m
  {
    Arith.QuotientBelow(k, |blocks|, m);
    RankColor(RankOf(blocks, blocks[k / m]), Palette(maxColors))
  }

  /** Expanding blocks through the program's colour map gives every pixel its PixelColor. */
  lemma ExpansionColors(blocks: seq<Block>, colorMap: map<Block, Rgb>, maxColors: int, m: nat, k: nat)
    requires forall b :: b in blocks ==> Lookup(colorMap, b) == RankColor(RankOf(blocks, b), Palette(maxColors))
    requires k < |blocks| * m
    ensures |Expand(blocks, colorMap, m)| == |blocks| * m
    ensures Expand(blocks, colorMap, m)[k] == PixelColor(blocks, m, maxColors, k)
  {
    Arith.QuotientBelow(k, |blocks|, m);
    var b := blocks[k / m];
    var c := RankColor(RankOf(blocks, b), Palette(maxColors));
    assert Lookup(colorMap, b) == c;
    assert PixelColor(blocks, m, maxColors, k) == c;
    ExpandAt(blocks, colorMap, m, k);
  }

  /**
   * `process_image` without the file read and the PNG write: the raster is
   * Height(n) x Width(n) for the n = blocks * (blockSize / pixelsPerBlock)
   * pixels; pixel k, drawn at (Column(k), Row(k)), has its PixelColor, and
   * the cells past the last pixel stay black.
   */
  method ProcessImage(data: seq<Byte>, blockSize: nat, maxColors: int, flip: bool, pixelsPerBlock: nat)
    returns (img: array2<Rgb>)
    requires blockSize > 0 && pixelsPerBlock > 0
    requires |data| / blockSize * (blockSize / pixelsPerBlock) > 0
    ensures fresh(img)
    ensures var blocks := ImageBlocks(data, blockSize);
      var m := blockSize / pixelsPerBlock;
      var n := |blocks| * m;
      n > 0 && img.Length0 == Height(n) && img.Length1 == Width(n) &&
      (forall k :: 0 <= k < n ==>
        img[Row(k, n, flip), Column(k, n)] == PixelColor(blocks, m, maxColors, k)) &&
      (forall y, x :: 0 <= y < img.Length0 && 0 <= x < img.Length1 && IndexAt(y, x, n, flip) >= n ==>
        img[y, x] == Black)
  {
    var imgData := Truncate(data, blockSize);
    var imgBlocks := Chunks(imgData, blockSize);
    BlockCount(data, blockSize);
    var blockFrequencies := Tally(imgBlocks);
    var colorPalette := GeneratePalette(maxColors);
    var blockColorMap := AssignColors(blockFrequencies, colorPalette);
    var pixelColors := MapBlocksToColors(imgBlocks, blockColorMap, blockSize, pixelsPerBlock);
    var m := blockSize / pixelsPerBlock;
    var n := |imgBlocks| * m;
    ExpandLength(imgBlocks, blockColorMap, m);
    img := CreateImage(pixelColors, flip);
    forall b | b in imgBlocks
      ensures Lookup(blockColorMap, b) == RankColor(RankOf(imgBlocks, b), Palette(maxColors))
    {
      ColorOfBlock(imgBlocks, blockColorMap, colorPalette, b);
    }
    forall k | 0 <= k < n
      ensures pixelColors[k] == PixelColor(imgBlocks, m, maxColors, k)
    {
      ExpansionColors(imgBlocks, blockColorMap, maxColors, m, k);
    }
  }
}
