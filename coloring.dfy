/** `generate_color_palette` and the rank-to-colour loop of `assign_colors_to_blocks`. */
module Coloring {
  import opened Types
  import opened Frequency
  import Arith

  /**
   * Generated palette entry i: the channels are i * 50, i * 80 and i * 110,
   * each reduced modulo 255 (not 256), so no channel reaches 255 and the
   * entry is never white.
   */
  function FormulaColor(i: int): (c: Rgb)
    ensures 0 <= c.red <= 254 && 0 <= c.green <= 254 && 0 <= c.blue <= 254
    ensures c != White
  {
    Rgb(i * 50 % 255, i * 80 % 255, i * 110 % 255)
  }

  /**
   * The palette `generate_color_palette` returns: white, the generated
   * entries 1 .. maxColors - 2, then black. A `maxColors` below 2 leaves the
   * generating range empty, so the palette is then just white and black.
   */
  function Palette(maxColors: int): (p: seq<Rgb>)
    ensures |p| == if maxColors >= 2 then maxColors else 2
    ensures p[0] == White && p[|p| - 1] == Black
    ensures forall i :: 1 <= i < |p| - 1 ==> p[i] == FormulaColor(i)
  {
    var n := if maxColors >= 2 then maxColors - 2 else 0;
    [White] + seq(n, j requires 0 <= j < n => FormulaColor(j + 1)) + [Black]
  }

  /** `generate_color_palette`: appends the generated entries one by one between white and black. */
  method GeneratePalette(maxColors: int) returns (palette: seq<Rgb>)
    ensures palette == Palette(maxColors)
  {
    palette := [White];
    var i := 1;
    while i < maxColors - 1
      invariant 1 <= i && (i == 1 || i <= maxColors - 1)
      invariant |palette| == i && palette[0] == White
      invariant forall j :: 1 <= j < i ==> palette[j] == FormulaColor(j)
    {
      var color := Rgb(i * 50 % 255, i * 80 % 255, i * 110 % 255);
      palette := palette + [color];
      i := i + 1;
    }
    palette := palette + [Black];
  }

  /** Only the first palette entry is white. */
  lemma WhiteOnlyFirst(maxColors: int, i: nat)
    requires i < |Palette(maxColors)|
    ensures Palette(maxColors)[i] == White <==> i == 0
  {
  }

  /** The generated colours repeat with period 51, since gcd(50, 80, 110, 255) == 5. */
  lemma FormulaPeriod(i: int)
    ensures FormulaColor(i + 51) == FormulaColor(i)
  {
    Arith.DivModUnique((i + 51) * 50, 255, i * 50 / 255 + 10, i * 50 % 255);
    Arith.DivModUnique((i + 51) * 80, 255, i * 80 / 255 + 16, i * 80 % 255);
    Arith.DivModUnique((i + 51) * 110, 255, i * 110 / 255 + 22, i * 110 % 255);
  }

  /**
   * The palette is not injective: with at least 54 entries, entry 51 is
   * black like the overflow colour and entry 52 repeats entry 1.
   */
  lemma PaletteRepeats(maxColors: int)
    requires maxColors >= 54
    ensures Palette(maxColors)[51] == Black == Palette(maxColors)[maxColors - 1]
    ensures Palette(maxColors)[52] == Palette(maxColors)[1]
  {
    FormulaPeriod(1);
  }

  /** The colour of the block at rank i: palette[i] below |palette| - 1, black from there on. */
  function RankColor(i: nat, palette: seq<Rgb>): (c: Rgb)
    ensures c in palette || c == Black
  {
    if i < |palette| - 1 then palette[i] else Black
  }

  /**
   * With the generated palette, rank 0 is white, ranks 1 .. maxColors - 2 get
   * their generated colour and every later rank the overflow black; only
   * rank 0 is white.
   */
  lemma RankColorOfPalette(maxColors: int, i: nat)
    ensures RankColor(i, Palette(maxColors)) ==
      if i == 0 then White
      else if i < |Palette(maxColors)| - 1 then FormulaColor(i)
      else Black
    ensures RankColor(i, Palette(maxColors)) == White <==> i == 0
  {
  }

  /**
   * The enumerate loop of `assign_colors_to_blocks` over a ranking whose
   * blocks are distinct: the block at rank i gets RankColor(i, palette), and
   * exactly the ranked blocks get a colour.
   */
  method ColorByRank(ranking: seq<Entry>, palette: seq<Rgb>) returns (colorMap: map<Block, Rgb>)
    requires DistinctBlocks(ranking)
    ensures forall b :: b in colorMap <==> Ranks(ranking, b)
    ensures forall i :: 0 <= i < |ranking| ==>
      ranking[i].block in colorMap && colorMap[ranking[i].block] == RankColor(i, palette)
  {
    colorMap := map[];
    var i := 0;
    while i < |ranking|
      invariant 0 <= i <= |ranking|
      invariant forall b :: b in colorMap ==> Ranks(ranking, b)
      invariant forall k :: 0 <= k < i ==>
        ranking[k].block in colorMap && colorMap[ranking[k].block] == RankColor(k, palette)
    {
      var block := ranking[i].block;
      assert Ranks(ranking, block);
      assert forall k :: 0 <= k < i ==> ranking[k].block != block;
      if i < |palette| - 1 {
        colorMap := colorMap[block := palette[i]];
      } else {
        colorMap := colorMap[block := Black];
      }
      i := i + 1;
    }
  }

  /**
   * `assign_colors_to_blocks`: ranks the counter's pairs by descending count
   * and gives the block at rank i the colour RankColor(i, palette). Every
   * distinct block gets exactly one colour, and no other block gets one.
   */
  method AssignColors(frequencies: Table, palette: seq<Rgb>) returns (colorMap: map<Block, Rgb>)
    requires WellFormed(frequencies)
    ensures forall b :: b in colorMap <==> b in frequencies.count
    ensures forall i :: 0 <= i < |SortedItems(frequencies)| ==>
      colorMap[SortedItems(frequencies)[i].block] == RankColor(i, palette)
  {
    var sortedBlocks := SortedItems(frequencies);
    colorMap := ColorByRank(sortedBlocks, palette);
    SortedItemsKeys(frequencies);
  }
}
