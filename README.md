# ECB image processor: block-to-colour pipeline

This project models the core of `ECBImageProcessor` in `aes.py`. The processor
makes the structure of an ECB-encrypted image visible. It reads the ciphertext
and cuts it to whole cipher blocks. It counts how often each distinct block
occurs and ranks the blocks by that count. It gives the most frequent block
white, the next ones generated palette colours, and the rest black. Each block,
in its original order, becomes a run of pixels, and the pixels are laid out on
a roughly square raster that can be flipped vertically.

The model follows the stages of `process_image`:

| module | file | stage |
|---|---|---|
| `Types` | types.dfy | bytes, blocks, RGB triples, `IndexOf` (first position of a value) |
| `Arith` | arith.dfy | the products, quotients and remainders the proofs need |
| `Chunker` | chunker.dfy | `read_image_bytes` (the truncating slice) and `break_into_blocks` |
| `Frequency` | frequency.dfy | `count_block_frequencies` (the `Counter`) and the stable sort in `assign_colors_to_blocks` |
| `Coloring` | coloring.dfy | `generate_color_palette` and the colouring loop of `assign_colors_to_blocks` |
| `Renderer` | renderer.dfy | `map_blocks_to_colors` and the layout loop of `create_image` |
| `Pipeline` | pipeline.dfy | `process_image` and the end-to-end statements about it |

Modelling choices:

- **Pure parts are functions.** The slice, the list comprehension, the `Counter` (a left fold recording each key's first appearance) and `sorted` are functions.
- **The sort.** `sorted` is modelled as an insertion sort that puts an entry before the first entry whose count is not larger. This yields the same permutation as Python's stable sort with `reverse=True`. The model proves it orders by count, breaks ties by first occurrence, and is a permutation.
- **Loops are methods.**
  - The palette loop, the colouring loop and the nested pixel loop are methods with loop invariants. Each carries an `ensures` that ties it to a function.
  - The raster loop writes into an `array2<Rgb>` indexed `[y, x]`. The array starts black, as `Image.new('RGB', ...)` does.
- **Configuration is passed as parameters.** The fields set in `__init__` (`block_size`, `max_colors`, `flip`, `pixels_per_block`) become method parameters.

## Model

| member | source | states |
|---|---|---|
| Chunker.Truncate | aes.py:17 | the result is a prefix of the buffer; its length is a multiple of the block size and exceeds `len - block_size`, which determines it as `len - len % block_size` |
| Chunker.Chunks | aes.py:19-20 | every block is non-empty and at most `block_size` long; all blocks but the last have exactly `block_size` bytes |
| Chunker.ChunksFlatten | aes.py:19-20 | concatenating the blocks in order gives back the buffer |
| Chunker.ChunksCount | aes.py:19-20 | a buffer of q whole blocks splits into exactly q blocks, each of full length |
| Chunker.ChunkAt | aes.py:20 | block j is bytes `[j*B, j*B + B)` whenever the buffer reaches that far |
| Chunker.BlockCount | aes.py:17-20 | a truncated buffer splits into `len / block_size` blocks, all of full length |
| Frequency.Tally | aes.py:22-23 | the counter's keys are exactly the distinct blocks; each count is that block's number of occurrences; the key order lists each key once |
| Frequency.CountsPositive | aes.py:22-23 | every count is at least 1 |
| Frequency.TallyFirstSeen | aes.py:22-23 | the keys are ordered by their first occurrence in the block stream |
| Frequency.TallyTotal | aes.py:22-23 | the counts sum to the number of blocks |
| Frequency.InsertPos | aes.py:35 | the stable insertion point: every entry before it has a larger count, and the entry at it does not |
| Frequency.InsertPerm | aes.py:35 | an insertion step adds exactly the inserted entry |
| Frequency.InsertSorted | aes.py:35 | an insertion step keeps the counts non-increasing |
| Frequency.Rank | aes.py:35 | the ranking is a permutation of the pairs, with counts non-increasing |
| Frequency.RankStable | aes.py:35 | entries of equal count keep their input order (the sort is stable) |
| Frequency.RankDistinct | aes.py:35 | ranking pairs with distinct blocks yields distinct blocks |
| Frequency.SortedItems | aes.py:35 | `sorted(items(), key=count, reverse=True)`: each block appears once with its count, counts are non-increasing, and every key of the counter is ranked |
| Frequency.SortedItemsKeys | aes.py:35 | the ranked blocks are exactly the counter's keys |
| Frequency.SortedItemsTieBreak | aes.py:22-35 | for a block stream: the counts are occurrence counts, and equal counts are ordered by first occurrence of the block |
| Coloring.FormulaColor | aes.py:28 | each channel of a generated colour lies in 0..254, so a generated colour is never white |
| Coloring.Palette | aes.py:25-31 | the palette has `max_colors` entries (2 when `max_colors < 2`); white first, black last, and entry i between is the channel formula |
| Coloring.GeneratePalette | aes.py:25-31 | the append loop builds exactly `Palette(max_colors)` |
| Coloring.WhiteOnlyFirst | aes.py:26-30 | white occurs only at index 0 |
| Coloring.FormulaPeriod | aes.py:28 | the generated colours repeat with period 51 |
| Coloring.PaletteRepeats | aes.py:26-30 | palette colours are not distinct: entry 51 is black like the overflow entry, and entry 52 equals entry 1 |
| Coloring.RankColor | aes.py:39-42 | rank i is `palette[i]` when `i < len(palette) - 1` and black otherwise; `Coloring.ColorByRank` proves the loop assigns it and `Coloring.RankColorOfPalette` gives its values over the generated palette |
| Coloring.RankColorOfPalette | aes.py:38-42 | with the generated palette, rank 0 is white, ranks up to `max_colors - 2` get the formula colour, later ranks get black; the colour is white exactly at rank 0 |
| Coloring.ColorByRank | aes.py:38-42 | the enumerate loop: exactly the ranked blocks get a colour, and the block at rank i gets `palette[i]` if `i < len(palette) - 1`, else black |
| Coloring.AssignColors | aes.py:33-44 | every distinct block of the counter gets exactly one colour, the colour of its rank; no other block gets a colour |
| Renderer.ExpandLength | aes.py:49-52 | there are `#blocks * m` pixels |
| Renderer.ExpandAt | aes.py:49-52 | pixel k has the colour of block `k / m`, in chunk order, not rank order: the mapped colour when that block is in the map, black (the `dict.get` default) when it is not |
| Renderer.MapBlocksToColors | aes.py:46-53 | the nested append loop builds exactly `Expand(blocks, map, block_size / pixels_per_block)` |
| Renderer.Isqrt | aes.py:58 | the integer square root: `r*r <= n < (r+1)*(r+1)` |
| Renderer.IntegerSqrt | aes.py:58 | the loop that computes the width returns the integer square root `r*r <= n < (r+1)*(r+1)`, which is `Isqrt(n)` |
| Renderer.IsqrtUnique | aes.py:58 | the integer square root is the only r with `r*r <= n < (r+1)*(r+1)` |
| Renderer.Width | aes.py:58 | the width `int(math.sqrt(n))` is positive for n > 0; its bounds relative to the height are stated by `Renderer.LayoutSize` |
| Renderer.Height | aes.py:59-62 | `n // w`, plus one row when `n % w != 0`: h rows of w cover n and h - 1 rows do not |
| Renderer.LayoutSize | aes.py:57-62 | `w*h >= n > w*(h-1)` and `w <= h <= w + 2` |
| Renderer.Column | aes.py:69 | the column of every pixel lies in `[0, w)` |
| Renderer.Row | aes.py:70-72 | the row, plain or flipped, of every pixel lies in `[0, h)`, so the `y_coord < img_height` guard never skips a pixel |
| Renderer.IndexAtPosition | aes.py:69-72 | pixel k's cell maps back to index k |
| Renderer.PositionOfIndex | aes.py:69-72 | a cell whose index is below n is the cell of the pixel with that index |
| Renderer.PositionInjective | aes.py:69-72 | distinct pixels land on distinct cells |
| Renderer.CreateImage | aes.py:55-74 | the raster is `h x w`; every cell holds its pixel's colour, or black when no pixel maps to it; pixel k is at `(Column(k), Row(k))` |
| Pipeline.RankOfFacts | aes.py:22-35 | every block of the stream is ranked once, and the ranked count is its number of occurrences |
| Pipeline.RankOrder | aes.py:22-35 | of two distinct blocks, one ranks first exactly when it occurs more often, or as often and first occurs earlier |
| Pipeline.MostFrequentFirst | aes.py:35 | the top-ranked block occurs at least as often as any other |
| Pipeline.WhiteIffTopRanked | aes.py:35-40 | a block is coloured white exactly when it is the top-ranked block |
| Pipeline.ColorOfBlock | aes.py:33-44 | the colour map gives each block the colour of its rank |
| Pipeline.ExpansionColors | aes.py:46-53 | expanding through the colour map gives pixel k the colour of the rank of block `k / m` |
| Pipeline.ProcessImage | aes.py:82-90 | end to end: an `h x w` raster for `n = #blocks * m` pixels; pixel k at `(Column(k), Row(k))` has the colour of the rank of block `k / m`; cells past the last pixel are black |

## Left out

- File reading and the save (aes.py:15-16, 77-80). Reading the file, saving the PNG and printing the confirmation are I/O. The buffer is a parameter and the raster is the result.
- PIL (aes.py:65-66, 74). `Image.new` and `ImageDraw.point` are those of a foreign library. They are replaced by a Dafny `array2<Rgb>` that starts black and by one array assignment per point.
- argparse and `__main__` (aes.py:93-115). This is command-line plumbing. Note that `type=bool` makes `--flip` true for any non-empty string.
- Renderer.Isqrt: `int(math.sqrt(n))` is modelled as the exact integer square root. Floating-point rounding for very large n is not modelled.
- Configurations that crash. The model takes `block_size` and `pixels_per_block` as natural numbers. A zero `block_size` divides by zero at aes.py:17. With a negative `block_size`, the `range` at aes.py:20 is empty, so there are no blocks and no pixels. With a `pixels_per_block` that is negative or larger than `block_size`, the `range` at aes.py:51 is empty, so again there are no pixels. A zero `pixels_per_block` divides by zero at aes.py:51 when there is a block; with no blocks, there are no pixels. With no pixels, aes.py:59 divides by zero. So the requires of `Pipeline.ProcessImage` (a positive block size, a positive `pixels_per_block`, at least one pixel) exclude only inputs on which the program crashes.
- Pipeline.ProcessImage requires at least one pixel. With no pixels, `img_width` is 0 and aes.py:59 divides by zero.
- Frequency.Tally: Python's hashing and the internals of `Counter` are not modelled. The counter is a map plus the order in which its keys were first inserted, which is the order `items()` yields.
- The `sorted` algorithm. Python uses Timsort, and the model uses an insertion sort. Both are stable sorts by the same key, so they return the same sequence; the model proves that sequence's characterising properties (`Frequency.Rank`, `Frequency.RankStable`).
- Palette modulus and `max_colors`. The code reduces each channel modulo 255 (aes.py:28) and raises nothing for `max_colors < 2`, so the palette is then just white and black. The generated colours repeat, which `Coloring.PaletteRepeats` states.
