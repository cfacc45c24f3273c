/** Chunker: the truncating read and the split of the buffer into blocks. */
module Chunker {
  import opened Types
  import Arith

  /**
   * The buffer cut down to a whole number of blocks, as `read_image_bytes`
   * slices it after the read. The three ensures determine the result: the
   * only prefix whose length is a multiple of the block size and lies in
   * (|data| - blockSize, |data|].
   */
  function Truncate(data: seq<Byte>, blockSize: nat): (r: seq<Byte>)
    requires blockSize > 0
    ensures |r| <= |data| && r == data[..|r|]
    ensures |r| % blockSize == 0
    ensures |data| - blockSize < |r|
  {
    var n := |data| - |data| % blockSize;
    Arith.DivModUnique(n, blockSize, |data| / blockSize, 0);
    data[..n]
  }

  /** The bytes of the blocks, in order. */
  function Flatten(blocks: seq<Block>): seq<Byte> {
    if blocks == [] then [] else blocks[0] + Flatten(blocks[1..])
  }

  /**
   * `break_into_blocks`: consecutive slices of `blockSize` bytes starting at
   * offsets 0, blockSize, 2 * blockSize, ...; the last slice is shorter when
   * the length is not a multiple of the block size.
   */
  function Chunks(data: seq<Byte>, blockSize: nat): (blocks: seq<Block>)
    requires blockSize > 0
    ensures forall j :: 0 <= j < |blocks| ==> 0 < |blocks[j]| <= blockSize
    ensures forall j :: 0 <= j < |blocks| - 1 ==> |blocks[j]| == blockSize
    decreases |data|
  {
    if |data| == 0 then []
    else if |data| <= blockSize then [data]
    else [data[..blockSize]] + Chunks(data[blockSize..], blockSize)
  }

  /** Joining the blocks gives back the buffer: the split loses and reorders nothing. */
  lemma {:induction false} ChunksFlatten(data: seq<Byte>, blockSize: nat)
    requires blockSize > 0
    ensures Flatten(Chunks(data, blockSize)) == data
    decreases |data|
  {
    if |data| > blockSize {
      ChunksFlatten(data[blockSize..], blockSize);
      assert data == data[..blockSize] + data[blockSize..];
    } else if |data| > 0 {
      assert Flatten([data]) == data + Flatten([]);
    }
  }

  /** A buffer of q whole blocks splits into exactly q blocks, each of full length. */
  lemma {:induction false} ChunksCount(data: seq<Byte>, blockSize: nat, q: nat)
    requires blockSize > 0 && |data| == q * blockSize
    ensures |Chunks(data, blockSize)| == q
    ensures forall j :: 0 <= j < q ==> |Chunks(data, blockSize)[j]| == blockSize
    decreases q
  {
    if q > 0 {
      Arith.MulStep(q, blockSize);
      ChunksCount(data[blockSize..], blockSize, q - 1);
    }
  }

  /** A buffer of at least one whole block starts with that block. */
  lemma ChunksHead(data: seq<Byte>, blockSize: nat)
    requires 0 < blockSize <= |data|
    ensures 0 < |Chunks(data, blockSize)| && Chunks(data, blockSize)[0] == data[..blockSize]
  {
  }

  /** Past the first block, the blocks are those of the rest of the buffer. */
  lemma ChunksTail(data: seq<Byte>, blockSize: nat, j: nat)
    requires 0 < blockSize < |data| && 0 < j <= |Chunks(data[blockSize..], blockSize)|
    ensures j < |Chunks(data, blockSize)|
    ensures Chunks(data, blockSize)[j] == Chunks(data[blockSize..], blockSize)[j - 1]
  {
  }

  /** A slice of a suffix is a slice of the whole, shifted by the suffix's start. */
  lemma DropSlice(s: seq<Byte>, d: nat, a: nat, b: nat)
    requires a <= b && d + b <= |s|
    ensures s[d..][a..b] == s[d + a..d + b]
  {
  }

  /**
   * Block j is bytes [lo, lo + blockSize) for lo = j * blockSize, whenever
   * the buffer reaches that far.
   */
  lemma {:induction false} ChunkAt(data: seq<Byte>, blockSize: nat, j: nat, lo: nat)
    requires blockSize > 0 && lo == j * blockSize && lo + blockSize <= |data|
    ensures j < |Chunks(data, blockSize)|
    ensures Chunks(data, blockSize)[j] == data[lo..lo + blockSize]
    decreases j
  {
    if j == 0 {
      ChunksHead(data, blockSize);
    } else {
      assert lo - blockSize == (j - 1) * blockSize >= 0 by {
        Arith.MulStep(j, blockSize);
        Arith.MulAtLeast(blockSize, j);
      }
      ChunkAt(data[blockSize..], blockSize, j - 1, lo - blockSize);
      ChunksTail(data, blockSize, j);
      DropSlice(data, blockSize, lo - blockSize, lo);
    }
  }

  /**
   * The chunking step as the program runs it, on the truncated buffer: there
   * are |data| / blockSize blocks, all of full length; the bytes dropped by
   * the truncation are fewer than one block.
   */
  lemma BlockCount(data: seq<Byte>, blockSize: nat)
    requires blockSize > 0
    ensures |Chunks(Truncate(data, blockSize), blockSize)| == |data| / blockSize
    ensures forall j :: 0 <= j < |Chunks(Truncate(data, blockSize), blockSize)| ==>
      |Chunks(Truncate(data, blockSize), blockSize)[j]| == blockSize
  {
    var t := Truncate(data, blockSize);
    var q := |t| / blockSize;
    assert |t| == q * blockSize;
    ChunksCount(t, blockSize, q);
    Arith.DivModUnique(|data|, blockSize, q, |data| - |t|);
  }
}
