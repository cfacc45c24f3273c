/** Values shared by every stage of the block-to-colour pipeline. */
module Types {

  /** One byte of the ciphertext buffer. */
  type Byte = b: int | 0 <= b < 256

  /** A block of ciphertext bytes: the unit that is counted and coloured. */
  type Block = seq<Byte>

  /** An RGB colour; each channel is an integer as PIL receives it. */
  datatype Rgb = Rgb(red: int, green: int, blue: int)

  /** The colour of the most frequent block. */
  const White := Rgb(255, 255, 255)

  /** The overflow colour, the lookup default and the raster background. */
  const Black := Rgb(0, 0, 0)

  /** No element occurs twice. */
  predicate Distinct<T(==)>(s: seq<T>) {
    forall i, j :: 0 <= i < j < |s| ==> s[i] != s[j]
  }

  /** The position of the first occurrence of `x` in `s`, or `|s|` when there is none. */
  function IndexOf<T(==)>(s: seq<T>, x: T): (r: nat)
    ensures r <= |s|
    ensures r < |s| <==> x in s
    ensures r < |s| ==> s[r] == x
    ensures x !in s[..r]
  {
    if s == [] then 0
    else if s[0] == x then 0
    else
      assert s[1..][..IndexOf(s[1..], x)] == s[1..1 + IndexOf(s[1..], x)];
      1 + IndexOf(s[1..], x)
  }

  /** In a sequence without repetitions, the element at `i` is first found at `i`. */
  lemma IndexOfDistinct<T>(s: seq<T>, i: nat)
    requires Distinct(s) && i < |s|
    ensures IndexOf(s, s[i]) == i
  {
  }

  /** Appending an element does not move the first occurrence of one already present. */
  lemma IndexOfAppend<T>(s: seq<T>, y: T, x: T)
    requires x in s
    ensures IndexOf(s + [y], x) == IndexOf(s, x)
  {
    assert (s + [y])[IndexOf(s, x)] == x;
  }
}
