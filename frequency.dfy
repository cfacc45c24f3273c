/** `count_block_frequencies` and the ranking by descending count in `assign_colors_to_blocks`. */
module Frequency {
  import opened Types

  /**
   * What `Counter(blocks)` holds: a count per distinct block, and the order
   * in which the keys were first inserted, which is the order `items()` yields.
   */
  datatype Table = Table(order: seq<Block>, count: map<Block, nat>)

  /** One `(block, count)` pair of `items()`. */
  datatype Entry = Entry(block: Block, count: nat)

  /** The keys listed in `order` are exactly the keys of `count`, each once. */
  ghost predicate WellFormed(t: Table) {
    Distinct(t.order) && forall b :: b in t.count <==> b in t.order
  }

  /**
   * `count_block_frequencies`: the counter built by one left-to-right pass,
   * adding a key with count 1 when a block is new and incrementing otherwise.
   * Its keys are the distinct blocks and each count is the number of
   * occurrences of its block.
   */
  function Tally(blocks: seq<Block>): (t: Table)
    ensures WellFormed(t)
    ensures forall b :: b in t.count <==> b in blocks
    ensures forall b :: b in t.count ==> t.count[b] == multiset(blocks)[b]
    decreases |blocks|
  {
    if blocks == [] then Table([], map[])
    else
      var prefix := blocks[..|blocks| - 1];
      var b := blocks[|blocks| - 1];
      assert blocks == prefix + [b];
      var t := Tally(prefix);
      if b in t.count then Table(t.order, t.count[b := t.count[b] + 1])
      else Table(t.order + [b], t.count[b := 1])
  }

  /** Every key of the counter occurs at least once. */
  lemma CountsPositive(blocks: seq<Block>, b: Block)
    requires b in Tally(blocks).count
    ensures Tally(blocks).count[b] >= 1
  {
    assert b in multiset(blocks);
  }

  /** The keys come in the order of their first occurrence in the block stream. */
  lemma {:induction false} TallyFirstSeen(blocks: seq<Block>)
    ensures forall i, j :: 0 <= i < j < |Tally(blocks).order| ==>
      IndexOf(blocks, Tally(blocks).order[i]) < IndexOf(blocks, Tally(blocks).order[j])
    decreases |blocks|
  {
    if blocks != [] {
      var prefix := blocks[..|blocks| - 1];
      var b := blocks[|blocks| - 1];
      assert blocks == prefix + [b];
      TallyFirstSeen(prefix);
      var t := Tally(prefix);
      forall x | x in t.order
        ensures IndexOf(blocks, x) == IndexOf(prefix, x) < |prefix|
      {
        IndexOfAppend(prefix, b, x);
      }
      if b !in t.count {
        assert IndexOf(blocks, b) == |prefix| by {
          assert b !in prefix;
          assert blocks[|prefix|] == b;
        }
      }
    }
  }

  /** The sum of the counts of the keys in `order`. */
  function Total(order: seq<Block>, count: map<Block, nat>): nat
    requires forall b :: b in order ==> b in count
  {
    if order == [] then 0
    else Total(order[..|order| - 1], count) + count[order[|order| - 1]]
  }

  /** The total depends only on the counts of the keys listed. */
  lemma {:induction false} TotalFrame(order: seq<Block>, c1: map<Block, nat>, c2: map<Block, nat>)
    requires forall b :: b in order ==> b in c1 && b in c2 && c1[b] == c2[b]
    ensures Total(order, c1) == Total(order, c2)
    decreases |order|
  {
    if order != [] {
      TotalFrame(order[..|order| - 1], c1, c2);
    }
  }

  /** Incrementing the count of a key listed once raises the total by one. */
  lemma {:induction false} TotalBump(order: seq<Block>, count: map<Block, nat>, x: Block)
    requires Distinct(order) && x in order
    requires forall b :: b in order ==> b in count
    ensures Total(order, count[x := count[x] + 1]) == Total(order, count) + 1
    decreases |order|
  {
    var init := order[..|order| - 1];
    var last := order[|order| - 1];
    assert order == init + [last];
    if last == x {
      assert x !in init;
      TotalFrame(init, count[x := count[x] + 1], count);
    } else {
      assert x in init;
      TotalBump(init, count, x);
    }
  }

  /** The counts sum to the number of blocks. */
  lemma {:induction false} TallyTotal(blocks: seq<Block>)
    ensures Total(Tally(blocks).order, Tally(blocks).count) == |blocks|
    decreases |blocks|
  {
    if blocks != [] {
      var prefix := blocks[..|blocks| - 1];
      var b := blocks[|blocks| - 1];
      TallyTotal(prefix);
      var t := Tally(prefix);
      if b in t.count {
        TotalBump(t.order, t.count, b);
      } else {
        var order := t.order + [b];
        assert order[..|order| - 1] == t.order;
        TotalFrame(t.order, t.count[b := 1], t.count);
      }
    }
  }

  /** `items()`: the pairs of the counter in key order. */
  function Items(t: Table): seq<Entry>
    requires WellFormed(t)
  {
    seq(|t.order|, i requires 0 <= i < |t.order| => Entry(t.order[i], t.count[t.order[i]]))
  }

  /** No two entries share a block. */
  predicate DistinctBlocks(r: seq<Entry>) {
    forall i, j :: 0 <= i < j < |r| ==> r[i].block != r[j].block
  }

  /** The pairs of a counter have distinct blocks. */
  lemma ItemsDistinct(t: Table)
    requires WellFormed(t)
    ensures DistinctBlocks(Items(t)) && Distinct(Items(t))
  {
  }

  /** Counts never increase along the sequence. */
  predicate NonIncreasing(r: seq<Entry>) {
    forall i, j :: 0 <= i < j < |r| ==> r[i].count >= r[j].count
  }

  /**
   * Where one step of a stable sort by descending count puts `e`: after
   * exactly the leading entries whose count is larger than its own.
   */
  function InsertPos(e: Entry, r: seq<Entry>): (p: nat)
    ensures p <= |r|
    ensures forall k :: 0 <= k < p ==> r[k].count > e.count
    ensures p < |r| ==> r[p].count <= e.count
  {
    if r == [] || r[0].count <= e.count then 0 else 1 + InsertPos(e, r[1..])
  }

  /** One step of a stable sort by descending count: `e` goes in at InsertPos. */
  function Insert(e: Entry, r: seq<Entry>): seq<Entry> {
    var p := InsertPos(e, r);
    r[..p] + [e] + r[p..]
  }

  /** Inserting adds `e` and keeps every entry of `r`. */
  lemma InsertPerm(e: Entry, r: seq<Entry>)
    ensures multiset(Insert(e, r)) == multiset(r) + multiset{e}
  {
    var p := InsertPos(e, r);
    assert r == r[..p] + r[p..];
  }

  /** Element by element: the entries before InsertPos, then `e`, then the rest shifted by one. */
  lemma InsertAt(e: Entry, r: seq<Entry>)
    ensures |Insert(e, r)| == |r| + 1
    ensures Insert(e, r)[InsertPos(e, r)] == e
    ensures forall k :: 0 <= k < InsertPos(e, r) ==>
      Insert(e, r)[k] == r[k] && r[k].count > e.count
    ensures forall k :: InsertPos(e, r) < k <= |r| ==> Insert(e, r)[k] == r[k - 1]
  {
    var p := InsertPos(e, r);
    var s := Insert(e, r);
    forall k | p < k <= |r|
      ensures s[k] == r[k - 1]
    {
      assert s[k] == r[p..][k - 1 - p];
    }
  }

  /** Inserting into a ranking by descending count keeps it ranked. */
  lemma InsertSorted(e: Entry, r: seq<Entry>)
    requires NonIncreasing(r)
    ensures NonIncreasing(Insert(e, r))
  {
    var s, p := Insert(e, r), InsertPos(e, r);
    InsertAt(e, r);
    forall i, j | 0 <= i < j < |s|
      ensures s[i].count >= s[j].count
    {
      if j == p {
        assert s[i] == r[i];
      } else if i == p {
        assert s[j] == r[j - 1] && r[p].count >= r[j - 1].count;
      } else {
        var i' := if i < p then i else i - 1;
        var j' := if j < p then j else j - 1;
        assert s[i] == r[i'] && s[j] == r[j'] && i' < j';
      }
    }
  }

  /**
   * `sorted(items, key=count, reverse=True)`: Python's sort is stable, also
   * with `reverse=True`, so the result is the one permutation of the entries
   * that is ordered by descending count and keeps the input order among equal
   * counts; insertion sort computes that permutation.
   */
  function Rank(items: seq<Entry>): (r: seq<Entry>)
    ensures multiset(r) == multiset(items)
    ensures NonIncreasing(r)
  {
    if items == [] then []
    else
      assert items == [items[0]] + items[1..];
      InsertSorted(items[0], Rank(items[1..]));
      InsertPerm(items[0], Rank(items[1..]));
      Insert(items[0], Rank(items[1..]))
  }

  /** Equal counts appear in the order in which their entries appear in `items`. */
  predicate StableTies(r: seq<Entry>, items: seq<Entry>) {
    forall i, j :: 0 <= i < j < |r| && r[i].count == r[j].count ==>
      IndexOf(items, r[i]) < IndexOf(items, r[j])
  }

  /** Where an entry of `r` other than the inserted one ends up after `Insert`. */
  function Shifted(i: nat, p: nat): nat {
    if i <= p then i else i - 1
  }

  /** Every position of `Insert(e, r)` but InsertPos holds an entry of `r`, in order. */
  lemma InsertOther(e: Entry, r: seq<Entry>, i: nat)
    requires i <= |r| && i != InsertPos(e, r)
    ensures Shifted(i, InsertPos(e, r)) < |r|
    ensures Insert(e, r)[i] == r[Shifted(i, InsertPos(e, r))]
  {
    InsertAt(e, r);
  }

  /** One step of the ranking: the first entry inserted into the ranking of the rest. */
  lemma RankStep(items: seq<Entry>)
    requires items != []
    ensures Rank(items) == Insert(items[0], Rank(items[1..]))
    ensures forall k :: 0 <= k < |Rank(items[1..])| ==> Rank(items[1..])[k] in items[1..]
  {
    var r := Rank(items[1..]);
    forall k | 0 <= k < |r|
      ensures r[k] in items[1..]
    {
      assert r[k] in multiset(items[1..]);
    }
  }

  /**
   * Inserting a new first entry `x` into a stable ranking `r` of `rest`
   * gives a stable ranking of `[x] + rest`: `x` comes first in the input, so
   * it is placed before the entries of equal count.
   */
  lemma InsertStable(x: Entry, rest: seq<Entry>, r: seq<Entry>)
    requires x !in rest && forall k :: 0 <= k < |r| ==> r[k] in rest
    requires StableTies(r, rest)
    ensures StableTies(Insert(x, r), [x] + rest)
  {
    var items := [x] + rest;
    var s := Insert(x, r);
    InsertAt(x, r);
    var p := InsertPos(x, r);
    forall k | 0 <= k < |r|
      ensures IndexOf(items, r[k]) == 1 + IndexOf(rest, r[k])
    {
      assert r[k] != x;
    }
    forall i, j | 0 <= i < j < |s| && s[i].count == s[j].count
      ensures IndexOf(items, s[i]) < IndexOf(items, s[j])
    {
      if i == p {
        assert s[j] == r[j - 1];
      } else if j != p {
        InsertOther(x, r, i);
        InsertOther(x, r, j);
      }
    }
  }

  /** The ranking breaks ties by position in the input. */
  lemma {:induction false} RankStable(items: seq<Entry>)
    requires Distinct(items)
    ensures StableTies(Rank(items), items)
  {
    if items != [] {
      RankStable(items[1..]);
      RankStep(items);
      assert items == [items[0]] + items[1..];
      InsertStable(items[0], items[1..], Rank(items[1..]));
    }
  }

  /** Inserting an entry with a new block keeps the blocks distinct. */
  lemma InsertDistinct(x: Entry, r: seq<Entry>)
    requires DistinctBlocks(r) && forall k :: 0 <= k < |r| ==> r[k].block != x.block
    ensures DistinctBlocks(Insert(x, r))
  {
    var s := Insert(x, r);
    InsertAt(x, r);
    var p := InsertPos(x, r);
    forall i, j | 0 <= i < j < |s|
      ensures s[i].block != s[j].block
    {
      if i == p {
        assert s[j] == r[j - 1];
      } else if j == p {
        assert s[i] == r[i];
      } else {
        InsertOther(x, r, i);
        InsertOther(x, r, j);
      }
    }
  }

  /** A ranking of entries with distinct blocks has distinct blocks. */
  lemma {:induction false} RankDistinct(items: seq<Entry>)
    requires DistinctBlocks(items)
    ensures DistinctBlocks(Rank(items))
  {
    if items != [] {
      var x, rest := items[0], items[1..];
      RankDistinct(rest);
      RankStep(items);
      var r := Rank(rest);
      forall k | 0 <= k < |r|
        ensures r[k].block != x.block
      {
        var m :| 0 <= m < |rest| && rest[m] == r[k];
        assert items[m + 1] == r[k];
      }
      InsertDistinct(x, r);
    }
  }

  /** Every entry of the ranking is a pair of the counter. */
  lemma RankedEntriesFromTable(t: Table)
    requires WellFormed(t)
    ensures forall i :: 0 <= i < |Rank(Items(t))| ==>
      Rank(Items(t))[i].block in t.count && Rank(Items(t))[i].count == t.count[Rank(Items(t))[i].block]
  {
    var items := Items(t);
    var r := Rank(items);
    forall i | 0 <= i < |r|
      ensures r[i].block in t.count && r[i].count == t.count[r[i].block]
    {
      assert r[i] in multiset(items);
      var p :| 0 <= p < |items| && items[p] == r[i];
    }
  }

  /** A key of the counter, and where it is ranked. */
  lemma KeyRanked(t: Table, b: Block) returns (i: nat)
    requires WellFormed(t) && b in t.count
    ensures i < |Rank(Items(t))| && Rank(Items(t))[i].block == b
  {
    var items := Items(t);
    assert b in t.order;
    var p := IndexOf(t.order, b);
    var e := items[p];
    assert e.block == b;
    assert e in multiset(items);
    assert e in multiset(Rank(items));
    i :| 0 <= i < |Rank(items)| && Rank(items)[i] == e;
  }

  /** Some entry of `r` carries block `b`. */
  predicate Ranks(r: seq<Entry>, b: Block) {
    exists i :: 0 <= i < |r| && r[i].block == b
  }

  /** Every key of the counter is ranked. */
  lemma TableKeysRanked(t: Table)
    requires WellFormed(t)
    ensures forall b :: b in t.count ==> Ranks(Rank(Items(t)), b)
  {
    forall b | b in t.count
      ensures Ranks(Rank(Items(t)), b)
    {
      var i := KeyRanked(t, b);
      assert Rank(Items(t))[i].block == b;
    }
  }

  /**
   * `sorted(block_frequencies.items(), key=lambda x: x[1], reverse=True)`:
   * each distinct block of the counter appears exactly once, with its count,
   * by descending count.
   */
  function SortedItems(t: Table): (r: seq<Entry>)
    requires WellFormed(t)
    ensures DistinctBlocks(r) && NonIncreasing(r)
    ensures forall i :: 0 <= i < |r| ==> r[i].block in t.count && r[i].count == t.count[r[i].block]
    ensures forall b :: b in t.count ==> Ranks(r, b)
  {
    ItemsDistinct(t);
    RankDistinct(Items(t));
    RankedEntriesFromTable(t);
    TableKeysRanked(t);
    Rank(Items(t))
  }

  /** The blocks of the ranking are exactly the keys of the counter. */
  lemma SortedItemsKeys(t: Table)
    requires WellFormed(t)
    ensures forall b :: Ranks(SortedItems(t), b) <==> b in t.count
  {
    var r := SortedItems(t);
    forall b | Ranks(r, b)
      ensures b in t.count
    {
      var i :| 0 <= i < |r| && r[i].block == b;
    }
  }

  /**
   * The ranking of the counter built from a block stream: counts are the
   * occurrence counts, and equal counts are ordered by first occurrence of
   * their block in the stream.
   */
  lemma SortedItemsTieBreak(blocks: seq<Block>)
    ensures var r := SortedItems(Tally(blocks));
      forall i :: 0 <= i < |r| ==> r[i].count == multiset(blocks)[r[i].block]
    ensures var r := SortedItems(Tally(blocks));
      forall i, j :: 0 <= i < j < |r| && r[i].count == r[j].count ==>
        IndexOf(blocks, r[i].block) < IndexOf(blocks, r[j].block)
  {
    var t := Tally(blocks);
    var items := Items(t);
    var r := SortedItems(t);
    ItemsDistinct(t);
    RankStable(items);
    TallyFirstSeen(blocks);
    forall i, j | 0 <= i < j < |r| && r[i].count == r[j].count
      ensures IndexOf(blocks, r[i].block) < IndexOf(blocks, r[j].block)
    {
      var p := ItemPosition(t, r[i]);
      var q := ItemPosition(t, r[j]);
    }
  }

  /** An entry of the ranking sits in `items()` at the position of its block in the key order. */
  lemma ItemPosition(t: Table, e: Entry) returns (p: nat)
    requires WellFormed(t) && e in Rank(Items(t))
    ensures p == IndexOf(Items(t), e) && p < |t.order| && t.order[p] == e.block
  {
    assert e in multiset(Rank(Items(t)));
    p := IndexOf(Items(t), e);
  }
}
