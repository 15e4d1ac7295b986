/** The split chains of libc/stdlib/malloc.c and free.c: each region that the heap has got from the
    system is tiled by tagged blocks, linked in both directions. Tags are kept in a map from their
    addresses; which of them are current is told by the chains.
 */
module SplitChains {
  import opened BitStream

  const TAG_SIZE: nat := 32               // sizeof(tag_t)
  const FRAME_SIZE: nat := 4096
  const MEMORY_MIN_EXP: nat := 8
  const MEMORY_MIN_FRAMES: nat := 4
  const NULL: nat := 0

  /** tag_t without its magic number and the links of the free lists. */
  datatype Tag = Tag(size: nat, realsize: nat, index: int, splitprev: nat, splitnext: nat)

  /** A run of frames, and the addresses of its tags in order. */
  datatype Region = Region(size: nat, chain: seq<nat>)

  type Memory = map<nat, Tag>
  type Regions = map<nat, Region>

  // ---------------------------------------------------------------------------- classes

  function Log2(n: nat): nat {
    if n < 2 then 0 else 1 + Log2(n / 2)
  }

  lemma {:induction false} Log2Grows(m: nat, n: nat)
    requires m <= n
    ensures Log2(m) <= Log2(n)
  {
    if m >= 2 {
      Log2Grows(m / 2, n / 2);
    }
  }

  lemma Log2Of256()
    ensures Log2(256) == 8
  {
    assert Log2(8) == 3 && Log2(128) == 7;
  }

  /** The class of a number of bytes: the exponent of its highest bit, from 2^8 on. */
  function IndexOf(num: nat): (i: nat) {
    Log2Of256();
    if num <= 256 then 0 else (Log2Grows(256, num); Log2(num) - MEMORY_MIN_EXP)
  }

  lemma {:induction false} Log2Bounds(n: nat)
    requires n > 0
    ensures Pow2(Log2(n)) <= n < Pow2(Log2(n) + 1)
  {
    if n >= 2 {
      Log2Bounds(n / 2);
    }
  }

  /** Class 0 is for up to 511 bytes, and class i for 2^(i + 8) bytes up to twice as many. */
  predicate InClass(index: int, num: nat) {
    index >= 0 && if num <= 256 then index == 0 else Pow2(index + 8) <= num < Pow2(index + 9)
  }

  lemma ClassBounds(num: nat)
    ensures InClass(IndexOf(num), num)
  {
    if num > 256 {
      Log2Of256();
      Log2Grows(256, num);
      Log2Bounds(num);
    }
  }

  /** No block that is large enough is in a lower class: the search may begin at the class of the
      size. */
  lemma LargerIndex(size: nat, num: nat)
    requires size <= num
    ensures IndexOf(size) <= IndexOf(num)
  {
    if size > 256 {
      Log2Grows(size, num);
    }
  }

  // ----------------------------------------------------------------------------- tiling

  ghost predicate IsFree(tags: Memory, a: nat) {
    a in tags && tags[a].index >= 0
  }

  ghost predicate InUse(tags: Memory, a: nat) {
    a in tags && tags[a].index < 0
  }

  /** Where block i of the chain ends, and which tags lie before and after it. */
  function End(r: nat, g: Region, i: nat): nat {
    if i + 1 < |g.chain| then g.chain[i + 1] else r + g.size
  }

  function Before(g: Region, i: nat): nat {
    if 0 < i <= |g.chain| then g.chain[i - 1] else NULL
  }

  function Following(g: Region, i: nat): nat {
    if i + 1 < |g.chain| then g.chain[i + 1] else NULL
  }

  /** Block i reaches exactly to the next one, and is linked to both its neighbours. */
  ghost predicate Fitting(tags: Memory, r: nat, g: Region, i: nat) {
    i < |g.chain| ==>
      var a := g.chain[i];
      a in tags && tags[a].realsize > TAG_SIZE && a + tags[a].realsize == End(r, g, i) &&
      tags[a].splitprev == Before(g, i) && tags[a].splitnext == Following(g, i)
  }

  ghost predicate Tiled(tags: Memory, r: nat, g: Region) {
    r > 0 && |g.chain| > 0 && g.chain[0] == r && g.size >= MEMORY_MIN_FRAMES * FRAME_SIZE && g.size % FRAME_SIZE == 0 &&
    forall i: nat :: Fitting(tags, r, g, i)
  }

  /** A block in use has room for what was asked for and its tag, a free one is in its class. */
  ghost predicate Settled(tags: Memory, a: nat) {
    a in tags && tags[a].realsize > TAG_SIZE &&
    if tags[a].index < 0 then tags[a].size > 0 && tags[a].size + TAG_SIZE <= tags[a].realsize
    else tags[a].index == IndexOf(tags[a].realsize - TAG_SIZE)
  }

  /** Block i is settled, and not free next to a free one; unless it is the block x. */
  ghost predicate Proper(tags: Memory, g: Region, i: nat, x: nat) {
    i < |g.chain| && g.chain[i] != x ==>
      Settled(tags, g.chain[i]) &&
      (i + 1 < |g.chain| && g.chain[i + 1] != x ==> !(IsFree(tags, g.chain[i]) && IsFree(tags, g.chain[i + 1])))
  }

  ghost predicate Orderly(tags: Memory, r: nat, g: Region, x: nat) {
    Tiled(tags, r, g) && forall i: nat :: Proper(tags, g, i, x)
  }

  /** Block i of region r is at a. */
  ghost predicate At(regions: Regions, r: nat, i: nat, a: nat) {
    r in regions && i < |regions[r].chain| && regions[r].chain[i] == a
  }

  ghost predicate Apart(regions: Regions) {
    forall r, q | r in regions && q in regions && r != q :: r + regions[r].size <= q || q + regions[q].size <= r
  }

  /** All regions are orderly and disjoint; in region y the block x is just being changed. */
  ghost predicate HeapBut(tags: Memory, regions: Regions, y: nat, x: nat) {
    Apart(regions) && forall r | r in regions :: Orderly(tags, r, regions[r], if r == y then x else NULL)
  }

  ghost predicate Heap(tags: Memory, regions: Regions) {
    HeapBut(tags, regions, NULL, NULL)
  }

  // --------------------------------------------------------------------------- geometry

  lemma {:induction false} ChainOrder(tags: Memory, r: nat, g: Region, i: nat, j: nat)
    requires Tiled(tags, r, g) && i <= j < |g.chain|
    ensures r <= g.chain[i] <= g.chain[j] < r + g.size
    ensures i < j ==> End(r, g, i) <= g.chain[j]
    ensures End(r, g, j) <= r + g.size
    decreases j
  {
    assert Fitting(tags, r, g, i) && Fitting(tags, r, g, j);
    if i < j {
      ChainOrder(tags, r, g, i, j - 1);
      assert Fitting(tags, r, g, j - 1);
      ChainEnd(tags, r, g, j);
    } else {
      ChainStart(tags, r, g, i);
      ChainEnd(tags, r, g, j);
    }
  }

  lemma {:induction false} ChainStart(tags: Memory, r: nat, g: Region, i: nat)
    requires Tiled(tags, r, g) && i < |g.chain|
    ensures r <= g.chain[i]
  {
    if i > 0 {
      ChainStart(tags, r, g, i - 1);
      assert Fitting(tags, r, g, i - 1);
    }
  }

  lemma {:induction false} ChainEnd(tags: Memory, r: nat, g: Region, i: nat)
    requires Tiled(tags, r, g) && i < |g.chain|
    ensures g.chain[i] < End(r, g, i) <= r + g.size
    decreases |g.chain| - i
  {
    assert Fitting(tags, r, g, i);
    if i + 1 < |g.chain| {
      ChainEnd(tags, r, g, i + 1);
    }
  }

  lemma Distinct(tags: Memory, r: nat, g: Region, i: nat, j: nat)
    requires Tiled(tags, r, g) && i < |g.chain| && j < |g.chain| && i != j
    ensures g.chain[i] != g.chain[j]
  {
    assert Fitting(tags, r, g, i) && Fitting(tags, r, g, j);
    if i < j { ChainOrder(tags, r, g, i, j); } else { ChainOrder(tags, r, g, j, i); }
  }

  /** No address is in two places. */
  lemma OnePlace(tags: Memory, regions: Regions, y: nat, x: nat, r: nat, i: nat, q: nat, j: nat, a: nat)
    requires HeapBut(tags, regions, y, x) && At(regions, r, i, a) && At(regions, q, j, a)
    ensures r == q && i == j
  {
    assert Orderly(tags, r, regions[r], if r == y then x else NULL) && Orderly(tags, q, regions[q], if q == y then x else NULL);
    ChainOrder(tags, r, regions[r], i, i);
    ChainOrder(tags, q, regions[q], j, j);
    if r == q && i != j {
      Distinct(tags, r, regions[r], i, j);
    }
  }

  /** Blocks do not overlap: in particular what is handed out for one allocation is neither inside
      another one nor over any tag. */
  lemma BlocksApart(tags: Memory, regions: Regions, r: nat, i: nat, a: nat, q: nat, j: nat, b: nat)
    requires Heap(tags, regions) && At(regions, r, i, a) && At(regions, q, j, b) && a != b
    ensures a in tags && b in tags
    ensures a + tags[a].realsize <= b || b + tags[b].realsize <= a
    ensures InUse(tags, a) ==> a + TAG_SIZE + tags[a].size <= a + tags[a].realsize
  {
    var g, h := regions[r], regions[q];
    assert Orderly(tags, r, g, NULL) && Orderly(tags, q, h, NULL);
    assert Fitting(tags, r, g, i) && Fitting(tags, q, h, j) && Proper(tags, g, i, NULL);
    ChainOrder(tags, r, g, i, i);
    ChainOrder(tags, q, h, j, j);
    if r == q {
      if i < j { ChainOrder(tags, r, g, i, j); }
      if j < i { ChainOrder(tags, r, g, j, i); }
    }
  }

  /** A free block is in the class of the bytes that it has for a caller. */
  lemma FreeInClass(tags: Memory, regions: Regions, r: nat, i: nat, a: nat)
    requires Heap(tags, regions) && At(regions, r, i, a) && IsFree(tags, a)
    ensures tags[a].realsize > TAG_SIZE && InClass(tags[a].index, tags[a].realsize - TAG_SIZE)
  {
    assert Orderly(tags, r, regions[r], NULL);
    assert Fitting(tags, r, regions[r], i) && Proper(tags, regions[r], i, NULL);
    ChainOrder(tags, r, regions[r], i, i);
    ClassBounds(tags[a].realsize - TAG_SIZE);
  }

  function SumSizes(tags: Memory, chain: seq<nat>): nat {
    if chain == [] then 0 else (if chain[0] in tags then tags[chain[0]].realsize else 0) + SumSizes(tags, chain[1..])
  }

  /** The blocks of a region add up to the region. */
  lemma {:induction false} SizesAddUp(tags: Memory, r: nat, g: Region, i: nat)
    requires Tiled(tags, r, g) && i < |g.chain|
    ensures SumSizes(tags, g.chain[i..]) == r + g.size - g.chain[i]
    ensures i == 0 ==> SumSizes(tags, g.chain) == g.size
    decreases |g.chain| - i
  {
    assert Fitting(tags, r, g, i);
    assert g.chain[i..][1..] == g.chain[i + 1..];
    if i + 1 < |g.chain| {
      SizesAddUp(tags, r, g, i + 1);
    }
    assert g.chain[0..] == g.chain;
  }

  // -------------------------------------------------------------------- changing a region

  /** Tags outside region r are as before. */
  ghost predicate SameElsewhere(tags: Memory, tags': Memory, r: nat, size: nat) {
    forall a | a in tags && !(r <= a < r + size) :: a in tags' && tags'[a] == tags[a]
  }

  lemma OtherRegion(tags: Memory, tags': Memory, r: nat, size: nat, q: nat, g: Region, x: nat)
    requires Orderly(tags, q, g, x) && SameElsewhere(tags, tags', r, size) && (r + size <= q || q + g.size <= r)
    ensures Orderly(tags', q, g, x)
  {
    forall i: nat ensures i < |g.chain| ==> g.chain[i] in tags && g.chain[i] in tags' && tags'[g.chain[i]] == tags[g.chain[i]] {
      if i < |g.chain| {
        ChainOrder(tags, q, g, i, i);
        assert Fitting(tags, q, g, i);
      }
    }
    forall i: nat ensures Fitting(tags', q, g, i) && Proper(tags', g, i, x) {
      assert Fitting(tags, q, g, i) && Proper(tags, g, i, x);
    }
  }

  /** One region has got another chain. */
  lemma RegionChanged(tags: Memory, tags': Memory, regions: Regions, y: nat, x: nat, x': nat, g': Region)
    requires HeapBut(tags, regions, y, x) && y in regions && g'.size == regions[y].size
    requires SameElsewhere(tags, tags', y, g'.size) && Orderly(tags', y, g', x')
    ensures HeapBut(tags', regions[y := g'], y, x')
  {
    var regions' := regions[y := g'];
    hide Orderly, SameElsewhere;
    forall r | r in regions' ensures Orderly(tags', r, regions'[r], if r == y then x' else NULL) {
      if r != y {
        OtherRegion(tags, tags', y, g'.size, r, regions[r], NULL);
      }
    }
  }

  /** When the block is finished the heap is whole again. */
  lemma Finished(tags: Memory, regions: Regions, y: nat)
    requires HeapBut(tags, regions, y, NULL)
    ensures Heap(tags, regions)
  {
  }

  /** A new region of one block. */
  lemma RegionAdded(tags: Memory, regions: Regions, r: nat, size: nat, t: Tag)
    requires Heap(tags, regions) && r > 0 && size >= MEMORY_MIN_FRAMES * FRAME_SIZE && size % FRAME_SIZE == 0
    requires forall q | q in regions :: r + size <= q || q + regions[q].size <= r
    requires t.realsize == size && t.splitprev == NULL && t.splitnext == NULL
    ensures HeapBut(tags[r := t], regions[r := Region(size, [r])], r, r)
  {
    var tags', regions' := tags[r := t], regions[r := Region(size, [r])];
    var g := Region(size, [r]);
    assert forall i: nat :: Fitting(tags', r, g, i) && Proper(tags', g, i, r);
    hide Fitting, Proper;
    forall q | q in regions' ensures Orderly(tags', q, regions'[q], if q == r then r else NULL) {
      if q != r {
        assert Orderly(tags, q, regions[q], NULL);
        OtherRegion(tags, tags', r, size, q, regions[q], NULL);
      }
    }
  }

  lemma RegionRemoved(tags: Memory, regions: Regions, y: nat, x: nat)
    requires HeapBut(tags, regions, y, x)
    ensures Heap(tags, regions - {y})
  {
  }

  // ------------------------------------------------------------------------- marking a block

  /** The tag of block i gets a new size and index; the block is what is being changed. */
  lemma Marked(tags: Memory, regions: Regions, y: nat, x: nat, i: nat, a: nat, t: Tag)
    requires HeapBut(tags, regions, y, x) && At(regions, y, i, a) && (x == NULL || x == a)
    requires a in tags && t.realsize == tags[a].realsize && t.splitprev == tags[a].splitprev && t.splitnext == tags[a].splitnext
    ensures HeapBut(tags[a := t], regions, y, a)
  {
    var tags', g := tags[a := t], regions[y];
    assert Orderly(tags, y, g, x);
    ChainOrder(tags, y, g, i, i);
    forall j: nat ensures Fitting(tags', y, g, j) && Proper(tags', g, j, a) {
      assert Fitting(tags, y, g, j) && Proper(tags, g, j, x);
      if j < |g.chain| {
        ChainOrder(tags, y, g, j, j);
      }
    }
    RegionChanged(tags, tags', regions, y, x, a, g);
    assert regions[y := g] == regions;
  }

  /** Block i has been put in order. */
  lemma Settling(tags: Memory, regions: Regions, y: nat, i: nat, a: nat)
    requires HeapBut(tags, regions, y, a) && At(regions, y, i, a) && Settled(tags, a)
    requires IsFree(tags, a) ==> !IsFree(tags, Before(regions[y], i)) && !IsFree(tags, Following(regions[y], i))
    ensures HeapBut(tags, regions, y, NULL)
  {
    var g := regions[y];
    assert Orderly(tags, y, g, a);
    forall j: nat ensures Proper(tags, g, j, NULL) {
      assert Proper(tags, g, j, a) && Fitting(tags, y, g, j);
      if j < |g.chain| && g.chain[j] == a {
        OnePlace(tags, regions, y, a, y, i, y, j, a);
      }
      if j + 1 < |g.chain| && g.chain[j + 1] == a {
        OnePlace(tags, regions, y, a, y, i, y, j + 1, a);
      }
    }
    forall r | r in regions ensures Orderly(tags, r, regions[r], NULL) {
    }
  }

  // --------------------------------------------------------------------------- splitting

  /** Block i, at a, is cut at b; the second half has the tag t. */
  function SplitTags(tags: Memory, a: nat, b: nat, t: Tag): Memory
    requires a in tags && a <= b
  {
    var t1 := tags[a].(realsize := b - a, splitnext := b);
    var m := tags[a := t1][b := t];
    if t.splitnext != NULL && t.splitnext in m then m[t.splitnext := m[t.splitnext].(splitprev := b)] else m
  }

  function SplitRegion(g: Region, i: nat, b: nat): Region
    requires i < |g.chain|
  {
    g.(chain := g.chain[..i + 1] + [b] + g.chain[i + 1..])
  }

  lemma SplitWords(tags: Memory, r: nat, g: Region, i: nat, b: nat, t: Tag)
    requires Tiled(tags, r, g) && i < |g.chain| && g.chain[i] in tags && g.chain[i] + TAG_SIZE < b && b + TAG_SIZE < End(r, g, i)
    requires t.splitnext == tags[g.chain[i]].splitnext
    ensures var a, m := g.chain[i], SplitTags(tags, g.chain[i], b, t);
            a in m && m[a] == tags[a].(realsize := b - a, splitnext := b) && b in m && m[b] == t &&
            (forall j: nat | j < |g.chain| && j != i ::
               g.chain[j] in tags && g.chain[j] in m && g.chain[j] != b &&
               m[g.chain[j]] == if j == i + 1 then tags[g.chain[j]].(splitprev := b) else tags[g.chain[j]]) &&
            SameElsewhere(tags, m, r, g.size)
  {
    var a, m := g.chain[i], SplitTags(tags, g.chain[i], b, t);
    assert Fitting(tags, r, g, i);
    ChainOrder(tags, r, g, i, i);
    if i + 1 < |g.chain| { ChainOrder(tags, r, g, i + 1, i + 1); }
    forall j: nat | j < |g.chain| && j != i
      ensures g.chain[j] in tags && g.chain[j] != b && g.chain[j] != a && (j != i + 1 && i + 1 < |g.chain| ==> g.chain[j] != g.chain[i + 1])
    {
      assert Fitting(tags, r, g, j);
      Distinct(tags, r, g, i, j);
      if i + 1 < |g.chain| && j != i + 1 { Distinct(tags, r, g, i + 1, j); }
      if j < i { ChainOrder(tags, r, g, j, i); } else { ChainOrder(tags, r, g, i, j); }
    }
    if i + 1 < |g.chain| { assert Fitting(tags, r, g, i + 1); }
  }

  lemma SplitTiles(tags: Memory, r: nat, g: Region, i: nat, b: nat, t: Tag)
    requires Tiled(tags, r, g) && i < |g.chain| && g.chain[i] in tags && g.chain[i] + TAG_SIZE < b && b + TAG_SIZE < End(r, g, i)
    requires t.splitprev == g.chain[i] && t.splitnext == tags[g.chain[i]].splitnext && b + t.realsize == End(r, g, i)
    ensures Tiled(SplitTags(tags, g.chain[i], b, t), r, SplitRegion(g, i, b))
  {
    SplitWords(tags, r, g, i, b, t);
    var m, h := SplitTags(tags, g.chain[i], b, t), SplitRegion(g, i, b);
    hide SplitTags;
    forall j: nat ensures Fitting(m, r, h, j) {
      assert Fitting(tags, r, g, i);
      if j <= i {
        assert Fitting(tags, r, g, j);
      } else if i + 1 < j < |h.chain| {
        assert h.chain[j] == g.chain[j - 1];
        assert Fitting(tags, r, g, j - 1);
      }
    }
  }

  /** The first part is what is being changed; the second one is free, and the block after it is not. */
  lemma SplitOrderly(tags: Memory, r: nat, g: Region, i: nat, b: nat, t: Tag)
    requires i < |g.chain| && Orderly(tags, r, g, g.chain[i]) && g.chain[i] in tags
    requires g.chain[i] + TAG_SIZE < b && b + TAG_SIZE < End(r, g, i)
    requires t.splitprev == g.chain[i] && t.splitnext == tags[g.chain[i]].splitnext && b + t.realsize == End(r, g, i)
    requires t.index == IndexOf(t.realsize - TAG_SIZE) && !IsFree(tags, Following(g, i))
    ensures Orderly(SplitTags(tags, g.chain[i], b, t), r, SplitRegion(g, i, b), g.chain[i])
  {
    SplitWords(tags, r, g, i, b, t);
    SplitTiles(tags, r, g, i, b, t);
    var m, h := SplitTags(tags, g.chain[i], b, t), SplitRegion(g, i, b);
    hide SplitTags, Tiled, IndexOf;
    forall j: nat ensures Proper(m, h, j, g.chain[i]) {
      if j < i {
        assert Proper(tags, g, j, g.chain[i]);
      } else if i + 1 < j < |h.chain| {
        assert h.chain[j] == g.chain[j - 1];
        assert Proper(tags, g, j - 1, g.chain[i]);
      }
    }
  }

  // ----------------------------------------------------------------------------- merging

  /** Block i, at a, takes in the block after it, at b. */
  function MergeTags(tags: Memory, a: nat, b: nat): Memory
    requires a in tags && b in tags
  {
    var m := tags[a := tags[a].(realsize := tags[a].realsize + tags[b].realsize, splitnext := tags[b].splitnext)];
    var n := if tags[b].splitnext != NULL && tags[b].splitnext in m
             then m[tags[b].splitnext := m[tags[b].splitnext].(splitprev := a)] else m;
    n[b := n[b].(index := -1)]
  }

  function MergeRegion(g: Region, i: nat): Region
    requires i + 1 < |g.chain|
  {
    g.(chain := g.chain[..i + 1] + g.chain[i + 2..])
  }

  lemma MergeWords(tags: Memory, r: nat, g: Region, i: nat)
    requires Tiled(tags, r, g) && i + 1 < |g.chain|
    ensures g.chain[i] in tags && g.chain[i + 1] in tags
    ensures var a, b := g.chain[i], g.chain[i + 1];
            var m := MergeTags(tags, a, b);
            a in m && m[a] == tags[a].(realsize := tags[a].realsize + tags[b].realsize, splitnext := tags[b].splitnext) &&
            (forall j: nat | j < |g.chain| && j != i && j != i + 1 ::
               g.chain[j] in tags && g.chain[j] in m &&
               m[g.chain[j]] == if j == i + 2 then tags[g.chain[j]].(splitprev := a) else tags[g.chain[j]]) &&
            SameElsewhere(tags, m, r, g.size)
  {
    assert Fitting(tags, r, g, i) && Fitting(tags, r, g, i + 1);
    ChainOrder(tags, r, g, i, i + 1);
    Distinct(tags, r, g, i, i + 1);
    if i + 2 < |g.chain| {
      assert Fitting(tags, r, g, i + 2);
      ChainOrder(tags, r, g, i + 2, i + 2);
      Distinct(tags, r, g, i, i + 2);
      Distinct(tags, r, g, i + 1, i + 2);
    }
    forall j: nat | j < |g.chain| && j != i && j != i + 1
      ensures g.chain[j] in tags && g.chain[j] != g.chain[i] && g.chain[j] != g.chain[i + 1]
      ensures i + 2 < |g.chain| && j != i + 2 ==> g.chain[j] != g.chain[i + 2]
    {
      assert Fitting(tags, r, g, j);
      Distinct(tags, r, g, i, j);
      Distinct(tags, r, g, i + 1, j);
      if i + 2 < |g.chain| && j != i + 2 { Distinct(tags, r, g, i + 2, j); }
    }
  }

  lemma MergeTiles(tags: Memory, r: nat, g: Region, i: nat)
    requires Tiled(tags, r, g) && i + 1 < |g.chain| && g.chain[i] in tags && g.chain[i + 1] in tags
    ensures Tiled(MergeTags(tags, g.chain[i], g.chain[i + 1]), r, MergeRegion(g, i))
  {
    MergeWords(tags, r, g, i);
    var m, h := MergeTags(tags, g.chain[i], g.chain[i + 1]), MergeRegion(g, i);
    hide MergeTags;
    assert Fitting(tags, r, g, i) && Fitting(tags, r, g, i + 1);
    forall j: nat ensures Fitting(m, r, h, j) {
      if j < i {
        assert Fitting(tags, r, g, j);
      } else if i < j < |h.chain| {
        assert h.chain[j] == g.chain[j + 1];
        assert Fitting(tags, r, g, j + 1);
      }
    }
  }

  /** One of the two is what was being changed; the sum is what is being changed now. */
  lemma MergeOrderly(tags: Memory, r: nat, g: Region, i: nat, x: nat)
    requires Orderly(tags, r, g, x) && i + 1 < |g.chain| && g.chain[i] in tags && g.chain[i + 1] in tags
    requires x == g.chain[i] || x == g.chain[i + 1]
    ensures Orderly(MergeTags(tags, g.chain[i], g.chain[i + 1]), r, MergeRegion(g, i), g.chain[i])
  {
    MergeWords(tags, r, g, i);
    MergeTiles(tags, r, g, i);
    var m, h := MergeTags(tags, g.chain[i], g.chain[i + 1]), MergeRegion(g, i);
    forall j: nat | j < |g.chain| && j != i && j != i + 1 ensures g.chain[j] != x {
      if x == g.chain[i] { Distinct(tags, r, g, i, j); } else { Distinct(tags, r, g, i + 1, j); }
    }
    hide MergeTags, Tiled, IndexOf;
    forall j: nat ensures Proper(m, h, j, g.chain[i]) {
      if j < i {
        assert h.chain[j] == g.chain[j];
        assert Proper(tags, g, j, x);
      } else if i < j < |h.chain| {
        assert h.chain[j] == g.chain[j + 1];
        assert Proper(tags, g, j + 1, x);
      }
    }
  }
}
