/** malloc and free of libc/stdlib, on the split chains. The search in the free lists is represented
    by its result, and the decision to give a whole free region back by a parameter.
 */
module HeapAllocator {
  import opened BitStream
  import opened SplitChains

  // ------------------------------------------------------------------------ what is in use

  ghost predicate Current(regions: Regions, a: nat) {
    exists r, i: nat :: At(regions, r, i, a)
  }

  /** Block a belongs to a caller. */
  ghost predicate Used(tags: Memory, regions: Regions, a: nat) {
    Current(regions, a) && InUse(tags, a)
  }

  /** All callers but that of x keep their blocks. */
  ghost predicate KeepsUse(tags: Memory, regions: Regions, tags': Memory, regions': Regions, x: nat) {
    forall a: nat | a != x ::
      (Used(tags', regions', a) <==> Used(tags, regions, a)) &&
      (Used(tags, regions, a) ==> tags'[a].size == tags[a].size && tags'[a].realsize == tags[a].realsize)
  }

  ghost predicate SameSizes(regions: Regions, regions': Regions) {
    forall q | q in regions :: q in regions' && regions'[q].size == regions[q].size
  }

  lemma KeepsTrans(t0: Memory, r0: Regions, t1: Memory, r1: Regions, t2: Memory, r2: Regions, x: nat)
    requires KeepsUse(t0, r0, t1, r1, x) && KeepsUse(t1, r1, t2, r2, x)
    ensures KeepsUse(t0, r0, t2, r2, x)
  {
    hide Used;
  }

  lemma CurrentIs(regions: Regions, r: nat, i: nat, a: nat)
    requires At(regions, r, i, a)
    ensures Current(regions, a)
  {
  }

  /** Which addresses are current after a region has got another chain. */
  lemma CurrentChanged(regions: Regions, y: nat, g': Region, a: nat)
    requires y in regions
    ensures Current(regions[y := g'], a) <==> (exists i: nat :: i < |g'.chain| && g'.chain[i] == a) || Current(regions - {y}, a)
  {
    var regions' := regions[y := g'];
    if i: nat :| i < |g'.chain| && g'.chain[i] == a {
      assert At(regions', y, i, a);
    }
    if r, i: nat :| At(regions - {y}, r, i, a) {
      assert At(regions', r, i, a);
    }
    if r, i: nat :| At(regions', r, i, a) {
      if r != y {
        assert At(regions - {y}, r, i, a);
      }
    }
  }

  lemma CurrentParts(regions: Regions, y: nat, a: nat)
    requires y in regions
    ensures Current(regions, a) <==> (exists i: nat :: i < |regions[y].chain| && regions[y].chain[i] == a) || Current(regions - {y}, a)
  {
    CurrentChanged(regions, y, regions[y], a);
    assert regions[y := regions[y]] == regions;
  }

  lemma CurrentSplit(regions: Regions, y: nat, i: nat, b: nat, a: nat)
    requires y in regions && i < |regions[y].chain|
    ensures Current(regions[y := SplitRegion(regions[y], i, b)], a) <==> Current(regions, a) || a == b
  {
    var g, h := regions[y], SplitRegion(regions[y], i, b);
    CurrentParts(regions, y, a);
    CurrentChanged(regions, y, h, a);
    hide Current;
    assert h.chain[i + 1] == b;
    if j: nat :| j < |g.chain| && g.chain[j] == a {
      assert h.chain[if j <= i then j else j + 1] == a;
    }
  }

  lemma CurrentMerged(tags: Memory, regions: Regions, y: nat, x: nat, i: nat, a: nat)
    requires HeapBut(tags, regions, y, x) && y in regions && i + 1 < |regions[y].chain|
    ensures Current(regions[y := MergeRegion(regions[y], i)], a) <==> Current(regions, a) && a != regions[y].chain[i + 1]
  {
    var g, h := regions[y], MergeRegion(regions[y], i);
    CurrentParts(regions, y, a);
    CurrentChanged(regions, y, h, a);
    if a == g.chain[i + 1] {
      NotElsewhere(tags, regions, y, x, i + 1, a);
    } else {
      hide Current;
      if j: nat :| j < |g.chain| && g.chain[j] == a {
        assert h.chain[if j <= i then j else j - 1] == a;
      }
    }
  }

  lemma NotElsewhere(tags: Memory, regions: Regions, y: nat, x: nat, i: nat, a: nat)
    requires HeapBut(tags, regions, y, x) && At(regions, y, i, a)
    ensures !Current(regions - {y}, a)
    ensures i > 0 ==> a !in MergeRegion(regions[y], i - 1).chain
  {
    assert Orderly(tags, y, regions[y], x);
    forall r, j: nat ensures !At(regions - {y}, r, j, a) {
      if At(regions - {y}, r, j, a) {
        assert At(regions, r, j, a);
        OnePlace(tags, regions, y, x, y, i, r, j, a);
      }
    }
    if i > 0 {
      var h := MergeRegion(regions[y], i - 1);
      forall j: nat | j < |h.chain| ensures h.chain[j] != a {
        Distinct(tags, y, regions[y], i, if j < i then j else j + 1);
      }
    }
  }

  // ------------------------------------------------------------------ steps keep other blocks

  lemma MarkKeeps(tags: Memory, regions: Regions, x: nat, t: Tag)
    ensures KeepsUse(tags, regions, tags[x := t], regions, x)
  {
    hide Current;
  }

  lemma SplitKeeps(tags: Memory, regions: Regions, y: nat, x: nat, i: nat, b: nat, t: Tag)
    requires HeapBut(tags, regions, y, x) && At(regions, y, i, x) && x in tags && t.index >= 0
    requires x + TAG_SIZE < b && b + TAG_SIZE < End(y, regions[y], i) && t.splitnext == tags[x].splitnext
    ensures KeepsUse(tags, regions, SplitTags(tags, x, b, t), regions[y := SplitRegion(regions[y], i, b)], x)
  {
    var g := regions[y];
    var m, regions' := SplitTags(tags, x, b, t), regions[y := SplitRegion(g, i, b)];
    assert Orderly(tags, y, g, x);
    SplitWords(tags, y, g, i, b, t);
    forall a: nat | a != x
      ensures Used(m, regions', a) <==> Used(tags, regions, a)
      ensures Used(tags, regions, a) ==> m[a].size == tags[a].size && m[a].realsize == tags[a].realsize
    {
      CurrentSplit(regions, y, i, b, a);
      if Current(regions, a) {
        SplitLeaves(tags, regions, y, x, i, b, t, a);
      }
    }
  }

  lemma SplitLeaves(tags: Memory, regions: Regions, y: nat, x: nat, i: nat, b: nat, t: Tag, a: nat)
    requires HeapBut(tags, regions, y, x) && At(regions, y, i, x) && x in tags && Current(regions, a) && a != x
    requires x + TAG_SIZE < b && b + TAG_SIZE < End(y, regions[y], i) && t.splitnext == tags[x].splitnext
    ensures a != b && a in tags
    ensures var m := SplitTags(tags, x, b, t); a in m && m[a] == tags[a].(splitprev := m[a].splitprev)
  {
    var g := regions[y];
    assert Orderly(tags, y, g, x);
    SplitWords(tags, y, g, i, b, t);
    var r, j: nat :| At(regions, r, j, a);
    assert Orderly(tags, r, regions[r], if r == y then x else NULL);
    assert Fitting(tags, r, regions[r], j);
    hide SplitTags;
    if r != y {
      ChainOrder(tags, r, regions[r], j, j);
      ChainOrder(tags, y, g, i, i);
    }
  }

  lemma MergeKeeps(tags: Memory, regions: Regions, y: nat, x: nat, i: nat, t: nat)
    requires HeapBut(tags, regions, y, x) && y in regions && i + 1 < |regions[y].chain|
    requires Mergeable(tags, t, regions[y].chain[i]) && Mergeable(tags, t, regions[y].chain[i + 1])
    ensures regions[y].chain[i] in tags && regions[y].chain[i + 1] in tags
    ensures KeepsUse(tags, regions, MergeTags(tags, regions[y].chain[i], regions[y].chain[i + 1]), regions[y := MergeRegion(regions[y], i)], t)
  {
    var g := regions[y];
    assert Orderly(tags, y, g, x);
    MergeWords(tags, y, g, i);
    var m, regions' := MergeTags(tags, g.chain[i], g.chain[i + 1]), regions[y := MergeRegion(g, i)];
    forall a: nat | a != t
      ensures Used(m, regions', a) <==> Used(tags, regions, a)
      ensures Used(tags, regions, a) ==> m[a].size == tags[a].size && m[a].realsize == tags[a].realsize
    {
      CurrentMerged(tags, regions, y, x, i, a);
      if Current(regions, a) && a != g.chain[i] && a != g.chain[i + 1] {
        MergeLeaves(tags, regions, y, x, i, a);
      }
    }
  }

  lemma MergeLeaves(tags: Memory, regions: Regions, y: nat, x: nat, i: nat, a: nat)
    requires HeapBut(tags, regions, y, x) && y in regions && i + 1 < |regions[y].chain| && Current(regions, a)
    requires a != regions[y].chain[i] && a != regions[y].chain[i + 1] && regions[y].chain[i] in tags && regions[y].chain[i + 1] in tags
    ensures a in tags
    ensures var m := MergeTags(tags, regions[y].chain[i], regions[y].chain[i + 1]); a in m && m[a] == tags[a].(splitprev := m[a].splitprev)
  {
    var g := regions[y];
    assert Orderly(tags, y, g, x);
    MergeWords(tags, y, g, i);
    var r, j: nat :| At(regions, r, j, a);
    assert Orderly(tags, r, regions[r], if r == y then x else NULL);
    assert Fitting(tags, r, regions[r], j);
    hide MergeTags;
    if r != y {
      ChainOrder(tags, r, regions[r], j, j);
      ChainOrder(tags, y, g, i, i);
    }
  }

  lemma AddKeeps(tags: Memory, regions: Regions, r: nat, size: nat, t: Tag)
    requires Heap(tags, regions) && r !in regions && size > 0
    requires forall q | q in regions :: r + size <= q || q + regions[q].size <= r
    ensures KeepsUse(tags, regions, tags[r := t], regions[r := Region(size, [r])], r)
    ensures !Current(regions, r)
  {
    var regions' := regions[r := Region(size, [r])];
    forall a: nat ensures Current(regions', a) <==> Current(regions, a) || a == r {
      if a == r { assert At(regions', r, 0, r); }
      if q, i: nat :| At(regions, q, i, a) { assert At(regions', q, i, a); }
      if q, i: nat :| At(regions', q, i, a) {
        if q != r { assert At(regions, q, i, a); }
      }
    }
    forall q, i: nat ensures !At(regions, q, i, r) {
      if At(regions, q, i, r) {
        assert Orderly(tags, q, regions[q], NULL);
        ChainOrder(tags, q, regions[q], i, i);
      }
    }
  }

  lemma RemoveKeeps(tags: Memory, regions: Regions, y: nat, x: nat)
    requires y in regions && regions[y].chain == [x] && HeapBut(tags, regions, y, x)
    ensures KeepsUse(tags, regions, tags, regions - {y}, x) && !Current(regions - {y}, x)
  {
    assert At(regions, y, 0, x);
    NotElsewhere(tags, regions, y, x, 0, x);
    forall a: nat | a != x ensures Current(regions - {y}, a) <==> Current(regions, a) {
      CurrentParts(regions, y, a);
    }
    hide Current;
  }

  // ------------------------------------------------------------------------------- methods

  /** getIndex. */
  method GetIndex(num0: nat) returns (index: int)
    ensures index == IndexOf(num0) >= 0
    ensures InClass(index, num0)
  {
    ClassBounds(num0);
    Log2Of256();
    if num0 <= 256 {
      return 0;
    }
    Log2Grows(256, num0);
    var num: nat, exp: nat := num0 / 2, 0;
    while num != 0
      invariant exp + Log2(num) + (if num == 0 then 0 else 1) == Log2(num0)
      decreases num
    {
      exp := exp + 1;
      num := num / 2;
    }
    index := exp - MEMORY_MIN_EXP;
  }

  /** Pages for a block of realsize bytes, at least MEMORY_MIN_FRAMES. */
  function PagesFor(realsize: nat): nat {
    var pages := realsize / FRAME_SIZE + if realsize % FRAME_SIZE != 0 then 1 else 0;
    if pages < MEMORY_MIN_FRAMES then MEMORY_MIN_FRAMES else pages
  }

  /** Block tag, of whole bytes, has been made one of size bytes: what is more than the minimum has
      been cut off, as a free block right behind it. */
  ghost predicate Trimmed(tags: Memory, regions: Regions, tag: nat, size: nat, whole: nat) {
    tag in tags &&
    if whole > size + 2 * TAG_SIZE + 256 then
      var rest := tag + TAG_SIZE + size;
      tags[tag].realsize == TAG_SIZE + size && tags[tag].splitnext == rest &&
      Current(regions, rest) && IsFree(tags, rest) && tags[rest].realsize == whole - TAG_SIZE - size &&
      InClass(tags[rest].index, whole - TAG_SIZE - size - TAG_SIZE)
    else tags[tag].realsize == whole
  }

  class HeapState {
    var tags: Memory
    ghost var regions: Regions

    ghost predicate Valid()
      reads this
    {
      Heap(tags, regions) && NULL !in tags
    }

    constructor ()
      ensures Valid() && regions == map[]
    {
      tags := map[];
      regions := map[];
    }

    /** malloc. found is what the search has found: NULL, or a free block that is large enough; frames
        is where new frames come from if it has found nothing. The block that is returned is exactly
        as large as asked for, and nobody else's block changes. */
    method Malloc(size: nat, found: nat, frames: nat) returns (ptr: nat)
      requires Valid() && size + TAG_SIZE <= 0x7FFF_F000
      requires found != NULL ==> Current(regions, found) && IsFree(tags, found) && tags[found].realsize >= size + TAG_SIZE
      requires found == NULL ==> frames > 0 && forall q | q in regions ::
                 frames + PagesFor(size + TAG_SIZE) * FRAME_SIZE <= q || q + regions[q].size <= frames
      modifies this
      ensures Valid()
      ensures size == 0 ==> ptr == NULL && tags == old(tags) && regions == old(regions)
      ensures size > 0 ==> ptr == (if found != NULL then found else frames) + TAG_SIZE
      ensures size > 0 ==> var tag := ptr - TAG_SIZE;
                !Used(old(tags), old(regions), tag) && Used(tags, regions, tag) && tags[tag].size == size &&
                KeepsUse(old(tags), old(regions), tags, regions, tag)
      ensures size > 0 && found != NULL ==> regions.Keys == old(regions).Keys && SameSizes(old(regions), regions)
      ensures size > 0 && found == NULL ==>
                regions.Keys == old(regions).Keys + {frames} && RoundedUp(regions[frames].size, size + TAG_SIZE) &&
                SameSizes(old(regions), regions)
      ensures size > 0 ==> found != NULL || frames in regions
      ensures size > 0 ==> var tag := ptr - TAG_SIZE;
                Trimmed(tags, regions, tag, size, if found != NULL then old(tags)[found].realsize else regions[frames].size) &&
                size + TAG_SIZE <= tags[tag].realsize <= size + 2 * TAG_SIZE + 256
    {
      hide Heap, HeapBut, KeepsUse, Current, Trimmed, InClass, SplitTags, SplitRegion, IndexOf;
      if size == 0 {
        return NULL;
      }
      ghost var t0, r0 := tags, regions;
      var tag;
      ghost var y: nat, i: nat;
      if found == NULL {
        tag := NewRegion(size, frames);
        y, i := frames, 0;
      } else {
        tag := found;
        y, i := Find(regions, tag);
        Whole(tags, regions, y);
        FreeAlone(tags, regions, y, i, tag);
        KeepsSelf(tags, regions, tag);
      }
      ghost var t1, r1 := tags, regions;
      ghost var x := if found == NULL then tag else NULL;
      InMemory(tags, regions, y, x, i, tag);
      tags := tags[tag := tags[tag].(size := size, index := -1)];
      Marked(t1, r1, y, x, i, tag, tags[tag]);
      MarkKeeps(t1, r1, tag, tags[tag]);
      KeepsTrans(t0, r0, t1, r1, tags, regions, tag);
      NotFreeStill(t1, tags, tag, Following(regions[y], i));
      ghost var whole := tags[tag].realsize;
      SplitBlock(tag, y, i);
      TrimmedBounds(tags, regions, tag, size, whole);
      KeepsTrans(t0, r0, t1[tag := t1[tag].(size := size, index := -1)], r1, tags, regions, tag);
      Settling(tags, regions, y, i, tag);
      Finished(tags, regions, y);
      CurrentIs(regions, y, i, tag);
      ptr := tag + TAG_SIZE;
    }

    /** The part of malloc that gets new frames. */
    method NewRegion(size: nat, frames: nat) returns (tag: nat)
      requires Valid() && size > 0 && frames > 0
      requires forall q | q in regions :: frames + PagesFor(size + TAG_SIZE) * FRAME_SIZE <= q || q + regions[q].size <= frames
      modifies this
      ensures tag == frames && regions == old(regions)[frames := Region(PagesFor(size + TAG_SIZE) * FRAME_SIZE, [frames])]
      ensures frames !in old(regions) && HeapBut(tags, regions, frames, frames) && NULL !in tags && At(regions, frames, 0, frames)
      ensures tag in tags && tags[tag].realsize == regions[frames].size >= size + TAG_SIZE
      ensures RoundedUp(regions[frames].size, size + TAG_SIZE)
      ensures KeepsUse(old(tags), old(regions), tags, regions, frames) && !Current(old(regions), frames)
    {
      hide Heap, HeapBut, KeepsUse, Current;
      var realsize := size + TAG_SIZE;
      var pages := realsize / FRAME_SIZE;
      if realsize % FRAME_SIZE != 0 {
        pages := pages + 1;
      }
      if pages < MEMORY_MIN_FRAMES {
        pages := MEMORY_MIN_FRAMES;
      }
      PagesEnough(realsize);
      NotARegion(tags, regions, frames, pages * FRAME_SIZE);
      tag := frames;
      var t := Tag(0, pages * FRAME_SIZE, -1, NULL, NULL);
      AddKeeps(tags, regions, frames, pages * FRAME_SIZE, t);
      RegionAdded(tags, regions, frames, pages * FRAME_SIZE, t);
      tags := tags[tag := t];
      regions := regions[frames := Region(pages * FRAME_SIZE, [frames])];
    }

    /** The assignments of malloc to the tag, the new tag, and the tag behind it. */
    method CutTag(tag: nat, splitTag: nat, t: Tag)
      requires tag in tags && tag <= splitTag && tags[tag].realsize == splitTag - tag + t.realsize && t.splitnext == tags[tag].splitnext
      modifies this`tags
      ensures tags == SplitTags(old(tags), tag, splitTag, t)
    {
      var remainder := t.realsize;
      var next := tags[tag].splitnext;
      tags := tags[tag := tags[tag].(realsize := tags[tag].realsize - remainder)];
      tags := tags[tag := tags[tag].(splitnext := splitTag)][splitTag := t];
      if next != NULL && next in tags {
        tags := tags[next := tags[next].(splitprev := splitTag)];
      }
    }

    /** The part of malloc that cuts off what is not needed, if that is worth while. */
    method SplitBlock(tag: nat, ghost y: nat, ghost i: nat)
      requires HeapBut(tags, regions, y, tag) && At(regions, y, i, tag) && InUse(tags, tag) && NULL !in tags
      requires tags[tag].size > 0 && tags[tag].realsize >= tags[tag].size + TAG_SIZE && !IsFree(tags, Following(regions[y], i))
      modifies this
      ensures HeapBut(tags, regions, y, tag) && At(regions, y, i, tag) && InUse(tags, tag) && NULL !in tags
      ensures tags[tag].size == old(tags)[tag].size && tags[tag].realsize >= tags[tag].size + TAG_SIZE
      ensures regions.Keys == old(regions).Keys && SameSizes(old(regions), regions)
      ensures KeepsUse(old(tags), old(regions), tags, regions, tag)
      ensures Trimmed(tags, regions, tag, tags[tag].size, old(tags)[tag].realsize)
    {
      hide HeapBut, KeepsUse, Current, IndexOf, InClass, Orderly, SplitTags, SplitRegion, SameElsewhere;
      var size := tags[tag].size;
      var remainder := tags[tag].realsize - size - TAG_SIZE;
      if remainder - TAG_SIZE > 256 {
        var splitTag := tag + TAG_SIZE + size;
        var splitIndex := GetIndex(remainder - TAG_SIZE);
        var t := Tag(0, remainder, splitIndex, tag, tags[tag].splitnext);
        ghost var g, g' := regions[y], SplitRegion(regions[y], i, splitTag);
        RegionOrderly(tags, regions, y, tag);
        BlockEnd(tags, y, g, i, tag);
        SplitOrderly(tags, y, g, i, splitTag, t);
        SplitKeeps(tags, regions, y, tag, i, splitTag, t);
        SplitElsewhere(tags, y, g, i, splitTag, t, tag);
        SplitKeepsTag(tags, y, g, i, splitTag, t, tag);
        RegionChanged(tags, SplitTags(tags, tag, splitTag, t), regions, y, tag, tag, g');
        CutTag(tag, splitTag, t);
        regions := regions[y := g'];
        CurrentIs(regions, y, i + 1, splitTag);
      } else {
        KeepsSelf(tags, regions, tag);
      }
    }

    /** free. ptr is NULL or what malloc has returned and nobody has freed since; release tells whether
        a region that is free as a whole is given back. pages is how many frames from ptr's region on
        have been given back. Nobody else's block changes. */
    method Free(ptr: nat, release: bool) returns (start: nat, pages: nat)
      requires Valid() && (ptr != NULL ==> ptr >= TAG_SIZE && Used(tags, regions, ptr - TAG_SIZE))
      modifies this
      ensures Valid()
      ensures ptr == NULL ==> tags == old(tags) && regions == old(regions) && pages == 0
      ensures ptr != NULL ==> !Used(tags, regions, ptr - TAG_SIZE) && KeepsUse(old(tags), old(regions), tags, regions, ptr - TAG_SIZE)
      ensures ptr != NULL ==> (pages > 0 <==> release && LastUser(old(tags), old(regions), ptr - TAG_SIZE))
      ensures pages == 0 ==> regions.Keys == old(regions).Keys && SameSizes(old(regions), regions)
      ensures pages > 0 ==> release && start in old(regions) && old(regions)[start].size == pages * FRAME_SIZE &&
                            regions.Keys == old(regions).Keys - {start} && SameSizes(regions, old(regions))
    {
      hide Heap, HeapBut, KeepsUse, Current, MergeTags, MergeRegion, IndexOf, Orderly, Before, Following, SoleUser;
      start, pages := NULL, 0;
      if ptr == NULL {
        return;
      }
      var t := ptr - TAG_SIZE;
      ghost var t0, r0 := tags, regions;
      ghost var y: nat, i0: nat := Find(regions, t);
      ghost var i := i0;
      Opened(tags, regions, y, i, t);
      var tag;
      tag, i := MergeLeft(t, y, i);
      ghost var t2, r2 := tags, regions;
      i := MergeRight(tag, t, y, i);
      KeepsTrans(t0, r0, t2, r2, tags, regions, t);
      RegionOrderly(tags, regions, y, tag);
      InMemory(tags, regions, y, tag, i, tag);
      var index := GetIndex(tags[tag].realsize - TAG_SIZE);
      SoleIff(t0, r0, tags, regions, y, i, tag, t);
      OneRegion(t0, r0, y, i0, t);
      if tags[tag].splitprev == NULL && tags[tag].splitnext == NULL && release {
        OnlyBlock(tags, regions, y, i, tag);
        var n: int := tags[tag].realsize / FRAME_SIZE;
        if tags[tag].realsize % FRAME_SIZE != 0 {
          n := n + 1;
        }
        if n < MEMORY_MIN_FRAMES {
          n := MEMORY_MIN_FRAMES;
        }
        start, pages := tag, n;
        ghost var t1 := tags;
        tags := tags[tag := tags[tag].(index := -1)];
        Released(t0, r0, t1, tags, regions, y, i, tag, t);
        regions := regions - {y};
        return;
      }
      ghost var t1 := tags;
      if tags[tag].index != index {
        tags := tags[tag := tags[tag].(index := index)];
      }
      Closed(t0, r0, t1, tags, regions, y, i, tag, t);
    }

    /** The first loop of free. */
    method MergeLeft(t: nat, ghost y: nat, ghost i0: nat) returns (tag: nat, ghost i: nat)
      requires HeapBut(tags, regions, y, t) && At(regions, y, i0, t) && InUse(tags, t) && NULL !in tags
      modifies this
      ensures HeapBut(tags, regions, y, tag) && At(regions, y, i, tag) && NULL !in tags && !IsFree(tags, Before(regions[y], i))
      ensures (tag == t && InUse(tags, t)) || (IsFree(tags, tag) && !Current(regions, t))
      ensures KeepsUse(old(tags), old(regions), tags, regions, t) && regions.Keys == old(regions).Keys && SameSizes(old(regions), regions)
    {
      hide HeapBut, KeepsUse, Current, MergeTags, MergeRegion, Orderly;
      tag, i := t, i0;
      KeepsSelf(tags, regions, t);
      InMemory(tags, regions, y, tag, i, tag);
      while tags[tag].splitprev != NULL && tags[tags[tag].splitprev].index >= 0
        invariant HeapBut(tags, regions, y, tag) && At(regions, y, i, tag) && NULL !in tags
        invariant tag in tags && tags[tag].splitprev == Before(regions[y], i) && (tags[tag].splitprev != NULL ==> tags[tag].splitprev in tags)
        invariant (tag == t && InUse(tags, t)) || (IsFree(tags, tag) && !Current(regions, t))
        invariant KeepsUse(old(tags), old(regions), tags, regions, t) && regions.Keys == old(regions).Keys && SameSizes(old(regions), regions)
        decreases i
      {
        ghost var t1, r1 := tags, regions;
        var left := tags[tag].splitprev;
        ghost var g' := MergeRegion(regions[y], i - 1);
        CurrentIs(regions, y, i - 1, left);
        CurrentIs(regions, y, i, tag);
        MergeOne(tags, regions, y, tag, i - 1, t);
        Absorb(left, tag);
        regions := regions[y := g'];
        KeepsTrans(old(tags), old(regions), t1, r1, tags, regions, t);
        tag, i := left, i - 1;
        InMemory(tags, regions, y, tag, i, tag);
      }
    }

    /** The second loop of free. */
    method MergeRight(tag: nat, t: nat, ghost y: nat, ghost i0: nat) returns (ghost i: nat)
      requires HeapBut(tags, regions, y, tag) && At(regions, y, i0, tag) && NULL !in tags && !IsFree(tags, Before(regions[y], i0))
      requires (tag == t && InUse(tags, t)) || (IsFree(tags, tag) && !Current(regions, t))
      modifies this
      ensures HeapBut(tags, regions, y, tag) && At(regions, y, i, tag) && NULL !in tags
      ensures !IsFree(tags, Before(regions[y], i)) && !IsFree(tags, Following(regions[y], i))
      ensures tag == t || (IsFree(tags, tag) && !Current(regions, t))
      ensures KeepsUse(old(tags), old(regions), tags, regions, t) && regions.Keys == old(regions).Keys && SameSizes(old(regions), regions)
    {
      hide HeapBut, KeepsUse, Current, MergeTags, MergeRegion, Orderly;
      i := i0;
      KeepsSelf(tags, regions, t);
      InMemory(tags, regions, y, tag, i, tag);
      while tags[tag].splitnext != NULL && tags[tags[tag].splitnext].index >= 0
        invariant HeapBut(tags, regions, y, tag) && At(regions, y, i, tag) && NULL !in tags && !IsFree(tags, Before(regions[y], i))
        invariant tag in tags && tags[tag].splitnext == Following(regions[y], i) && (tags[tag].splitnext != NULL ==> tags[tag].splitnext in tags)
        invariant (tag == t && InUse(tags, t)) || (IsFree(tags, tag) && !Current(regions, t))
        invariant KeepsUse(old(tags), old(regions), tags, regions, t) && regions.Keys == old(regions).Keys && SameSizes(old(regions), regions)
        decreases |regions[y].chain| - i
      {
        ghost var t1, r1 := tags, regions;
        var right := tags[tag].splitnext;
        ghost var g' := MergeRegion(regions[y], i);
        CurrentIs(regions, y, i + 1, right);
        CurrentIs(regions, y, i, tag);
        MergeOne(tags, regions, y, tag, i, t);
        Absorb(tag, right);
        regions := regions[y := g'];
        KeepsTrans(old(tags), old(regions), t1, r1, tags, regions, t);
        InMemory(tags, regions, y, tag, i, tag);
      }
    }

    /** The assignments of either loop: a takes in the block b behind it. */
    method Absorb(a: nat, b: nat)
      requires a in tags && b in tags && a != b
      modifies this`tags
      ensures tags == MergeTags(old(tags), a, b)
    {
      var next := tags[b].splitnext;
      tags := tags[a := tags[a].(realsize := tags[a].realsize + tags[b].realsize, splitnext := next)];
      if next != NULL && next in tags {
        tags := tags[next := tags[next].(splitprev := a)];
      }
      tags := tags[b := tags[b].(index := -1)];
    }
  }


  lemma Whole(tags: Memory, regions: Regions, y: nat)
    requires Heap(tags, regions)
    ensures HeapBut(tags, regions, y, NULL)
  {
  }

  lemma KeepsSelf(tags: Memory, regions: Regions, x: nat)
    ensures KeepsUse(tags, regions, tags, regions, x) && SameSizes(regions, regions)
  {
  }

  lemma Find(regions: Regions, a: nat) returns (y: nat, i: nat)
    requires Current(regions, a)
    ensures At(regions, y, i, a)
  {
    var r, j: nat :| At(regions, r, j, a);
    y, i := r, j;
  }

  lemma InMemory(tags: Memory, regions: Regions, y: nat, x: nat, i: nat, a: nat)
    requires HeapBut(tags, regions, y, x) && At(regions, y, i, a)
    ensures a in tags && tags[a].realsize > TAG_SIZE && a > 0
    ensures tags[a].splitprev == Before(regions[y], i) && tags[a].splitnext == Following(regions[y], i)
    ensures Before(regions[y], i) != NULL ==> Before(regions[y], i) in tags
    ensures Following(regions[y], i) != NULL ==> Following(regions[y], i) in tags
  {
    assert Orderly(tags, y, regions[y], x);
    assert Fitting(tags, y, regions[y], i) && Fitting(tags, y, regions[y], i + 1);
    assert i > 0 ==> Fitting(tags, y, regions[y], i - 1);
    ChainOrder(tags, y, regions[y], i, i);
  }

  /** After a free block there is no free block. */
  lemma FreeAlone(tags: Memory, regions: Regions, y: nat, i: nat, a: nat)
    requires Heap(tags, regions) && At(regions, y, i, a) && IsFree(tags, a) && NULL !in tags
    ensures !IsFree(tags, Following(regions[y], i)) && Following(regions[y], i) != a
  {
    assert Orderly(tags, y, regions[y], NULL);
    assert Proper(tags, regions[y], i, NULL);
    ChainOrder(tags, y, regions[y], i, i);
    if i + 1 < |regions[y].chain| {
      ChainOrder(tags, y, regions[y], i + 1, i + 1);
      Distinct(tags, y, regions[y], i, i + 1);
    }
  }

  lemma NotFreeStill(tags: Memory, tags': Memory, a: nat, b: nat)
    requires !IsFree(tags, b) && a in tags' && tags' == tags[a := tags'[a]] && tags'[a].index < 0
    ensures !IsFree(tags', b)
  {
  }

  /** size is realsize rounded up to whole frames, and at least four of them. */
  predicate RoundedUp(size: nat, realsize: nat) {
    size % 4096 == 0 && size >= realsize && size >= 4 * 4096 && (size > 4 * 4096 ==> size < realsize + 4096)
  }

  lemma PagesEnough(realsize: nat)
    ensures PagesFor(realsize) * FRAME_SIZE >= realsize && PagesFor(realsize) >= MEMORY_MIN_FRAMES
    ensures RoundedUp(PagesFor(realsize) * FRAME_SIZE, realsize)
  {
  }

  lemma TrimmedBounds(tags: Memory, regions: Regions, tag: nat, size: nat, whole: nat)
    requires Trimmed(tags, regions, tag, size, whole) && whole >= size + TAG_SIZE
    ensures tag in tags && size + TAG_SIZE <= tags[tag].realsize <= size + 2 * TAG_SIZE + 256
  {
  }

  lemma NotARegion(tags: Memory, regions: Regions, frames: nat, size: nat)
    requires Heap(tags, regions) && size > 0 && forall q | q in regions :: frames + size <= q || q + regions[q].size <= frames
    ensures frames !in regions
  {
    forall q | q in regions ensures regions[q].size > 0 {
      assert Orderly(tags, q, regions[q], NULL);
    }
  }

  lemma RegionOrderly(tags: Memory, regions: Regions, y: nat, x: nat)
    requires HeapBut(tags, regions, y, x) && y in regions
    ensures Orderly(tags, y, regions[y], x)
  {
  }

  lemma BlockEnd(tags: Memory, r: nat, g: Region, i: nat, a: nat)
    requires Orderly(tags, r, g, a) && i < |g.chain| && g.chain[i] == a
    ensures a in tags && End(r, g, i) == a + tags[a].realsize
  {
    assert Fitting(tags, r, g, i);
  }

  lemma SplitKeepsTag(tags: Memory, r: nat, g: Region, i: nat, b: nat, t: Tag, x: nat)
    requires Orderly(tags, r, g, x) && i < |g.chain| && g.chain[i] == x && x in tags && x + TAG_SIZE < b && b + TAG_SIZE < End(r, g, i)
    requires t.splitnext == tags[x].splitnext && NULL !in tags
    ensures var m := SplitTags(tags, x, b, t);
            x in m && m[x] == tags[x].(realsize := b - x, splitnext := b) && NULL !in m && b in m && m[b] == t
    ensures var h := SplitRegion(g, i, b); h.size == g.size && i + 1 < |h.chain| && h.chain[i] == x && h.chain[i + 1] == b
  {
    SplitWords(tags, r, g, i, b, t);
  }

  lemma SplitElsewhere(tags: Memory, r: nat, g: Region, i: nat, b: nat, t: Tag, x: nat)
    requires Orderly(tags, r, g, x) && i < |g.chain| && g.chain[i] in tags && g.chain[i] + TAG_SIZE < b && b + TAG_SIZE < End(r, g, i)
    requires t.splitnext == tags[g.chain[i]].splitnext
    ensures SameElsewhere(tags, SplitTags(tags, g.chain[i], b, t), r, g.size)
  {
    SplitWords(tags, r, g, i, b, t);
  }

  /** Block a is free, or the one that is being freed. */
  ghost predicate Mergeable(tags: Memory, t: nat, a: nat) {
    if a == t then InUse(tags, t) else IsFree(tags, a)
  }

  /** One round of either loop of free: block i takes in block i + 1; x was one of the two. */
  lemma MergeOne(tags: Memory, regions: Regions, y: nat, x: nat, i: nat, t: nat)
    requires HeapBut(tags, regions, y, x) && y in regions && i + 1 < |regions[y].chain| && NULL !in tags
    requires x == regions[y].chain[i] || x == regions[y].chain[i + 1]
    requires Mergeable(tags, t, regions[y].chain[i]) && Mergeable(tags, t, regions[y].chain[i + 1])
    requires x == t || !Current(regions, t)
    ensures var a, b, g' := regions[y].chain[i], regions[y].chain[i + 1], MergeRegion(regions[y], i);
            a in tags && b in tags && a != b &&
            var m, regions' := MergeTags(tags, a, b), regions[y := g'];
            HeapBut(m, regions', y, a) && At(regions', y, i, a) && NULL !in m &&
            KeepsUse(tags, regions, m, regions', t) && g'.size == regions[y].size && |g'.chain| == |regions[y].chain| - 1 &&
            (if a == t then InUse(m, t) else IsFree(m, a) && !Current(regions', t)) &&
            (!IsFree(tags, Before(regions[y], i)) ==> !IsFree(m, Before(g', i)))
  {
    var g := regions[y];
    RegionOrderly(tags, regions, y, x);
    MergeWords(tags, y, g, i);
    MergeOrderly(tags, y, g, i, x);
    Distinct(tags, y, g, i, i + 1);
    MergeKeeps(tags, regions, y, x, i, t);
    CurrentMerged(tags, regions, y, x, i, t);
    var a, b, g' := g.chain[i], g.chain[i + 1], MergeRegion(g, i);
    var m := MergeTags(tags, a, b);
    assert a in m && m[a].index == tags[a].index;
    assert x == t ==> a == t || b == t;
    RegionChanged(tags, m, regions, y, x, a, g');
    assert m.Keys == tags.Keys;
    if i > 0 {
      Distinct(tags, y, g, i, i - 1);
      Distinct(tags, y, g, i + 1, i - 1);
    }
    hide MergeTags, HeapBut, KeepsUse, Current, Orderly, Tiled;
  }

  /** Address a lies in region y. */
  ghost predicate Within(regions: Regions, y: nat, a: nat) {
    y in regions && y <= a < y + regions[y].size
  }

  /** Nothing but t is in use in region y. */
  ghost predicate SoleUser(tags: Memory, regions: Regions, y: nat, t: nat) {
    forall c: nat | Used(tags, regions, c) && Within(regions, y, c) :: c == t
  }

  /** Nothing else is in use in the region where t lies. */
  ghost predicate LastUser(tags: Memory, regions: Regions, t: nat) {
    forall y | Within(regions, y, t) :: SoleUser(tags, regions, y, t)
  }

  lemma OneRegion(tags: Memory, regions: Regions, y: nat, i: nat, t: nat)
    requires Heap(tags, regions) && At(regions, y, i, t)
    ensures forall r :: Within(regions, r, t) <==> r == y
  {
    RegionOrderly(tags, regions, y, NULL) by { assert HeapBut(tags, regions, y, NULL); }
    ChainOrder(tags, y, regions[y], i, i);
  }

  /** When free has merged what it can, the block is the whole region just if nothing else in the
      region was in use. */
  lemma SoleIff(t0: Memory, r0: Regions, tags: Memory, regions: Regions, y: nat, i: nat, a: nat, t: nat)
    requires HeapBut(tags, regions, y, a) && At(regions, y, i, a) && KeepsUse(t0, r0, tags, regions, t)
    requires y in r0 && r0[y].size == regions[y].size && (a == t || (IsFree(tags, a) && !Current(regions, t)))
    requires !IsFree(tags, Before(regions[y], i)) && !IsFree(tags, Following(regions[y], i))
    ensures Before(regions[y], i) == NULL && Following(regions[y], i) == NULL <==> SoleUser(t0, r0, y, t)
  {
    RegionOrderly(tags, regions, y, a);
    var g := regions[y];
    forall j: nat | j < |g.chain| ensures g.chain[j] > 0 && g.chain[j] in tags && Within(regions, y, g.chain[j]) && Current(regions, g.chain[j]) {
      ChainOrder(tags, y, g, j, j);
      assert Fitting(tags, y, g, j) && At(regions, y, j, g.chain[j]);
    }
    if i > 0 {
      Distinct(tags, y, g, i, i - 1);
      assert Used(tags, regions, g.chain[i - 1]);
    } else if i + 1 < |g.chain| {
      Distinct(tags, y, g, i, i + 1);
      assert Used(tags, regions, g.chain[i + 1]);
    } else {
      forall c: nat | Used(t0, r0, c) && Within(r0, y, c) ensures c == t {
        if c != t {
          OnlyInRegion(tags, regions, y, i, a, c);
        }
      }
    }
  }

  lemma OnlyInRegion(tags: Memory, regions: Regions, y: nat, i: nat, a: nat, c: nat)
    requires HeapBut(tags, regions, y, a) && At(regions, y, i, a) && |regions[y].chain| == 1 && Current(regions, c) && Within(regions, y, c)
    ensures c == a
  {
    var r, j := Find(regions, c);
    RegionOrderly(tags, regions, y, a);
    if r != y {
      assert Orderly(tags, r, regions[r], NULL);
      ChainOrder(tags, r, regions[r], j, j);
    }
  }

  /** A block in use may be changed. */
  lemma Opened(tags: Memory, regions: Regions, y: nat, i: nat, a: nat)
    requires Heap(tags, regions) && At(regions, y, i, a) && NULL !in tags
    ensures HeapBut(tags, regions, y, a)
  {
    InMemory(tags, regions, y, NULL, i, a) by { assert HeapBut(tags, regions, y, NULL); }
    Marked(tags, regions, y, NULL, i, a, tags[a]) by { assert HeapBut(tags, regions, y, NULL); }
    assert tags[a := tags[a]] == tags;
  }

  /** A region of a single block. */
  lemma OnlyBlock(tags: Memory, regions: Regions, y: nat, i: nat, a: nat)
    requires HeapBut(tags, regions, y, a) && At(regions, y, i, a) && a in tags
    requires tags[a].splitprev == NULL && tags[a].splitnext == NULL
    ensures regions[y].chain == [a] && y == a && tags[a].realsize == regions[y].size
    ensures regions[y].size % FRAME_SIZE == 0 && regions[y].size >= MEMORY_MIN_FRAMES * FRAME_SIZE
  {
    RegionOrderly(tags, regions, y, a);
    var g := regions[y];
    assert Fitting(tags, y, g, i);
    forall j: nat | j < |g.chain| ensures g.chain[j] > 0 {
      ChainOrder(tags, y, g, j, j);
    }
  }

  lemma Released(t0: Memory, r0: Regions, t1: Memory, tags: Memory, regions: Regions, y: nat, i: nat, a: nat, t: nat)
    requires HeapBut(t1, regions, y, a) && At(regions, y, i, a) && regions[y].chain == [a] && NULL !in t1 && a in t1
    requires tags == t1[a := t1[a].(index := -1)] && KeepsUse(t0, r0, t1, regions, t)
    requires a == t || (IsFree(t1, a) && !Current(regions, t))
    ensures Heap(tags, regions - {y}) && NULL !in tags
    ensures KeepsUse(t0, r0, tags, regions - {y}, t) && !Used(tags, regions - {y}, t)
  {
    Marked(t1, regions, y, a, i, a, tags[a]);
    RegionRemoved(tags, regions, y, a);
    RemoveKeeps(tags, regions, y, a);
    InMemory(t1, regions, y, a, i, a);
    forall c: nat | c != t ensures Used(tags, regions - {y}, c) <==> Used(t1, regions, c) {
      CurrentParts(regions, y, c);
    }
    CurrentParts(regions, y, t);
    hide HeapBut, Heap, Current;
  }

  lemma Closed(t0: Memory, r0: Regions, t1: Memory, tags: Memory, regions: Regions, y: nat, i: nat, a: nat, t: nat)
    requires HeapBut(t1, regions, y, a) && At(regions, y, i, a) && NULL !in t1 && a in t1 && t1[a].realsize > TAG_SIZE
    requires tags == t1[a := t1[a].(index := IndexOf(t1[a].realsize - TAG_SIZE))] && KeepsUse(t0, r0, t1, regions, t)
    requires a == t || (IsFree(t1, a) && !Current(regions, t))
    requires !IsFree(t1, Before(regions[y], i)) && !IsFree(t1, Following(regions[y], i))
    ensures Heap(tags, regions) && NULL !in tags
    ensures KeepsUse(t0, r0, tags, regions, t) && !Used(tags, regions, t)
  {
    Marked(t1, regions, y, a, i, a, tags[a]);
    NeighboursDiffer(t1, regions, y, i, a);
    Settling(tags, regions, y, i, a);
    Finished(tags, regions, y);
    hide HeapBut, Heap, Current, IndexOf;
  }

  lemma NeighboursDiffer(tags: Memory, regions: Regions, y: nat, i: nat, a: nat)
    requires HeapBut(tags, regions, y, a) && At(regions, y, i, a)
    ensures Before(regions[y], i) != a && Following(regions[y], i) != a
  {
    RegionOrderly(tags, regions, y, a);
    var g := regions[y];
    ChainOrder(tags, y, g, i, i);
    if i > 0 { Distinct(tags, y, g, i, i - 1); }
    if i + 1 < |g.chain| { Distinct(tags, y, g, i, i + 1); }
  }
}
