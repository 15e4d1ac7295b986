/** kernel/src/memory.c: the bitmap frame allocator with its cache of single frames. A kernel
    abort (kabort does not return) is the result ok == false. Mapping a frame into the kernel on
    demand is not part of this model: frames are taken to be mapped already.
 */
module Frames {

  const FRAME_SIZE: nat := 0x1000
  const MAX_FRAME_CACHE_SIZE: nat := 32

  // -------------------------------------------------------------------- bits of one byte

  function Mask(k: nat): bv8
    requires k < 8
  {
    if k == 0 then 1 else if k == 1 then 2 else if k == 2 then 4 else if k == 3 then 8
    else if k == 4 then 16 else if k == 5 then 32 else if k == 6 then 64 else 128
  }

  predicate TestBit(b: bv8, k: nat)
    requires k < 8
  {
    b & Mask(k) != 0
  }

  function SetBit(b: bv8, k: nat): bv8
    requires k < 8
  {
    b | Mask(k)
  }

  function ClearBit(b: bv8, k: nat): bv8
    requires k < 8
  {
    b & !Mask(k)
  }

  lemma BitUpdates(b: bv8, k: nat, j: nat)
    requires k < 8 && j < 8
    ensures TestBit(SetBit(b, k), j) <==> j == k || TestBit(b, j)
    ensures TestBit(ClearBit(b, k), j) <==> j != k && TestBit(b, j)
  {
  }

  // ---------------------------------------------------------------------- the whole map

  /** Frame i is marked in the bitmap. */
  ghost predicate Marked(map8: seq<bv8>, i: nat)
    requires i / 8 < |map8|
  {
    TestBit(map8[i / 8], i % 8)
  }

  ghost predicate SameExcept(before: seq<bv8>, after: seq<bv8>, i: nat, value: bool)
    requires |before| == |after| && i / 8 < |before|
  {
    (Marked(after, i) <==> value) &&
    forall j: nat | j / 8 < |before| && j != i :: Marked(after, j) <==> Marked(before, j)
  }

  lemma MapUpdates(map8: seq<bv8>, i: nat)
    requires i / 8 < |map8|
    ensures SameExcept(map8, map8[i / 8 := SetBit(map8[i / 8], i % 8)], i, true)
    ensures SameExcept(map8, map8[i / 8 := ClearBit(map8[i / 8], i % 8)], i, false)
  {
    hide TestBit, SetBit, ClearBit;
    var b := map8[i / 8];
    forall j: nat | j < 8
      ensures TestBit(SetBit(b, i % 8), j) <==> j == i % 8 || TestBit(b, j)
      ensures TestBit(ClearBit(b, i % 8), j) <==> j != i % 8 && TestBit(b, j)
    {
      BitUpdates(b, i % 8, j);
    }
  }

  /** count free frames from s on, followed by at least one more frame of the map. */
  ghost predicate FreeRun(map8: seq<bv8>, size: nat, s: nat, count: nat)
    requires size <= 8 * |map8|
  {
    s + count < size && forall j: nat | s <= j < s + count :: !Marked(map8, j)
  }

  /** What uint32_t subtraction gives. */
  function Sub32(a: nat, b: nat): nat
    requires a < 0x1_0000_0000 && b < 0x1_0000_0000
  {
    if a >= b then a - b else a + 0x1_0000_0000 - b
  }

  /** What uint32_t addition gives. */
  function Sum32(a: nat, b: nat): nat {
    (a + b) % 0x1_0000_0000
  }

  lemma SumIs(a: nat, b: nat, size: nat)
    requires a < 0x1_0000_0000 && b < 0x1_0000_0000 && size < 0x1_0000_0000
    requires a + b >= 0x1_0000_0000 ==> Sum32(a, b) >= size
    ensures Sum32(a, b) >= size <==> a + b >= size
  {
  }

  /** count frames from s on. */
  ghost function Run(s: nat, count: nat): set<nat> {
    if count == 0 then {} else Run(s, count - 1) + {s + count - 1}
  }

  lemma {:induction false} RunHas(s: nat, count: nat)
    ensures |Run(s, count)| == count
    ensures forall i: nat :: i in Run(s, count) <==> s <= i < s + count
  {
    if count > 0 {
      RunHas(s, count - 1);
    }
  }

  /** The frames marked in the bitmap are those in used. */
  ghost predicate MapIs(map8: seq<bv8>, size: nat, used: set<nat>)
    requires size == 8 * |map8|
  {
    forall i: nat | i < size :: Marked(map8, i) <==> i in used
  }

  lemma NotMarked(map8: seq<bv8>, size: nat, used: set<nat>, i: nat, others: set<nat>)
    requires size == 8 * |map8| && i < size && i in used && i !in others && MapIs(map8, size, others)
    ensures !MapIs(map8, size, used)
  {
    hide Marked;
  }

  lemma MapSet(map8: seq<bv8>, size: nat, used: set<nat>, i: nat)
    requires size == 8 * |map8| && i < size && MapIs(map8, size, used)
    ensures MapIs(map8[i / 8 := SetBit(map8[i / 8], i % 8)], size, used + {i})
  {
    hide Marked, SetBit;
    MapUpdates(map8, i);
  }

  lemma MapClear(map8: seq<bv8>, size: nat, used: set<nat>, i: nat)
    requires size == 8 * |map8| && i < size && MapIs(map8, size, used)
    ensures MapIs(map8[i / 8 := ClearBit(map8[i / 8], i % 8)], size, used - {i})
  {
    hide Marked, ClearBit;
    MapUpdates(map8, i);
  }

  class FrameAllocator {
    const frameMap: array<bv8>
    const frameMapSize: nat
    const framestart: nat
    const cached: array<nat>             // cached_frame_map, kernel addresses
    const frameCacheCount: nat
    var frameCacheSize: nat
    var cachedIndex: nat
    var framesUsed: int

    ghost var outstanding: set<nat>      // frames handed out or marked, and not freed
    ghost var cacheIndices: seq<nat>     // the frames whose addresses the cache holds

    ghost predicate Shaped()
    {
      frameMapSize == 8 * frameMap.Length && frameMapSize > 0 && cached.Length == MAX_FRAME_CACHE_SIZE &&
      1 <= frameCacheCount <= MAX_FRAME_CACHE_SIZE && framestart % FRAME_SIZE == 0 &&
      framestart + frameMapSize * FRAME_SIZE < 0x1_0000_0000 && frameMap as object != cached as object
    }

    /** The kernel address of frame i. */
    function Address(i: nat): nat {
      i * FRAME_SIZE + framestart
    }

    /** The frame that an address lies in, as kfree_frame computes it. */
    function IndexOf(frame: nat): nat
      requires frame < 0x1_0000_0000 && framestart < 0x1_0000_0000
    {
      Sub32(frame, framestart) / FRAME_SIZE
    }

    lemma IndexOfAddress(i: nat)
      requires Shaped() && i < frameMapSize
      ensures Address(i) < 0x1_0000_0000 && IndexOf(Address(i)) == i && Address(i) % FRAME_SIZE == 0
    {
    }

    /** Frames in the cache that have not been handed out. */
    ghost function Waiting(): set<nat>
      requires cachedIndex <= |cacheIndices|
      reads this
    {
      Elements(cacheIndices[cachedIndex..])
    }

    ghost predicate CacheValid()
      requires Shaped()
      reads this, cached
    {
      frameCacheSize <= frameCacheCount && |cacheIndices| == frameCacheSize && cachedIndex <= frameCacheSize &&
      (forall c | 0 <= c < frameCacheSize :: cached[c] == Address(cacheIndices[c])) &&
      Distinct(cacheIndices)
    }

    /** Every marked frame is either outstanding or waiting in the cache, never both. */
    ghost predicate Valid()
      reads this, frameMap, cached
    {
      Shaped() && CacheValid() &&
      outstanding !! Waiting() && framesUsed == |outstanding| &&
      (forall i | i in outstanding + Waiting() :: i < frameMapSize) &&
      MapIs(frameMap[..], frameMapSize, outstanding + Waiting())
    }

    /** The same, but that frames may have been counted out more often than they were handed out. */
    ghost predicate Sound()
      reads this, frameMap, cached
    {
      Shaped() && CacheValid() &&
      outstanding !! Waiting() && framesUsed <= |outstanding| &&
      (forall i | i in outstanding + Waiting() :: i < frameMapSize) &&
      MapIs(frameMap[..], frameMapSize, outstanding + Waiting())
    }

    lemma ValidIsSound()
      ensures Valid() <==> Sound() && framesUsed == |outstanding|
    {
      hide MapIs, Elements, Distinct;
    }

    lemma SoundShape()
      requires Sound()
      ensures Shaped() && cachedIndex <= |cacheIndices| && outstanding !! Waiting()
    {
      hide MapIs, Elements, Distinct;
    }

    /** Outstanding frames are frames of the map. */
    lemma InRange(i: nat)
      requires Valid() && i in outstanding
      ensures Shaped() && i < frameMapSize && Address(i) < 0x1_0000_0000 && IndexOf(Address(i)) == i
    {
      hide MapIs, Elements, Distinct;
      assert i in outstanding + Waiting();
      IndexOfAddress(i);
    }

    /** Set bits of the map count the frames used and those still in the cache. */
    lemma SetBits()
      requires Valid()
      ensures MapIs(frameMap[..], frameMapSize, outstanding + Waiting())
      ensures |outstanding + Waiting()| == framesUsed + (frameCacheSize - cachedIndex)
    {
      DistinctSize(cacheIndices[cachedIndex..]);
    }

    /** The first unmarked frame from index on; the map's size if there is none. */
    method FirstFree(from: nat, ghost used: set<nat>) returns (index: nat)
      requires Shaped() && from < frameMapSize && MapIs(frameMap[..], frameMapSize, used)
      ensures from <= index <= frameMapSize
      ensures index < frameMapSize ==> index !in used
      ensures forall i: nat | from <= i < index :: i in used
    {
      hide Marked, TestBit;
      index := from;
      while TestBit(frameMap[index / 8], index % 8)
        invariant from <= index < frameMapSize
        invariant forall i: nat | from <= i < index :: i in used
        decreases frameMapSize - index
      {
        MarkedIs(frameMap[..], index);
        index := index + 1;
        if index >= frameMapSize {
          return;
        }
      }
      MarkedIs(frameMap[..], index);
    }

    /** Set the bit of one frame. */
    method Mark(index: nat, ghost used: set<nat>)
      requires Shaped() && index < frameMapSize && MapIs(frameMap[..], frameMapSize, used)
      modifies frameMap
      ensures MapIs(frameMap[..], frameMapSize, used + {index})
    {
      hide MapIs, SetBit;
      MapSet(frameMap[..], frameMapSize, used, index);
      ghost var after := frameMap[..][index / 8 := SetBit(frameMap[index / 8], index % 8)];
      frameMap[index / 8] := SetBit(frameMap[index / 8], index % 8);
      assert frameMap[..] == after;
    }

    /** Clear the bit of one frame. */
    method Clear(index: nat, ghost used: set<nat>)
      requires Shaped() && index < frameMapSize && MapIs(frameMap[..], frameMapSize, used)
      modifies frameMap
      ensures MapIs(frameMap[..], frameMapSize, used - {index})
    {
      hide MapIs, ClearBit;
      MapClear(frameMap[..], frameMapSize, used, index);
      ghost var after := frameMap[..][index / 8 := ClearBit(frameMap[index / 8], index % 8)];
      frameMap[index / 8] := ClearBit(frameMap[index / 8], index % 8);
      assert frameMap[..] == after;
    }

    /** While the cache is being filled: index is where the last frame was found. */
    ghost predicate Filling(index: nat)
      requires Shaped()
      reads this, frameMap, cached
    {
      CacheValid() && cachedIndex == 0 && index < frameMapSize &&
      outstanding !! Elements(cacheIndices) &&
      (forall i | i in outstanding + Elements(cacheIndices) :: i < frameMapSize) &&
      MapIs(frameMap[..], frameMapSize, outstanding + Elements(cacheIndices)) &&
      (forall i: nat | i < index :: i in outstanding + Elements(cacheIndices)) &&
      (frameCacheSize > 0 ==> index == cacheIndices[frameCacheSize - 1])
    }

    /** Put one more free frame into the cache. */
    method CacheFrame(index: nat, ghost last: nat)
      requires Shaped() && Filling(last)
      requires frameCacheSize < frameCacheCount && index < frameMapSize
      requires index !in outstanding + Elements(cacheIndices)
      requires forall i: nat | i < index :: i in outstanding + Elements(cacheIndices)
      modifies this`frameCacheSize, this`cacheIndices, frameMap, cached
      ensures Filling(index) && frameCacheSize == old(frameCacheSize) + 1
    {
      hide Distinct, Elements, MapIs;
      Mark(index, outstanding + Elements(cacheIndices));
      ElementsSnoc(cacheIndices, index);
      assert outstanding + Elements(cacheIndices) + {index} == outstanding + Elements(cacheIndices + [index]);
      assert forall i: nat | i < index :: i in outstanding + Elements(cacheIndices + [index]);
      cached[frameCacheSize] := Address(index);
      cacheIndices := cacheIndices + [index];
      frameCacheSize := frameCacheSize + 1;
    }

    lemma CacheFilled(index: nat)
      requires Shaped() && Filling(index) && framesUsed == |outstanding|
      ensures Valid()
    {
      assert cacheIndices[cachedIndex..] == cacheIndices;
    }

    lemma StartFilling()
      requires Shaped() && cachedIndex == 0 && frameCacheSize == 0 && cacheIndices == []
      requires forall i | i in outstanding :: i < frameMapSize
      requires MapIs(frameMap[..], frameMapSize, outstanding)
      ensures Filling(0)
    {
      ElementsEmpty();
      assert outstanding + {} == outstanding;
    }

    /** kalloc_cache: fills the empty cache with the lowest free frames. Stops the kernel only if
        no frame is free at all. */
    method KallocCache(cacheSize: nat) returns (ok: bool)
      requires Shaped() && cachedIndex == 0 && cacheSize == frameCacheCount && framesUsed == |outstanding|
      requires forall i | i in outstanding :: i < frameMapSize
      requires MapIs(frameMap[..], frameMapSize, outstanding)
      modifies this`frameCacheSize, this`cacheIndices, frameMap, cached
      ensures ok <==> exists i: nat :: i < frameMapSize && i !in outstanding
      ensures ok ==> Valid() && frameCacheSize >= 1
      ensures ok ==> forall i: nat | i < cacheIndices[frameCacheSize - 1] :: i in outstanding + Waiting()
      ensures ok ==> frameCacheSize == cacheSize || forall i: nat | i < frameMapSize :: i in outstanding + Waiting()
    {
      hide MapIs, CacheValid, Filling, Elements;
      var index: nat := 0;
      frameCacheSize := 0;
      cacheIndices := [];
      StartFilling();
      for c := 0 to cacheSize
        invariant frameCacheSize == c && Filling(index)
        invariant c > 0 ==> exists i: nat :: i < frameMapSize && i !in outstanding
      {
        FillingUse(index);
        ghost var last, used := index, outstanding + Elements(cacheIndices);
        index := FirstFree(index, used);
        if index == frameMapSize {
          if c != 0 {
            FillingDone();
            AllCached(last, used);
            return true;
          }
          ElementsEmpty();
          return false;
        }
        CacheFrame(index, last);
        assert index < frameMapSize && index !in outstanding;
      }
      FillingUse(index);
      FillingDone();
      return true;
    }

    lemma FillingUse(index: nat)
      requires Shaped() && Filling(index)
      ensures index < frameMapSize && |cacheIndices| == frameCacheSize && cachedIndex == 0
      ensures MapIs(frameMap[..], frameMapSize, outstanding + Elements(cacheIndices))
      ensures forall i: nat | i < index :: i in outstanding + Elements(cacheIndices)
      ensures frameCacheSize > 0 ==> index == cacheIndices[frameCacheSize - 1]
      ensures frameCacheSize == 0 ==> cacheIndices == []
    {
      hide MapIs, Elements;
    }

    lemma FillingDone()
      requires Shaped() && frameCacheSize > 0 && framesUsed == |outstanding|
      requires |cacheIndices| == frameCacheSize && Filling(cacheIndices[frameCacheSize - 1])
      ensures Valid() && frameCacheSize >= 1
      ensures forall i: nat | i < cacheIndices[frameCacheSize - 1] :: i in outstanding + Waiting()
    {
      CacheFilled(cacheIndices[frameCacheSize - 1]);
      assert cacheIndices[cachedIndex..] == cacheIndices;
    }

    /** No frame is left, before or behind the one that was cached last. */
    lemma AllCached(last: nat, used: set<nat>)
      requires cachedIndex == 0 && last < frameMapSize && used == outstanding + Elements(cacheIndices)
      requires (forall i: nat | i < last :: i in used) && forall i: nat | last <= i < frameMapSize :: i in used
      ensures cachedIndex <= |cacheIndices| && forall i: nat | i < frameMapSize :: i in outstanding + Waiting()
    {
      assert cacheIndices[cachedIndex..] == cacheIndices;
    }

    /** Storage for a map of size frames that start at the address start. */
    constructor (size: nat, start: nat, cacheCount: nat)
      requires size % 8 == 0 && size > 0 && start % FRAME_SIZE == 0
      requires start + size * FRAME_SIZE < 0x1_0000_0000 && 1 <= cacheCount <= MAX_FRAME_CACHE_SIZE
      ensures Shaped() && fresh(frameMap) && fresh(cached)
      ensures frameMapSize == size && framestart == start && frameCacheCount == cacheCount
    {
      frameMap := new bv8[size / 8];
      cached := new nat[MAX_FRAME_CACHE_SIZE];
      frameMapSize, framestart, frameCacheCount := size, start, cacheCount;
    }

    /** memory_initialize: nothing is handed out, the cache is filled. */
    method MemoryInitialize() returns (ok: bool)
      requires Shaped()
      modifies this, frameMap, cached
      ensures ok && Valid() && outstanding == {} && framesUsed == 0
      ensures cachedIndex == 0 && (frameCacheSize == frameCacheCount || forall i: nat | i < frameMapSize :: i in Waiting())
    {
      for i := 0 to frameMapSize / 8
        invariant forall j | 0 <= j < i :: frameMap[j] == 0
      {
        frameMap[i] := 0;
      }
      outstanding := {};
      framesUsed := 0;
      cachedIndex := 0;
      frameCacheSize := 0;
      EmptyMap(frameMap[..], frameMapSize);
      hide MapIs;
      ok := KallocCache(frameCacheCount);
      assert 0 < frameMapSize && 0 !in outstanding;
    }

    /** kalloc_frame: a frame that is not outstanding. Stops the kernel only if the cache is empty
        and every frame is outstanding. */
    method KallocFrame() returns (ok: bool, frame: nat)
      requires Valid()
      modifies this, frameMap, cached
      ensures ok ==> Valid() && frame < 0x1_0000_0000 && frame == Address(IndexOf(frame)) && frame % FRAME_SIZE == 0
      ensures ok ==> IndexOf(frame) < frameMapSize && IndexOf(frame) !in old(outstanding)
      ensures ok ==> outstanding == old(outstanding) + {IndexOf(frame)} && framesUsed == old(framesUsed) + 1
      ensures !ok ==> forall i: nat | i < frameMapSize :: i in old(outstanding)
    {
      if cachedIndex >= frameCacheSize {
        CacheEmpty();
        cachedIndex := 0;
        ok := KallocCache(frameCacheCount);
        if !ok {
          return false, 0;
        }
      }
      frame := TakeCached();
      ok := true;
    }

    lemma CacheEmpty()
      requires Valid() && cachedIndex >= frameCacheSize
      ensures MapIs(frameMap[..], frameMapSize, outstanding)
      ensures forall i | i in outstanding :: i < frameMapSize
    {
      assert cacheIndices[cachedIndex..] == [];
      ElementsEmpty();
      assert outstanding + Waiting() == outstanding;
    }

    method TakeCached() returns (frame: nat)
      requires Valid() && cachedIndex < frameCacheSize
      modifies this`cachedIndex, this`framesUsed, this`outstanding
      ensures Valid() && frame < 0x1_0000_0000 && frame == Address(IndexOf(frame)) && frame % FRAME_SIZE == 0
      ensures IndexOf(frame) < frameMapSize && IndexOf(frame) !in old(outstanding)
      ensures outstanding == old(outstanding) + {IndexOf(frame)} && framesUsed == old(framesUsed) + 1
    {
      hide MapIs, Elements, Distinct;
      frame := cached[cachedIndex];
      ghost var i := cacheIndices[cachedIndex];
      TakeFirst(cacheIndices, cachedIndex);
      IndexOfAddress(i);
      assert outstanding + Waiting() == outstanding + {i} + Elements(cacheIndices[cachedIndex + 1..]);
      cachedIndex := cachedIndex + 1;
      framesUsed := framesUsed + 1;
      outstanding := outstanding + {i};
    }

    /** kalloc_frames: the lowest run of count free frames that ends before the last frame of the
        map. Stops the kernel exactly if there is no such run or the count is 0; a single frame comes
        from the cache. */
    method KallocFrames(count: nat) returns (ok: bool, frame: nat)
      requires Valid()
      modifies this, frameMap, cached
      ensures ok ==> Valid() && frame < 0x1_0000_0000 && frame == Address(IndexOf(frame)) && frame % FRAME_SIZE == 0
      ensures ok ==> Run(IndexOf(frame), count) !! old(outstanding)
      ensures ok ==> outstanding == old(outstanding) + Run(IndexOf(frame), count) && framesUsed == old(framesUsed) + count
      ensures count == 0 ==> !ok
      ensures count > 1 ==> (ok <==> exists s: nat :: FreeRun(old(frameMap[..]), frameMapSize, s, count))
      ensures count > 1 && ok ==> FreeRun(old(frameMap[..]), frameMapSize, IndexOf(frame), count)
      ensures count > 1 && ok ==>
                forall s: nat | s < IndexOf(frame) :: !FreeRun(old(frameMap[..]), frameMapSize, s, count)
    {
      if count == 0 {
        return false, 0;
      }
      if count == 1 {
        ok, frame := KallocFrame();
        if ok {
          RunOne(IndexOf(frame));
        }
        return;
      }
      hide MapIs, Marked, FreeRun, Elements;
      var startindex;
      ghost var m := frameMap[..];
      ok, startindex := FindRun(count);
      assert frameMap[..] == m;
      if !ok {
        return false, 0;
      }
      RunIsFree(startindex, count);
      IndexOfAddress(startindex);
      MarkRun(startindex, count);
      frame := Address(startindex);
    }

    /** The first run of count free frames with a frame after it. */
    method FindRun(count: nat) returns (ok: bool, startindex: nat)
      requires Shaped() && count > 1
      ensures ok <==> exists s: nat :: FreeRun(frameMap[..], frameMapSize, s, count)
      ensures ok ==> FreeRun(frameMap[..], frameMapSize, startindex, count)
      ensures ok ==> forall s: nat | s < startindex :: !FreeRun(frameMap[..], frameMapSize, s, count)
    {
      hide TestBit;
      startindex := 0;
      var index, cons := 0, 0;
      ghost var m := frameMap[..];
      while cons != count
        invariant cons <= count && cons <= index < frameMapSize
        invariant cons > 0 ==> startindex == index - cons
        invariant forall j: nat | index - cons <= j < index :: !Marked(m, j)
        invariant forall s: nat | s < index - cons :: !FreeRun(m, frameMapSize, s, count)
        decreases frameMapSize - index
      {
        MarkedIs(m, index);
        if !TestBit(frameMap[index / 8], index % 8) {
          if cons == 0 {
            startindex := index;
          }
          cons := cons + 1;
        } else {
          cons := 0;
        }
        index := index + 1;
        if index >= frameMapSize {
          assert forall s: nat :: !FreeRun(m, frameMapSize, s, count);
          assert m == frameMap[..];
          return false, 0;
        }
      }
      assert m == frameMap[..];
      assert FreeRun(frameMap[..], frameMapSize, startindex, count);
      return true, startindex;
    }

    lemma ValidShape()
      requires Valid()
      ensures Shaped() && cachedIndex <= |cacheIndices|
    {
    }

    /** The loop that sets the bits of a run. */
    method SetBitsOf(startindex: nat, count: nat, ghost used: set<nat>)
      requires Shaped() && startindex + count <= frameMapSize && MapIs(frameMap[..], frameMapSize, used)
      modifies frameMap
      ensures MapIs(frameMap[..], frameMapSize, used + Run(startindex, count))
    {
      hide MapIs, Run;
      RunNone(used, startindex);
      for i := startindex to startindex + count
        invariant MapIs(frameMap[..], frameMapSize, used + Run(startindex, i - startindex))
      {
        Mark(i, used + Run(startindex, i - startindex));
        RunStep(used, startindex, i - startindex);
      }
    }

    /** Mark the run and count it. */
    method MarkRun(startindex: nat, count: nat)
      requires Valid() && startindex + count <= frameMapSize
      modifies this`framesUsed, this`outstanding, frameMap
      ensures outstanding == old(outstanding) + Run(startindex, count) && framesUsed == old(framesUsed) + count
      ensures MapIs(frameMap[..], frameMapSize, old(outstanding + Waiting()) + Run(startindex, count))
      ensures Valid() <==> Run(startindex, count) !! old(outstanding + Waiting())
    {
      hide MapIs, Elements, Run, Distinct;
      SetBitsOf(startindex, count, outstanding + Waiting());
      RunAdded(outstanding, Waiting(), startindex, count, frameMapSize);
      framesUsed := framesUsed + count;
      outstanding := outstanding + Run(startindex, count);
    }

    lemma RunIsFree(s: nat, count: nat)
      requires Valid() && FreeRun(frameMap[..], frameMapSize, s, count)
      ensures Run(s, count) !! outstanding + Waiting() && s + count < frameMapSize
    {
      RunHas(s, count);
    }

    /** kfree_frame: gives back a frame; an address outside the map changes nothing. A frame that was
        not outstanding is reported, but counted all the same: then the count is wrong. */
    method KfreeFrame(frame: nat)
      requires Sound() && frame < 0x1_0000_0000
      modifies this`framesUsed, this`outstanding, frameMap
      ensures Waiting() == old(Waiting()) && outstanding == old(outstanding) - {IndexOf(frame)}
      ensures framesUsed == old(framesUsed) - (if IndexOf(frame) < frameMapSize then 1 else 0)
      ensures |outstanding| == old(|outstanding|) - (if IndexOf(frame) in old(outstanding) then 1 else 0)
      ensures MapIs(frameMap[..], frameMapSize, old(outstanding + Waiting()) - {IndexOf(frame)})
      ensures Sound() <==> IndexOf(frame) !in old(Waiting())
      ensures old(Valid()) ==> (Valid() <==> IndexOf(frame) < frameMapSize ==> IndexOf(frame) in old(outstanding))
    {
      hide MapIs, Valid, Sound, Waiting, IndexOf;
      ValidIsSound();
      SoundShape();
      var index := IndexOf(frame);
      if index >= frameMapSize {
        Outside(index);
        return;
      }
      ClearOne(index);
      ValidIsSound();
    }

    lemma Outside(index: nat)
      requires Sound() && index >= frameMapSize
      ensures outstanding - {index} == outstanding && index !in outstanding && index !in Waiting()
      ensures MapIs(frameMap[..], frameMapSize, outstanding + Waiting() - {index})
    {
      hide MapIs, Elements;
      OneRemoved(outstanding, Waiting(), index, frameMapSize);
      assert index !in outstanding + Waiting();
    }

    method ClearOne(index: nat)
      requires Sound() && index < frameMapSize
      modifies this`framesUsed, this`outstanding, frameMap
      ensures Waiting() == old(Waiting()) && outstanding == old(outstanding) - {index} && framesUsed == old(framesUsed) - 1
      ensures MapIs(frameMap[..], frameMapSize, old(outstanding + Waiting()) - {index})
      ensures Sound() <==> index !in old(Waiting())
      ensures |outstanding| == old(|outstanding|) - if index in old(outstanding) then 1 else 0
    {
      hide MapIs, Elements, Distinct;
      OneRemoved(outstanding, Waiting(), index, frameMapSize);
      Clear(index, outstanding + Waiting());
      framesUsed := framesUsed - 1;
      outstanding := outstanding - {index};
      SoundIff(old(outstanding), index);
    }

    /** The bit of index has been cleared: that is right just if it does not wait in the cache. */
    lemma SoundIff(before: set<nat>, index: nat)
      requires Shaped() && CacheValid() && cachedIndex <= |cacheIndices| && before !! Waiting()
      requires outstanding == before - {index} && framesUsed <= |outstanding|
      requires index < frameMapSize && forall i | i in before + Waiting() :: i < frameMapSize
      requires MapIs(frameMap[..], frameMapSize, before + Waiting() - {index})
      ensures Sound() <==> index !in Waiting()
    {
      hide MapIs, Elements, Distinct, CacheValid;
      if index in Waiting() {
        NotMarked(frameMap[..], frameMapSize, outstanding + Waiting(), index, before + Waiting() - {index});
      } else {
        assert before + Waiting() - {index} == outstanding + Waiting();
      }
    }

    /** kfree_frames: gives back a run of frames, unless it reaches the last frame of the map: then
        nothing changes. Only the first frame is tested, and only for a report. A count with which
        the sum wraps around to a frame of the map, so that the loop would leave the map, is excluded. */
    method KfreeFrames(frame: nat, count: nat)
      requires Valid() && frame < 0x1_0000_0000 && count < 0x1_0000_0000
      requires IndexOf(frame) + count >= 0x1_0000_0000 ==> Sum32(IndexOf(frame), count) >= frameMapSize
      modifies this`framesUsed, this`outstanding, frameMap
      ensures count > 0 && IndexOf(frame) + count < frameMapSize ==>
                outstanding == old(outstanding) - Run(IndexOf(frame), count) && framesUsed == old(framesUsed) - count &&
                MapIs(frameMap[..], frameMapSize, old(outstanding + Waiting()) - Run(IndexOf(frame), count)) &&
                (Valid() <==> Run(IndexOf(frame), count) <= old(outstanding))
      ensures count == 0 || IndexOf(frame) + count >= frameMapSize ==>
                Valid() && outstanding == old(outstanding) && framesUsed == old(framesUsed) && frameMap[..] == old(frameMap[..])
    {
      if count == 0 {
        return;
      }
      hide MapIs, Valid, Waiting, Run, IndexOf, Sum32;
      ValidShape();
      var index := IndexOf(frame);
      SumIs(index, count, frameMapSize);
      if Sum32(index, count) >= frameMapSize {
        return;
      }
      ClearRun(index, count);
    }

    /** The loop that clears the bits of a run. */
    method ClearBitsOf(index: nat, count: nat, ghost used: set<nat>)
      requires Shaped() && index + count <= frameMapSize && MapIs(frameMap[..], frameMapSize, used)
      modifies frameMap
      ensures MapIs(frameMap[..], frameMapSize, used - Run(index, count))
    {
      hide MapIs, Run;
      RunNone(used, index);
      for i := 0 to count
        invariant MapIs(frameMap[..], frameMapSize, used - Run(index, i))
      {
        Clear(index + i, used - Run(index, i));
        RunStep(used, index, i);
      }
    }

    method ClearRun(index: nat, count: nat)
      requires Valid() && index + count <= frameMapSize
      modifies this`framesUsed, this`outstanding, frameMap
      ensures outstanding == old(outstanding) - Run(index, count) && framesUsed == old(framesUsed) - count
      ensures MapIs(frameMap[..], frameMapSize, old(outstanding + Waiting()) - Run(index, count))
      ensures Valid() <==> Run(index, count) <= old(outstanding)
    {
      hide MapIs, Elements, Run, Distinct;
      ClearBitsOf(index, count, outstanding + Waiting());
      RunRemoved(outstanding, Waiting(), index, count, frameMapSize);
      framesUsed := framesUsed - count;
      outstanding := outstanding - Run(index, count);
    }

    /** memory_mark_allocated: marks the frames from start's to end's, both included. Stops the
        kernel if an address is not aligned or the range leaves the map. A frame that was handed out
        or in the cache already is counted again: then the count is wrong. */
    method MemoryMarkAllocated(start: nat, end: nat) returns (ok: bool)
      requires Valid() && start < 0x1_0000_0000 && end < 0x1_0000_0000
      modifies this`framesUsed, this`outstanding, frameMap
      ensures ok <==> start % 0x400 == 0 && end % 0x400 == 0 && IndexOf(end) < frameMapSize
      ensures ok && IndexOf(start) <= IndexOf(end) ==>
                var run := Run(IndexOf(start), IndexOf(end) + 1 - IndexOf(start));
                outstanding == old(outstanding) + run && framesUsed == old(framesUsed) + |run| &&
                MapIs(frameMap[..], frameMapSize, old(outstanding + Waiting()) + run) &&
                (Valid() <==> run !! old(outstanding + Waiting()))
      ensures !ok || IndexOf(start) > IndexOf(end) ==>
                Valid() && outstanding == old(outstanding) && framesUsed == old(framesUsed) && frameMap[..] == old(frameMap[..])
    {
      hide Valid, Run, Waiting, IndexOf, MapIs;
      if start % 0x400 != 0 || end % 0x400 != 0 {
        return false;
      }
      ValidShape();
      var startindex, endindex := IndexOf(start), IndexOf(end);
      if endindex >= frameMapSize {
        return false;
      }
      if startindex <= endindex {
        RunHas(startindex, endindex + 1 - startindex);
        MarkRun(startindex, endindex + 1 - startindex);
      }
      return true;
    }
  }

  /** What is handed out shrinks by the size of a run just if all of the run was handed out. */
  lemma RunRemoved(outstanding: set<nat>, waiting: set<nat>, s: nat, count: nat, size: nat)
    requires outstanding !! waiting && forall i | i in outstanding + waiting :: i < size
    ensures |outstanding - Run(s, count)| == |outstanding| - count <==> Run(s, count) <= outstanding
    ensures Run(s, count) <= outstanding ==> (outstanding + waiting) - Run(s, count) == (outstanding - Run(s, count)) + waiting
  {
    RunHas(s, count);
    hide Run;
    var run := Run(s, count);
    assert outstanding == (outstanding - run) + (outstanding * run);
    assert run == (run - outstanding) + (outstanding * run);
    assert |run| == |run - outstanding| + |outstanding * run|;
    assert |run - outstanding| == 0 ==> run <= outstanding;
  }

  lemma OneRemoved(outstanding: set<nat>, waiting: set<nat>, i: nat, size: nat)
    requires outstanding !! waiting && forall j | j in outstanding + waiting :: j < size
    ensures |outstanding - {i}| == |outstanding| - if i in outstanding then 1 else 0
    ensures i !in waiting ==> (outstanding + waiting) - {i} == (outstanding - {i}) + waiting
    ensures i >= size ==> outstanding - {i} == outstanding && (outstanding + waiting) - {i} == outstanding + waiting
  {
    if i in outstanding {
      assert outstanding == (outstanding - {i}) + {i};
    } else {
      assert outstanding - {i} == outstanding;
    }
  }

  /** What is handed out grows by the size of a run just if nothing of it was handed out. */
  lemma RunAdded(outstanding: set<nat>, waiting: set<nat>, s: nat, count: nat, size: nat)
    requires outstanding !! waiting && s + count <= size
    requires forall i | i in outstanding + waiting :: i < size
    ensures |outstanding + Run(s, count)| == |outstanding| + count <==> Run(s, count) !! outstanding
    ensures (outstanding + waiting) + Run(s, count) == (outstanding + Run(s, count)) + waiting
    ensures forall i | i in (outstanding + Run(s, count)) + waiting :: i < size
  {
    RunHas(s, count);
    hide Run;
    var run := Run(s, count);
    assert outstanding + run == outstanding + (run - outstanding);
    assert |outstanding + run| == |outstanding| + |run - outstanding|;
    assert run == (run - outstanding) + (run * outstanding);
    assert |run| == |run - outstanding| + |run * outstanding|;
    assert |run * outstanding| == 0 ==> run !! outstanding;
  }

  lemma RunNone(used: set<nat>, s: nat)
    ensures used - Run(s, 0) == used && used + Run(s, 0) == used
  {
  }

  lemma RunStep(used: set<nat>, s: nat, i: nat)
    ensures used + Run(s, i) + {s + i} == used + Run(s, i + 1)
    ensures used - Run(s, i) - {s + i} == used - Run(s, i + 1)
  {
  }

  lemma RunOne(i: nat)
    ensures Run(i, 1) == {i}
  {
    assert Run(i, 0) == {};
  }

  lemma EmptyMap(map8: seq<bv8>, size: nat)
    requires size == 8 * |map8| && forall j | 0 <= j < |map8| :: map8[j] == 0
    ensures MapIs(map8, size, {})
  {
  }

  lemma TakeFirst(s: seq<nat>, c: nat)
    requires c < |s|
    ensures Elements(s[c..]) == {s[c]} + Elements(s[c + 1..])
    ensures s[c] in Elements(s[c..])
    ensures Distinct(s) ==> s[c] !in Elements(s[c + 1..])
  {
    assert s[c..] == [s[c]] + s[c + 1..];
  }

  // ------------------------------------------------------------------ sequences of frames

  ghost function Elements(s: seq<nat>): set<nat> {
    set i | i in s
  }

  ghost predicate Distinct(s: seq<nat>) {
    forall c, d | 0 <= c < d < |s| :: s[c] != s[d]
  }

  lemma ElementsEmpty()
    ensures Elements([]) == {}
  {
  }

  lemma ElementsSnoc(s: seq<nat>, i: nat)
    ensures Elements(s + [i]) == Elements(s) + {i}
    ensures Distinct(s) && i !in Elements(s) ==> Distinct(s + [i])
  {
  }

  lemma {:induction false} DistinctSize(s: seq<nat>)
    requires Distinct(s)
    ensures |Elements(s)| == |s|
  {
    if |s| > 0 {
      var init := s[..|s| - 1];
      DistinctSize(init);
      assert s == init + [s[|s| - 1]];
      ElementsSnoc(init, s[|s| - 1]);
    } else {
      ElementsEmpty();
    }
  }

  lemma MarkedIs(map8: seq<bv8>, i: nat)
    requires i / 8 < |map8|
    ensures TestBit(map8[i / 8], i % 8) <==> Marked(map8, i)
  {
  }
}
