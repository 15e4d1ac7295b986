/** kernel/src/paging.c and the parts of kernel/src/usermode.c that build, copy, change and free
    address spaces. Kernel pointers to frames are physical page numbers here; addresses that the
    source computes with stay addresses.
 */
module AddressSpaces {
  import opened PageTables
  import opened SpaceChanges
  import opened Frames

  /** Frame i of the allocator is physical page base + i. */
  ghost predicate Shifted(outstanding: set<nat>, taken: set<nat>, base: nat) {
    (forall p | p in taken :: p >= base && p - base in outstanding) &&
    (forall i | i in outstanding :: base + i in taken)
  }

  lemma ShiftedChange(outstanding: set<nat>, taken: set<nat>, base: nat, i: nat)
    requires Shifted(outstanding, taken, base)
    ensures Shifted(outstanding + {i}, taken + {base + i}, base)
    ensures Shifted(outstanding - {i}, taken - {base + i}, base)
    ensures i in outstanding <==> base + i in taken
  {
  }

  ghost function Shift(outstanding: set<nat>, base: nat): (taken: set<nat>)
    ensures Shifted(outstanding, taken, base)
  {
    set i | i in outstanding :: base + i
  }

  /** Physical addresses have 32 bits. */
  const MAX_MEMORY: nat := 0x10_0000

  /** p_to_v, which wraps around at 32 bits. */
  function KernelAddress(f: nat): nat {
    (f * FRAME_SIZE + KERNEL_BASE) % 0x1_0000_0000
  }

  class Spaces {
    const frames: FrameAllocator
    const base: nat                 // physical page number of the allocator's first frame
    const kernel: nat               // frame of page_directory
    var mem: Memory

    ghost var taken: set<nat>
    ghost var spaces: set<nat>
    ghost var owner: map<nat, Role>

    /** No processes yet: only the kernel's own directory, whose user entries are not present. */
    constructor (frames: FrameAllocator, base: nat, kernel: nat, mem: Memory)
      requires frames.Valid() && frames.framestart == KERNEL_BASE + base * FRAME_SIZE
      requires Sized(mem) && base + frames.frameMapSize <= |mem|
      requires kernel < |mem| && !(base <= kernel < base + frames.frameMapSize)
      requires forall t: nat | t < USER_TABLES :: !Present(Word(mem, kernel, t))
      ensures Valid() && spaces == {} && this.mem == mem && this.frames == frames
    {
      this.frames, this.base, this.kernel, this.mem := frames, base, kernel, mem;
      taken := Shift(frames.outstanding, base);
      spaces := {};
      owner := map[];
      new;
      EmptySystem(Sys(), Lay(), frames.outstanding, frames.frameMapSize);
    }

    ghost function Sys(): System
      reads this
    {
      System(mem, taken, spaces, owner)
    }

    ghost function Lay(): Layout {
      Layout(base, base + frames.frameMapSize, kernel)
    }

    /** taken are the allocator's outstanding frames, by physical page number. */
    ghost predicate Linked()
      reads `taken, frames, frames.frameMap, frames.cached
    {
      frames.Valid() && frames.framestart == KERNEL_BASE + base * FRAME_SIZE &&
      Shifted(frames.outstanding, taken, base)
    }

    /** The same, while frames may have been counted out too often. */
    ghost predicate Tied()
      reads `taken, frames, frames.frameMap, frames.cached
    {
      frames.Sound() && frames.framestart == KERNEL_BASE + base * FRAME_SIZE &&
      Shifted(frames.outstanding, taken, base)
    }

    /** How often. */
    ghost function Miscount(): int
      reads frames
    {
      |frames.outstanding| - frames.framesUsed
    }

    lemma LinkedIsTied()
      ensures Linked() <==> Tied() && Miscount() == 0
      ensures Tied() ==> Miscount() >= 0
    {
      hide Shifted, FrameAllocator.Valid;
      frames.ValidIsSound();
      hide MapIs, FrameAllocator.CacheValid;
    }

    /** None of all waits in the allocator's cache. */
    ghost predicate Apart(all: set<nat>)
      reads frames
    {
      frames.cachedIndex <= |frames.cacheIndices| && forall i | i in frames.Waiting() :: base + i !in all
    }

    lemma TakenApart()
      requires Tied()
      ensures Apart(taken)
    {
      hide MapIs;
      frames.SoundShape();
    }

    ghost predicate Valid()
      reads this, frames, frames.frameMap, frames.cached
    {
      Linked() && Consistent(Sys(), Lay())
    }

    /** kalloc_frame; ok is false if the kernel stopped. */
    method AllocFrame() returns (ok: bool, f: nat)
      requires Valid()
      modifies this`taken, frames, frames.frameMap, frames.cached
      ensures ok ==> Valid() && f !in old(taken) && taken == old(taken) + {f} && base <= f < base + frames.frameMapSize
      ensures ok ==> f !in owner && f !in spaces && Unreferenced(Sys(), f) && f < |mem|
    {
      hide Unreferenced, Consistent, Shifted, FrameAllocator.Valid;
      ghost var s, l := Sys(), Lay();
      var frame;
      ok, frame := frames.KallocFrame();
      if !ok {
        return false, 0;
      }
      ghost var i := frames.IndexOf(frame);
      ShiftedChange(old(frames.outstanding), taken, base, i);
      f := (frame - KERNEL_BASE) / FRAME_SIZE;
      assert f == base + i;
      FreshFrame(s, l, f);
      FrameFits(s, l, f);
      taken := taken + {f};
    }

    /** Frame f is one of the allocator's. */
    predicate Within(f: nat) {
      base <= f < base + frames.frameMapSize
    }

    /** kfree_frame, of any frame that an entry can point to, if it is not waiting in the cache. */
    method FreeFrame(f: nat, ghost all: set<nat>)
      requires Tied() && Apart(all) && f < MAX_MEMORY && (Within(f) ==> f in all)
      modifies this`taken, frames`framesUsed, frames`outstanding, frames.frameMap
      ensures Tied() && Apart(all) && taken == old(taken) - {f}
      ensures Miscount() == old(Miscount()) + if Within(f) && f !in old(taken) then 1 else 0
    {
      hide Shifted, FrameAllocator.Valid, FrameAllocator.Sound, FrameAllocator.IndexOf, MapIs, Elements;
      frames.SoundShape();
      KernelIndex(f);
      var frame := KernelAddress(f);
      ghost var index := frames.IndexOf(frame);
      if Within(f) {
        ShiftedChange(frames.outstanding, taken, base, index);
        assert f - base !in frames.Waiting();
      } else {
        Beyond(f, index);
      }
      frames.KfreeFrame(frame);
      taken := taken - {f};
    }

    /** The same, of a frame that is handed out. */
    method FreeTaken(f: nat)
      requires Linked() && f in taken
      modifies this`taken, frames`framesUsed, frames`outstanding, frames.frameMap
      ensures Linked() && taken == old(taken) - {f}
    {
      hide Shifted, FrameAllocator.Valid, FrameAllocator.Sound, Linked, Apart;
      LinkedIsTied();
      TakenApart();
      InMemory();
      if !Within(f) {
        Beyond(f, frames.frameMapSize);
      }
      FreeFrame(f, taken);
      LinkedIsTied();
    }

    /** The kernel address of a frame, and where the allocator finds it. */
    lemma KernelIndex(f: nat)
      requires frames.Shaped() && frames.framestart == KERNEL_BASE + base * FRAME_SIZE && f < MAX_MEMORY
      ensures KernelAddress(f) < 0x1_0000_0000
      ensures if Within(f) then frames.IndexOf(KernelAddress(f)) == f - base else frames.IndexOf(KernelAddress(f)) >= frames.frameMapSize
    {
    }

    lemma Beyond(f: nat, index: nat)
      requires Tied() && !Within(f) && index >= frames.frameMapSize
      ensures taken - {f} == taken && f !in taken
      ensures frames.outstanding - {index} == frames.outstanding && index !in frames.outstanding
      ensures frames.cachedIndex <= |frames.cacheIndices| && index !in frames.Waiting()
    {
      hide MapIs;
      frames.Outside(index);
      assert forall p | p in taken :: p - base in frames.outstanding + frames.Waiting();
    }

    /** The table for page v of pd, a cleared new one if there is none yet. */
    method TableFor(pd: nat, t: nat) returns (ok: bool, tbl: nat, present: bool)
      requires Valid() && pd in spaces && t < USER_TABLES
      modifies this`taken, this`mem, frames, frames.frameMap, frames.cached
      ensures present <==> Present(Word(old(mem), pd, t))
      ensures ok && present ==> Valid() && Sys() == old(Sys()) && tbl == TableOf(mem, pd, t)
      ensures ok && !present ==> Linked() && tbl !in old(taken) && taken == old(taken) + {tbl} && base <= tbl < base + frames.frameMapSize
      ensures ok && !present ==> tbl < |old(mem)| && mem == Cleared(old(mem), tbl)
      ensures ok && !present ==> Consistent(Sys().(mem := old(mem)), Lay())
      ensures ok && !present ==> tbl !in owner && Unreferenced(Sys().(mem := old(mem)), tbl) && tbl !in spaces
    {
      hide Unreferenced, Consistent, Linked, Zeros;
      present := Present(Word(mem, pd, t));
      if present {
        tbl := TableOf(mem, pd, t);
        ok := true;
      } else {
        ok, tbl := AllocFrame();
        if ok {
          mem := Cleared(mem, tbl);
        }
      }
    }

    /** map_page_wtable_pd: the table's flags are set in any case. */
    method MapPageWtable(pd: nat, physicalAddr: nat, virtualAddr: nat, pwritable: bool, pkernel: bool, twritable: bool, tkernel: bool)
      returns (ok: bool)
      requires Valid() && pd in spaces && virtualAddr < KERNEL_BASE
      requires Mappable(Sys(), Lay(), AddressEntry(physicalAddr, Flags(pwritable, pkernel)))
      modifies this`mem, this`taken, this`owner, frames, frames.frameMap, frames.cached
      ensures ok ==> Valid()
      ensures ok ==> Mapped(old(Sys()), Sys(), pd, virtualAddr / FRAME_4KB, AddressEntry(physicalAddr, Flags(pwritable, pkernel)))
      ensures ok ==> TableFlags(mem, pd, virtualAddr / FRAME_4MB, Flags(twritable, tkernel))
    {
      hide Unreferenced, Consistent, Linked, Mappable, Mapped, Cleared, Lookup, Flags, AddressEntry, Entry, Store, Word,
        TableOf, Present, Target, FrameAllocator.Valid;
      var virtualPTI := virtualAddr / FRAME_4MB;
      var virtualPI := (virtualAddr / FRAME_4KB) % 1024;
      ghost var v := virtualAddr / FRAME_4KB;
      PageIndices(virtualAddr);
      var e := AddressEntry(physicalAddr, Flags(pwritable, pkernel));
      ghost var s, l := Sys(), Lay();
      var tbl, present;
      ok, tbl, present := TableFor(pd, virtualPTI);
      if !ok {
        return;
      }
      var pde := Entry(tbl, Flags(twritable, tkernel));
      EntryParts(tbl, Flags(twritable, tkernel));
      ghost var s': System;
      if present {
        s' := MapInOldTable(s, l, pd, v, e, true, pde);
      } else {
        s' := MapInNewTable(s, Sys().(mem := s.mem), l, pd, v, e, tbl, pde);
      }
      FrameSize(mem, tbl);
      mem := Store(mem, tbl, virtualPI, e);
      FrameSize(mem, pd);
      mem := Store(mem, pd, virtualPTI, pde);
      owner := s'.owner;
      FlagsOf(mem, pd, virtualPTI, tbl, Flags(twritable, tkernel));
    }

    /** map_page_pd: flags for the page, and for the table if it is new. */
    method MapPage(pd: nat, physicalAddr: nat, virtualAddr: nat, writable: bool, kern: bool) returns (ok: bool)
      requires Valid() && pd in spaces && virtualAddr < KERNEL_BASE
      requires Mappable(Sys(), Lay(), AddressEntry(physicalAddr, Flags(writable, kern)))
      modifies this`mem, this`taken, this`owner, frames, frames.frameMap, frames.cached
      ensures ok ==> Valid()
      ensures ok ==> Mapped(old(Sys()), Sys(), pd, virtualAddr / FRAME_4KB, AddressEntry(physicalAddr, Flags(writable, kern)))
      ensures ok ==> TableAsNeeded(old(mem), mem, pd, virtualAddr / FRAME_4MB, Flags(writable, kern))
    {
      ok := MapPageWflags(pd, physicalAddr, virtualAddr, Flags(writable, kern));
    }

    /** map_page_wflags_pd: the same with the flag word given. */
    method MapPageWflags(pd: nat, physicalAddr: nat, virtualAddr: nat, flags: nat) returns (ok: bool)
      requires Valid() && pd in spaces && virtualAddr < KERNEL_BASE && flags < 4096 && Present(flags)
      requires Mappable(Sys(), Lay(), AddressEntry(physicalAddr, flags))
      modifies this`mem, this`taken, this`owner, frames, frames.frameMap, frames.cached
      ensures ok ==> Valid()
      ensures ok ==> Mapped(old(Sys()), Sys(), pd, virtualAddr / FRAME_4KB, AddressEntry(physicalAddr, flags))
      ensures ok ==> TableAsNeeded(old(mem), mem, pd, virtualAddr / FRAME_4MB, flags)
    {
      hide Unreferenced, Consistent, Linked, Mappable, Mapped, Cleared, Lookup, AddressEntry, Entry, Store, Word,
        TableOf, Present, Target, FrameAllocator.Valid;
      var virtualPTI := virtualAddr / FRAME_4MB;
      var virtualPI := (virtualAddr / FRAME_4KB) % 1024;
      ghost var v := virtualAddr / FRAME_4KB;
      PageIndices(virtualAddr);
      var e := AddressEntry(physicalAddr, flags);
      ghost var s, l := Sys(), Lay();
      var tbl, present;
      ok, tbl, present := TableFor(pd, virtualPTI);
      if !ok {
        return;
      }
      var pde := Entry(tbl, flags);
      EntryParts(tbl, flags);
      ghost var s': System;
      if present {
        s' := MapInOldTable(s, l, pd, v, e, false, pde);
      } else {
        s' := MapInNewTable(s, Sys().(mem := s.mem), l, pd, v, e, tbl, pde);
      }
      FrameSize(mem, tbl);
      mem := Store(mem, tbl, virtualPI, e);
      if !present {
        FrameSize(mem, pd);
        mem := Store(mem, pd, virtualPTI, pde);
        FlagsOf(mem, pd, virtualPTI, tbl, flags);
      }
      owner := s'.owner;
    }

    /** copy_system_pagedirectory: a directory without user pages. */
    method CopySystemDirectory() returns (ok: bool, pd: nat)
      requires Valid()
      modifies this`mem, this`taken, this`owner, this`spaces, frames, frames.frameMap, frames.cached
      ensures ok ==> Valid() && pd !in old(taken) && pd !in old(spaces) && pd !in old(owner)
      ensures ok ==> spaces == old(spaces) + {pd} && taken == old(taken) + {pd} && owner == old(owner)[pd := Dir(pd)]
      ensures ok ==> SameOutside(old(mem), mem, {pd}) && forall q | q in old(spaces) :: SameMap(old(mem), mem, q)
      ensures ok ==> forall v: nat | v < USER_PAGES :: !Present(Lookup(mem, pd, v))
      ensures ok ==> forall t: nat :: Word(mem, pd, t) == Word(old(mem), kernel, t)
      ensures ok ==> forall t: nat | t < USER_TABLES :: !Present(Word(mem, pd, t))
    {
      hide Unreferenced, Consistent, Linked, Lookup, Present, SameMap, FrameAllocator.Valid;
      ok, pd := AllocFrame();
      if !ok {
        return;
      }
      ghost var s' := NewSpace(Sys(), Lay(), pd);
      mem := mem[pd := mem[kernel]];
      spaces := spaces + {pd};
      owner := owner[pd := Dir(pd)];
    }

    /** The body of forkProcess's loops: page j of table i. */
    method ForkPage(parent: nat, child: nat, i: nat, j: nat, pt: nat, ghost s0: System) returns (ok: bool)
      requires Valid() && i < USER_TABLES && j < ENTRIES && child in spaces
      requires Present(Word(mem, parent, i)) && pt == TableOf(mem, parent, i)
      requires ForkFrame(s0, Sys(), Lay(), parent, child) && Forking(s0, Sys(), parent, child, i * ENTRIES + j)
      requires ChildDirectory(s0.mem, mem, kernel, child)
      modifies this`mem, this`taken, this`owner, frames, frames.frameMap, frames.cached
      ensures ok ==> Valid() && child in spaces
      ensures ok ==> ForkFrame(s0, Sys(), Lay(), parent, child) && Forking(s0, Sys(), parent, child, i * ENTRIES + j + 1)
      ensures ok ==> ChildDirectory(s0.mem, mem, kernel, child)
    {
      hide Consistent, Linked, FrameAllocator.Valid, ForkFrame, Forking, Mapped, Mappable, Unreferenced, SameOutside, SameMap,
        Present, Writable, Target, Word, AddressEntry, Flags, ChildDirectory, TableFlags;
      ghost var v, s, l := i * ENTRIES + j, Sys(), Lay();
      LookupParts(mem, parent, i, j);
      var entry := Word(mem, pt, j);
      if !Present(entry) {
        ForkAbsent(s0, s, l, parent, child, v, v + 1);
        return true;
      }
      PageFacts(s0, s, l, parent, child, v);
      var pageLoc := Target(entry);
      var virtualAddr := i * FRAME_4MB + j * FRAME_4KB;
      PageAddress(i, j);
      PageIndices(virtualAddr);
      if Writable(entry) {
        var pageframe;
        ok, pageframe := AllocFrame();
        if !ok {
          return;
        }
        ghost var sa := Sys();
        mem := mem[pageframe := mem[pageLoc]];
        ghost var sc := Sys();
        CopyFacts(sa, l, pageframe, pageLoc);
        CopyOutside(sa.mem, pageframe, pageLoc);
        ChildDirectoryCopy(s0.mem, sa, l, mem, child, pageframe);
        FrameAddress(pageframe, Flags(true, false));
        ok := MapPageWtable(child, pageframe * FRAME_4KB, virtualAddr, true, false, true, false);
        if !ok {
          return;
        }
        ForkWritable(s0, s, sc, Sys(), l, parent, child, v, pageframe);
        ChildDirectoryStep(s0.mem, sc, Sys(), kernel, child, v, Entry(pageframe, Flags(true, false)));
      } else {
        FrameAddress(pageLoc, Flags(false, false));
        ok := MapPageWtable(child, pageLoc * FRAME_4KB, virtualAddr, false, false, true, false);
        if !ok {
          return;
        }
        ForkReadOnly(s0, s, Sys(), l, parent, child, v, pageLoc);
        ChildDirectoryStep(s0.mem, s, Sys(), kernel, child, v, Entry(pageLoc, Flags(false, false)));
      }
    }

    /** forkProcess, as far as the address space is concerned: every page of the parent is there in
        the child with the same content, writable pages in frames of their own, and the processor lets
        the child read all of them and write the writable ones; nothing changes for any process that was there, and what the child owns is exactly what has been allocated. */
    method ForkSpace(parent: nat) returns (ok: bool, child: nat)
      requires Valid() && parent in spaces
      modifies this`mem, this`taken, this`owner, this`spaces, frames, frames.frameMap, frames.cached
      ensures ok ==> Valid() && child !in old(spaces) && spaces == old(spaces) + {child}
      ensures ok ==> forall v: nat | v < USER_PAGES :: ForkedPage(old(Sys()), Sys(), parent, child, v)
      ensures ok ==> forall v: nat | v < USER_PAGES :: ChildMay(old(mem), mem, parent, child, v)
      ensures ok ==> forall t: nat | t >= USER_TABLES :: Word(mem, child, t) == Word(old(mem), kernel, t)
      ensures ok ==> forall q | q in old(spaces) :: SameMap(old(mem), mem, q)
      ensures ok ==> SameOutside(old(mem), mem, taken - old(taken)) && old(taken) <= taken
      ensures ok ==> OthersOwn(Sys(), child) == old(owner) && Loose(Sys()) == Loose(old(Sys()))
    {
      hide Consistent, Linked, FrameAllocator.Valid, ForkFrame, Forking, ForkedPage, Mapped, Mappable, Unreferenced, SameOutside,
        SameMap, Present, Writable, Target, Word, OthersOwn, Loose, Lookup, ChildDirectory, UserReaches, UserWrites;
      ghost var s0, l := Sys(), Lay();
      ok, child := CopySystemDirectory();
      if !ok {
        return;
      }
      ForkStart(s0, Sys(), l, parent, child);
      ChildDirectoryStart(s0.mem, mem, kernel, child);
      for i := 0 to USER_TABLES
        invariant Valid() && child in spaces && ForkFrame(s0, Sys(), l, parent, child)
        invariant Forking(s0, Sys(), parent, child, i * ENTRIES) && ChildDirectory(s0.mem, mem, kernel, child)
      {
        if Present(Word(mem, parent, i)) {
          var pt := TableOf(mem, parent, i);
          for j := 0 to ENTRIES
            invariant Valid() && child in spaces && ForkFrame(s0, Sys(), l, parent, child)
            invariant Forking(s0, Sys(), parent, child, i * ENTRIES + j) && ChildDirectory(s0.mem, mem, kernel, child)
            invariant Present(Word(mem, parent, i)) && pt == TableOf(mem, parent, i)
          {
            ghost var s := Sys();
            ok := ForkPage(parent, child, i, j, pt, s0);
            if !ok {
              return;
            }
            TableStays(s0, s, Sys(), l, parent, child, i);
          }
        } else {
          AbsentTable(mem, parent, i);
          ForkAbsent(s0, Sys(), l, parent, child, i * ENTRIES, (i + 1) * ENTRIES);
        }
      }
      ForkDone(s0, Sys(), l, parent, child);
      forall v: nat | v < USER_PAGES ensures ChildMay(s0.mem, mem, parent, child, v) {
        ChildReaches(s0, Sys(), kernel, parent, child, v);
      }
      KernelPartIs(s0.mem, mem, kernel, child);
      ok := true;
    }

    /** A process writes word i of its page v. */
    method WriteUser(pd: nat, v: nat, i: nat, w: nat)
      requires Valid() && pd in spaces && v < USER_PAGES && i < ENTRIES
      requires Present(Lookup(mem, pd, v)) && Writable(Lookup(mem, pd, v))
      modifies this`mem
      ensures Valid() && forall q | q in spaces :: SameMap(old(mem), mem, q)
      ensures ReadUser(mem, pd, v, i) == w
      ensures forall q: nat, u: nat, j: nat | q in spaces && u < USER_PAGES && Present(Lookup(mem, q, u)) && (q != pd || u != v || j != i) ::
                ReadUser(mem, q, u, j) == ReadUser(old(mem), q, u, j)
    {
      hide Consistent, Linked, FrameAllocator.Valid, SameMap, ReadUser, Lookup, Present, Writable, Target, Store;
      ghost var s, l := Sys(), Lay();
      WriteIsolated(s, l, pd, v, i, w);
      mem := Store(mem, Target(Lookup(mem, pd, v)), i, w);
    }

    /** The body of freeProcessPagedirectory's inner loop. */
    method FreePage(pd: nat, freeReadOnly: bool, i: nat, j: nat, pt: nat, ghost s: System, ghost gone: set<nat>) returns (ghost gone': set<nat>)
      requires Tied() && Apart(s.taken) && mem == s.mem && Consistent(s, Lay()) && pd in s.spaces && i < USER_TABLES && j < ENTRIES
      requires Present(Word(mem, pd, i)) && pt == TableOf(mem, pd, i) && (freeReadOnly ==> |mem| <= MAX_MEMORY)
      requires taken == s.taken - gone && GoneIs(s, pd, freeReadOnly, gone, i * ENTRIES + j, i)
      requires Miscount() == 0 <==> FreedOnce(s, Lay(), pd, freeReadOnly, i * ENTRIES + j)
      modifies this`taken, frames`framesUsed, frames`outstanding, frames.frameMap
      ensures Tied() && Apart(s.taken) && taken == s.taken - gone'
      ensures GoneIs(s, pd, freeReadOnly, gone', i * ENTRIES + j + 1, i)
      ensures Miscount() == 0 <==> FreedOnce(s, Lay(), pd, freeReadOnly, i * ENTRIES + j + 1)
    {
      hide Consistent, Tied, Apart, FrameAllocator.Valid, GoneIs, FreedOnce, Word, Present, Writable, Target, Lookup;
      ghost var v := i * ENTRIES + j;
      LookupParts(mem, pd, i, j);
      var entry := Word(mem, pt, j);
      gone' := gone;
      LinkedIsTied();
      if Present(entry) && (Writable(entry) || freeReadOnly) {
        PageFreed(s, Lay(), pd, freeReadOnly, gone, v, i);
        InMemory();
        gone' := gone + {Target(entry)};
      } else {
        NothingFreed(s, Lay(), pd, freeReadOnly, v);
      }
      if Present(entry) {
        if Writable(entry) {
          FreeFrame(Target(entry), s.taken);
        } else if freeReadOnly {
          FreeFrame(Target(entry), s.taken);
        }
      }
      GoneStep(s, pd, freeReadOnly, gone, v, i);
    }

    /** The allocator's frames are frames of the memory. */
    lemma InMemory()
      requires Tied()
      ensures base + frames.frameMapSize <= MAX_MEMORY
    {
      frames.SoundShape();
    }

    /** freeProcessPagedirectory: the process's writable pages, tables and directory go back to the
        allocator, read-only pages only on demand. That keeps all in order just if read-only pages are
        left alone, or each of their frames belongs to one page of one process. */
    method FreeSpace(pd: nat, freeReadOnly: bool)
      requires Valid() && pd in spaces && (freeReadOnly ==> |mem| <= MAX_MEMORY)
      modifies this`taken, this`spaces, this`owner, frames`framesUsed, frames`outstanding, frames.frameMap
      ensures spaces == old(spaces) - {pd} && owner == OthersOwn(old(Sys()), pd)
      ensures forall f :: f in taken <==> f in old(taken) && f !in Owned(old(Sys()), pd) &&
                                          !(freeReadOnly && MapsReadOnly(old(Sys()), pd, f))
      ensures Tied() && (Valid() <==> freeReadOnly ==> SoleReadOnly(old(Sys()), Lay(), pd))
      ensures Linked() <==> freeReadOnly ==> NoneTwice(old(Sys()), Lay(), pd, USER_PAGES)
      ensures Consistent(Sys(), Lay()) <==> freeReadOnly ==> Unshared(old(Sys()), Lay(), pd)
    {
      hide Consistent, Linked, Tied, Apart, FrameAllocator.Valid, GoneIs, FreedOnce, NoneTwice, Unshared, Word, Present, Writable, Target,
        Lookup, Owned, MapsReadOnly, OthersOwn;
      ghost var s, l := Sys(), Lay();
      ghost var gone: set<nat> := {};
      GoneStart(s, pd, freeReadOnly);
      LinkedIsTied();
      TakenApart();
      InMemory();
      NoneFreed(s, l, pd, freeReadOnly);
      for i := 0 to USER_TABLES
        invariant Tied() && Apart(s.taken) && taken == s.taken - gone && spaces == s.spaces && owner == s.owner
        invariant GoneIs(s, pd, freeReadOnly, gone, i * ENTRIES, i)
        invariant Miscount() == 0 <==> FreedOnce(s, l, pd, freeReadOnly, i * ENTRIES)
      {
        if Present(Word(mem, pd, i)) {
          var pt := TableOf(mem, pd, i);
          for j := 0 to ENTRIES
            invariant Tied() && Apart(s.taken) && taken == s.taken - gone && spaces == s.spaces && owner == s.owner
            invariant GoneIs(s, pd, freeReadOnly, gone, i * ENTRIES + j, i)
            invariant Miscount() == 0 <==> FreedOnce(s, l, pd, freeReadOnly, i * ENTRIES + j)
          {
            gone := FreePage(pd, freeReadOnly, i, j, pt, s, gone);
          }
          TableNotGone(s, l, pd, freeReadOnly, gone, i);
          TakenWithin(s, l, pt);
          FreeFrame(pt, s.taken);
          GoneTable(s, pd, freeReadOnly, gone, i);
          gone := gone + {pt};
        } else {
          GoneAbsent(s, pd, freeReadOnly, gone, i);
          AbsentTable(mem, pd, i);
          NothingFreedFrom(s, l, pd, freeReadOnly, i * ENTRIES, (i + 1) * ENTRIES);
        }
      }
      DirNotGone(s, l, pd, freeReadOnly, gone);
      TakenWithin(s, l, pd);
      FreeFrame(pd, s.taken);
      ghost var all := gone + {pd};
      GoneDone(s, l, pd, freeReadOnly, gone, all);
      assert taken == s.taken - all;
      spaces := spaces - {pd};
      owner := owner - all;
      FreeingSharedPages(s, Sys(), l, pd, freeReadOnly, all);
      LinkedIsTied();
      FreedOnceIs(s, l, pd, freeReadOnly);
    }

    /** A fork whose child is terminated: the allocator and all owners are as before, and no process
        has changed, whatever the child has written meanwhile. */
    method ForkAndTerminate(parent: nat, v: nat, i: nat, w: nat) returns (ok: bool)
      requires Valid() && parent in spaces && v < USER_PAGES && i < ENTRIES
      requires Present(Lookup(mem, parent, v)) && Writable(Lookup(mem, parent, v))
      modifies this`mem, this`taken, this`owner, this`spaces, frames, frames.frameMap, frames.cached
      ensures ok ==> Valid() && taken == old(taken) && owner == old(owner) && spaces == old(spaces)
      ensures ok ==> forall q, u: nat | q in spaces && u < USER_PAGES :: Lookup(mem, q, u) == Lookup(old(mem), q, u)
      ensures ok ==> forall q, u: nat, j: nat | q in spaces && u < USER_PAGES && Present(Lookup(old(mem), q, u)) ::
                       ReadUser(mem, q, u, j) == ReadUser(old(mem), q, u, j)
    {
      hide *;
      ghost var s0, l := Sys(), Lay();
      SysIs();
      ValidConsistent();
      var child;
      ok, child := ForkSpace(parent);
      if !ok {
        return;
      }
      ghost var s1 := Sys();
      SysIs();
      assert ForkedPage(s0, s1, parent, child, v);
      ForkedWritable(s0, s1, parent, child, v);
      ValidConsistent();
      WriteUser(child, v, i, w);
      ghost var s2 := Sys();
      SysIs();
      ValidConsistent();
      SameOwners(s1, s2, child);
      FreeSpace(child, false);
      SysIs();
      TerminateRestores(s0, s2, Sys(), l, child);
      NobodyElse(s0, s1, s2, l, parent, child);
      assert spaces == s0.spaces;
      assert mem == s2.mem && s0.mem == old(mem);
    }

    /** A new page of pd, read-only. */
    method AddReadOnly(pd: nat, virtualAddr: nat) returns (ok: bool, f: nat)
      requires Valid() && pd in spaces && virtualAddr < KERNEL_BASE
      modifies this`mem, this`taken, this`owner, frames, frames.frameMap, frames.cached
      ensures ok ==> Valid() && spaces == old(spaces) && |mem| == |old(mem)|
      ensures ok ==> Within(f) && f < |mem| && f in taken && f !in owner && virtualAddr / FRAME_4KB < USER_PAGES
      ensures ok ==> ReadOnlyAt(mem, pd, virtualAddr / FRAME_4KB, f)
    {
      hide *;
      ok, f := AllocFrame();
      if !ok {
        return;
      }
      WithinIs(f);
      ghost var s, l := Sys(), Lay();
      SysIs();
      ReadOnlyEntry(s, l, f);
      ValidConsistent();
      ok := MapPage(pd, f * FRAME_4KB, virtualAddr, false, false);
      SysIs();
      if ok {
        MappedReadOnly(s, Sys(), l, pd, virtualAddr, f);
      }
    }

    /** An input with which freeProcessPagedirectory frees what another process uses: pd has a read-only
        page when it forks. The child then has that page in a frame that can be handed out again. */
    method FreeShared(pd: nat, virtualAddr: nat) returns (ok: bool, child: nat, f: nat)
      requires Valid() && pd in spaces && virtualAddr < KERNEL_BASE && |mem| <= MAX_MEMORY
      modifies this`mem, this`taken, this`owner, this`spaces, frames, frames.frameMap, frames.cached
      ensures ok ==> !Valid() && child in spaces && Within(f) && f !in taken
      ensures ok ==> ReadOnlyAt(mem, child, virtualAddr / FRAME_4KB, f)
    {
      hide *;
      child := 0;
      ok, f := AddReadOnly(pd, virtualAddr);
      if !ok {
        return;
      }
      ghost var s, l := Sys(), Lay();
      SysIs();
      WithinIs(f);
      ok, child := ForkSpace(pd);
      if !ok {
        return;
      }
      SysIs();
      SharedNow(s, Sys(), l, pd, child, virtualAddr, f);
      FreeSpace(pd, true);
      ValidParts();
    }

    /** An input with which it frees a frame twice: two read-only pages of pd are in the same frame. Then
        the allocator counts fewer frames than it has handed out. */
    method FreeTwice(pd: nat, virtualAddr1: nat, virtualAddr2: nat) returns (ok: bool)
      requires Valid() && pd in spaces && virtualAddr1 < KERNEL_BASE && virtualAddr2 < KERNEL_BASE && |mem| <= MAX_MEMORY
      requires virtualAddr1 / FRAME_4KB != virtualAddr2 / FRAME_4KB
      modifies this`mem, this`taken, this`owner, this`spaces, frames, frames.frameMap, frames.cached
      ensures ok ==> !Valid() && Tied() && frames.framesUsed < |frames.outstanding|
    {
      assert FRAME_4KB == 4096;
      hide *;
      var f;
      ok, f := AddReadOnly(pd, virtualAddr1);
      if !ok {
        return;
      }
      ghost var s1, l := Sys(), Lay();
      SysIs();
      ReadOnlyEntry(s1, l, f);
      ValidConsistent();
      ok := MapPage(pd, f * FRAME_4KB, virtualAddr2, false, false);
      if !ok {
        return;
      }
      ghost var s2 := Sys();
      SysIs();
      MappedReadOnly(s1, s2, l, pd, virtualAddr2, f);
      StaysMapped(s1, s2, pd, virtualAddr1 / FRAME_4KB, virtualAddr2, f);
      WithinIs(f);
      FreeSpace(pd, true);
      TwiceReadOnly(s2, l, pd, virtualAddr1 / FRAME_4KB, virtualAddr2 / FRAME_4KB, f);
      LinkedIsTied();
      MiscountIs();
      ValidParts();
    }

    lemma WithinIs(f: nat)
      ensures Within(f) <==> Lay().lo <= f < Lay().hi
      ensures Within(f) <==> base <= f < base + frames.frameMapSize
    {
    }

    lemma ValidParts()
      ensures Valid() <==> Linked() && Consistent(Sys(), Lay())
    {
    }

    lemma MiscountIs()
      ensures Miscount() == |frames.outstanding| - frames.framesUsed
    {
    }

    lemma SysIs()
      ensures Sys() == System(mem, taken, spaces, owner)
    {
    }

    lemma ValidConsistent()
      requires Valid()
      ensures Consistent(Sys(), Lay())
    {
    }

  }

  /** A present table's entry in the directory is kept, a new one gets these flags. */
  ghost predicate TableAsNeeded(mem: Memory, mem': Memory, pd: nat, t: nat, flags: nat) {
    if Present(Word(mem, pd, t)) then Word(mem', pd, t) == Word(mem, pd, t) else TableFlags(mem', pd, t, flags)
  }

  lemma FlagsOf(mem: Memory, pd: nat, t: nat, tbl: nat, flags: nat)
    requires flags < 4096 && Word(mem, pd, t) == Entry(tbl, flags)
    ensures TableFlags(mem, pd, t, flags)
  {
    EntryParts(tbl, flags);
  }

  lemma FrameSize(mem: Memory, f: nat)
    requires Sized(mem) && f < |mem|
    ensures |mem[f]| == ENTRIES
  {
  }

  lemma FrameFits(s: System, l: Layout, f: nat)
    requires Consistent(s, l) && l.lo <= f < l.hi
    ensures f < |s.mem|
  {
  }

  lemma EmptySystem(s: System, l: Layout, outstanding: set<nat>, size: nat)
    requires s.spaces == {} && s.owner == map[] && Sized(s.mem)
    requires Shifted(outstanding, s.taken, l.lo) && (forall i | i in outstanding :: i < size) && l.hi == l.lo + size
    requires l.hi <= |s.mem| && l.kernel < |s.mem| && !(l.lo <= l.kernel < l.hi)
    requires forall t: nat | t < USER_TABLES :: !Present(Word(s.mem, l.kernel, t))
    ensures Consistent(s, l)
  {
  }
}
