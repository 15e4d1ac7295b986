/** munmapProcess of kernel/src/usermode.c, and what mmapProcess and munmapProcess do together. */
module Unmapping {
  import opened PageTables
  import opened SpaceChanges
  import opened Frames
  import opened AddressSpaces
  import opened MemoryMaps

  /** Page u was mapped by mmapProcess. */
  ghost predicate Anonymous(mem: Memory, pd: nat, u: nat) {
    u < USER_PAGES && Present(Lookup(mem, pd, u)) && Mmapped(Lookup(mem, pd, u))
  }

  /** How many of the pages p0 .. p-1 were. */
  ghost function AnonymousFrom(mem: Memory, pd: nat, p0: nat, p: nat): nat {
    if p <= p0 then 0 else AnonymousFrom(mem, pd, p0, p - 1) + if Anonymous(mem, pd, p - 1) then 1 else 0
  }

  /** munmapProcess unmaps the first chunks anonymous pages from p0 on, wherever they are. */
  ghost predicate Unmaps(mem: Memory, pd: nat, p0: nat, chunks: nat, u: nat) {
    p0 <= u && Anonymous(mem, pd, u) && AnonymousFrom(mem, pd, p0, u) < chunks
  }

  /** Frame f holds one of these pages, before p. */
  ghost predicate GivesBack(s0: System, pd: nat, p0: nat, chunks: nat, p: nat, f: nat) {
    f in s0.owner && s0.owner[f].Page? && s0.owner[f].pd == pd && s0.owner[f].v < p &&
    Unmaps(s0.mem, pd, p0, chunks, s0.owner[f].v)
  }

  ghost predicate IsTable(s0: System, pd: nat, f: nat) {
    f in s0.owner && s0.owner[f].Table? && s0.owner[f].pd == pd
  }

  /** The pages below p have been dealt with: what is unmapped is absent, its frame is back with the
      allocator and without an owner, and everything else is as before. */
  ghost predicate Shrunk(s0: System, s: System, l: Layout, pd: nat, p0: nat, chunks: nat, p: nat) {
    Consistent(s, l) && pd in s.spaces && s.spaces == s0.spaces && |s.mem| == |s0.mem| &&
    (forall q | q in s0.spaces && q != pd :: SameMap(s0.mem, s.mem, q)) &&
    (forall u: nat | u < USER_PAGES ::
       Lookup(s.mem, pd, u) == if u < p && Unmaps(s0.mem, pd, p0, chunks, u) then 0 else Lookup(s0.mem, pd, u)) &&
    (forall f: nat | f < |s0.mem| && !IsTable(s0, pd, f) :: s.mem[f] == s0.mem[f]) &&
    (forall f :: f in s.taken <==> f in s0.taken && !GivesBack(s0, pd, p0, chunks, p, f)) &&
    (forall f :: f in s.owner <==> f in s0.owner && !GivesBack(s0, pd, p0, chunks, p, f)) &&
    (forall f | f in s.owner :: s.owner[f] == s0.owner[f])
  }

  lemma ShrunkStart(s0: System, l: Layout, pd: nat, p0: nat, chunks: nat)
    requires Consistent(s0, l) && pd in s0.spaces
    ensures Shrunk(s0, s0, l, pd, p0, chunks, p0) && AnonymousFrom(s0.mem, pd, p0, p0) == 0
  {
    hide Consistent, Lookup, Anonymous;
    forall f ensures !GivesBack(s0, pd, p0, chunks, p0, f) {
    }
  }

  /** Pages that are not anonymous are passed over. */
  lemma {:induction false} PassOver(s0: System, s: System, l: Layout, pd: nat, p0: nat, chunks: nat, p: nat, p': nat)
    requires Shrunk(s0, s, l, pd, p0, chunks, p) && p0 <= p <= p'
    requires forall u: nat | p <= u < p' :: !Anonymous(s0.mem, pd, u)
    ensures Shrunk(s0, s, l, pd, p0, chunks, p') && AnonymousFrom(s0.mem, pd, p0, p') == AnonymousFrom(s0.mem, pd, p0, p)
    decreases p'
  {
    hide *;
    if p < p' {
      PassOver(s0, s, l, pd, p0, chunks, p, p' - 1);
      PassOne(s0, s, l, pd, p0, chunks, p' - 1);
    }
  }

  lemma PassOne(s0: System, s: System, l: Layout, pd: nat, p0: nat, chunks: nat, p: nat)
    requires Shrunk(s0, s, l, pd, p0, chunks, p) && p0 <= p && !Anonymous(s0.mem, pd, p)
    ensures Shrunk(s0, s, l, pd, p0, chunks, p + 1) && AnonymousFrom(s0.mem, pd, p0, p + 1) == AnonymousFrom(s0.mem, pd, p0, p)
  {
    hide Consistent, Lookup, Anonymous, SameMap, IsTable;
    forall f ensures GivesBack(s0, pd, p0, chunks, p + 1, f) <==> GivesBack(s0, pd, p0, chunks, p, f) {
    }
  }

  lemma {:induction false} CountGrows(mem: Memory, pd: nat, p0: nat, p: nat, p': nat)
    requires p <= p'
    ensures AnonymousFrom(mem, pd, p0, p) <= AnonymousFrom(mem, pd, p0, p')
    decreases p'
  {
    if p < p' {
      CountGrows(mem, pd, p0, p, p' - 1);
    }
  }

  /** Once enough pages have been unmapped, the others stay. */
  lemma Enough(s0: System, s: System, l: Layout, pd: nat, p0: nat, chunks: nat, p: nat)
    requires Shrunk(s0, s, l, pd, p0, chunks, p) && p0 <= p
    requires AnonymousFrom(s0.mem, pd, p0, p) >= chunks || p >= USER_PAGES
    ensures Shrunk(s0, s, l, pd, p0, chunks, USER_PAGES)
  {
    forall u: nat | p <= u < USER_PAGES ensures !Unmaps(s0.mem, pd, p0, chunks, u) {
      CountGrows(s0.mem, pd, p0, p, u);
    }
    hide Consistent, Lookup, Anonymous, SameMap, IsTable, AnonymousFrom, Unmaps;
    forall f ensures GivesBack(s0, pd, p0, chunks, USER_PAGES, f) <==> GivesBack(s0, pd, p0, chunks, p, f) {
      if GivesBack(s0, pd, p0, chunks, p, f) {
        Bounded(s0, pd, p0, chunks, s0.owner[f].v);
      }
    }
    forall u: nat | u < USER_PAGES
      ensures (u < p && Unmaps(s0.mem, pd, p0, chunks, u)) <==> (u < USER_PAGES && Unmaps(s0.mem, pd, p0, chunks, u))
    {
    }
  }

  lemma Bounded(s0: System, pd: nat, p0: nat, chunks: nat, u: nat)
    requires Unmaps(s0.mem, pd, p0, chunks, u)
    ensures u < USER_PAGES
  {
  }

  // ------------------------------------------------------------------------ the range

  lemma {:induction false} CountBound(mem: Memory, pd: nat, p0: nat, p: nat)
    requires p0 <= p
    ensures AnonymousFrom(mem, pd, p0, p) <= p - p0
    decreases p
  {
    if p0 < p {
      CountBound(mem, pd, p0, p - 1);
    }
  }

  /** The first anonymous page from p on, if u is one. */
  lemma {:induction false} FirstAnonymous(mem: Memory, pd: nat, p0: nat, p: nat, u: nat) returns (v: nat)
    requires p0 <= p <= u && Anonymous(mem, pd, u)
    ensures p <= v <= u && Anonymous(mem, pd, v) && AnonymousFrom(mem, pd, p0, v) == AnonymousFrom(mem, pd, p0, p)
    decreases u - p
  {
    if Anonymous(mem, pd, p) {
      v := p;
    } else {
      v := FirstAnonymous(mem, pd, p0, p + 1, u);
    }
  }

  /** munmapProcess stays inside the range that was asked for just if all pages of the range are
      anonymous, or no page behind it is. */
  lemma StaysInRange(mem: Memory, pd: nat, p0: nat, chunks: nat)
    ensures (forall u: nat :: Unmaps(mem, pd, p0, chunks, u) ==> u < p0 + chunks) <==>
            (AnonymousFrom(mem, pd, p0, p0 + chunks) == chunks || forall u: nat | u >= p0 + chunks :: !Anonymous(mem, pd, u))
  {
    CountBound(mem, pd, p0, p0 + chunks);
    if AnonymousFrom(mem, pd, p0, p0 + chunks) == chunks {
      forall u: nat | u >= p0 + chunks ensures !Unmaps(mem, pd, p0, chunks, u) {
        CountGrows(mem, pd, p0, p0 + chunks, u);
      }
    } else if u: nat :| u >= p0 + chunks && Anonymous(mem, pd, u) {
      var v := FirstAnonymous(mem, pd, p0, p0 + chunks, u);
      assert Unmaps(mem, pd, p0, chunks, v);
    }
  }

  /** A child has no anonymous pages of its parent: munmapProcess finds none of them. */
  lemma ForkLosesMark(s: System, s': System, parent: nat, child: nat, p0: nat, chunks: nat, u: nat)
    requires forall v: nat | v < USER_PAGES :: ForkedPage(s, s', parent, child, v)
    ensures !Anonymous(s'.mem, child, u) && !Unmaps(s'.mem, child, p0, chunks, u)
  {
    if u < USER_PAGES {
      assert ForkedPage(s, s', parent, child, u);
    }
  }

  // ------------------------------------------------------------------------- one page

  /** A writable page that is unmapped: its entry is 0 and its frame free. */
  lemma ReleasePage(s: System, l: Layout, pd: nat, v: nat, tbl: nat, f: nat) returns (s': System)
    requires Consistent(s, l) && pd in s.spaces && v < USER_PAGES && Present(Lookup(s.mem, pd, v)) && Writable(Lookup(s.mem, pd, v))
    requires tbl == TableOf(s.mem, pd, v / ENTRIES) && f == Target(Lookup(s.mem, pd, v))
    ensures tbl < |s.mem| && |s.mem[tbl]| == ENTRIES && Owns(s, tbl, Table(pd, v / ENTRIES)) && Owns(s, f, Page(pd, v)) && f in s.taken
    ensures s' == s.(mem := Store(s.mem, tbl, v % ENTRIES, 0), taken := s.taken - {f}, owner := s.owner - {f})
    ensures Consistent(s', l) && SameOutside(s.mem, s'.mem, {tbl})
    ensures forall u: nat | u < USER_PAGES :: Lookup(s'.mem, pd, u) == if u == v then 0 else Lookup(s.mem, pd, u)
    ensures forall q | q in s.spaces && q != pd :: SameMap(s.mem, s'.mem, q)
  {
    PageOwner(s, l, pd, v);
    var s1 := SetPage(s, l, pd, v, 0);
    hide Lookup, Word, SameOutside, SameMap, Store, Target, Writable, Present;
    AfterRelease(s, s1, l, pd, v, f);
    NoEntry();
    assert s1.owner == s.owner - {f};
    s' := DropFrame(s1, l, f);
  }

  lemma PageOwner(s: System, l: Layout, pd: nat, v: nat)
    requires Consistent(s, l) && pd in s.spaces && v < USER_PAGES && Present(Lookup(s.mem, pd, v))
    ensures Present(Word(s.mem, pd, v / ENTRIES))
    ensures Owns(s, TableOf(s.mem, pd, v / ENTRIES), Table(pd, v / ENTRIES))
    ensures Writable(Lookup(s.mem, pd, v)) ==> Owns(s, Target(Lookup(s.mem, pd, v)), Page(pd, v)) && Target(Lookup(s.mem, pd, v)) in s.taken
    ensures Mmapped(Lookup(s.mem, pd, v)) ==> Writable(Lookup(s.mem, pd, v))
  {
    assert SpaceOwned(s, l, pd);
    assert PageOwned(s, l, pd, v);
    assert TableOwned(s, pd, v / ENTRIES);
  }

  /** The frame of the page has been its only use. */
  lemma AfterRelease(s: System, s1: System, l: Layout, pd: nat, v: nat, f: nat)
    requires Consistent(s, l) && pd in s.spaces && v < USER_PAGES && Owns(s, f, Page(pd, v))
    requires s1.spaces == s.spaces && s1.owner == Reowned(s.owner, pd, v, Lookup(s.mem, pd, v), 0)
    requires Present(Lookup(s.mem, pd, v)) && Writable(Lookup(s.mem, pd, v)) && f == Target(Lookup(s.mem, pd, v))
    requires forall u: nat | u < USER_PAGES :: Lookup(s1.mem, pd, u) == if u == v then 0 else Lookup(s.mem, pd, u)
    requires forall q | q in s.spaces && q != pd :: SameMap(s.mem, s1.mem, q)
    ensures Unreferenced(s1, f) && s1.owner == s.owner - {f}
  {
    NoEntry();
    forall q, u: nat | q in s1.spaces && u < USER_PAGES && Present(Lookup(s1.mem, q, u)) ensures Target(Lookup(s1.mem, q, u)) != f {
      assert SpaceOwned(s, l, q);
      assert PageOwned(s, l, q, u);
      assert q != pd ==> SameMap(s.mem, s1.mem, q);
    }
  }

  lemma DropFrame(s: System, l: Layout, f: nat) returns (s': System)
    requires Consistent(s, l) && f !in s.owner && Unreferenced(s, f)
    ensures s' == s.(taken := s.taken - {f}) && Consistent(s', l)
  {
    s' := s.(taken := s.taken - {f});
    forall q | q in s.spaces ensures SpaceOwned(s', l, q) {
      assert SpaceOwned(s, l, q);
      StaysOwned(s, s', l, q);
    }
    forall g | g in s'.owner ensures g in s'.taken && RoleHolds(s', g, s'.owner[g]) {
      assert RoleHolds(s, g, s.owner[g]);
    }
    ConsistentWhen(s, s', l);
  }

  /** Page p is the next to be unmapped. */
  lemma UnmapStep(s0: System, s: System, s': System, l: Layout, pd: nat, p0: nat, chunks: nat, p: nat, tbl: nat, f: nat)
    requires Consistent(s0, l) && Shrunk(s0, s, l, pd, p0, chunks, p) && p0 <= p < USER_PAGES
    requires Anonymous(s0.mem, pd, p) && AnonymousFrom(s0.mem, pd, p0, p) < chunks
    requires tbl < |s.mem| && Owns(s, tbl, Table(pd, p / ENTRIES)) && Owns(s, f, Page(pd, p)) && f == Target(Lookup(s.mem, pd, p))
    requires s'.taken == s.taken - {f} && s'.owner == s.owner - {f} && s'.spaces == s.spaces
    requires Consistent(s', l) && SameOutside(s.mem, s'.mem, {tbl})
    requires forall u: nat | u < USER_PAGES :: Lookup(s'.mem, pd, u) == if u == p then 0 else Lookup(s.mem, pd, u)
    requires forall q | q in s.spaces && q != pd :: SameMap(s.mem, s'.mem, q)
    ensures Shrunk(s0, s', l, pd, p0, chunks, p + 1)
    ensures AnonymousFrom(s0.mem, pd, p0, p + 1) == AnonymousFrom(s0.mem, pd, p0, p) + 1
  {
    hide Consistent, Shrunk, Lookup, Word, SameOutside, SameMap, Anonymous, AnonymousFrom, Unmaps, GivesBack, IsTable;
    ShrunkUse(s0, s, l, pd, p0, chunks, p);
    UnmapsNext(s0, l, pd, p0, chunks, p, f, s);
    ContentNext(s0, s, s', pd, p, tbl);
    forall q | q in s0.spaces && q != pd ensures SameMap(s0.mem, s'.mem, q) {
      SameMapTrans(s0.mem, s.mem, s.mem, s'.mem, q);
    }
    ShrunkIntro(s0, s, s', l, pd, p0, chunks, p, f);
  }

  lemma ShrunkUse(s0: System, s: System, l: Layout, pd: nat, p0: nat, chunks: nat, p: nat)
    requires Shrunk(s0, s, l, pd, p0, chunks, p)
    ensures pd in s.spaces && s.spaces == s0.spaces && |s.mem| == |s0.mem| && forall q | q in s0.spaces && q != pd :: SameMap(s0.mem, s.mem, q)
    ensures forall f: nat | f < |s0.mem| && !IsTable(s0, pd, f) :: s.mem[f] == s0.mem[f]
    ensures forall f | f in s.owner :: f in s0.owner && s.owner[f] == s0.owner[f]
  {
    hide Consistent, Lookup, SameMap, IsTable, GivesBack, Unmaps;
  }

  lemma UnmapsNext(s0: System, l: Layout, pd: nat, p0: nat, chunks: nat, p: nat, f: nat, s: System)
    requires Consistent(s0, l) && Owns(s, f, Page(pd, p)) && f in s0.owner && s0.owner[f] == s.owner[f] && p0 <= p
    requires Anonymous(s0.mem, pd, p) && AnonymousFrom(s0.mem, pd, p0, p) < chunks
    ensures forall g :: GivesBack(s0, pd, p0, chunks, p + 1, g) <==> GivesBack(s0, pd, p0, chunks, p, g) || g == f
    ensures Unmaps(s0.mem, pd, p0, chunks, p)
    ensures AnonymousFrom(s0.mem, pd, p0, p + 1) == AnonymousFrom(s0.mem, pd, p0, p) + 1
  {
    assert Unmaps(s0.mem, pd, p0, chunks, p);
    hide Lookup, Word, Anonymous, Unmaps, Target, Consistent;
    forall g ensures GivesBack(s0, pd, p0, chunks, p + 1, g) <==> GivesBack(s0, pd, p0, chunks, p, g) || g == f {
      if GivesBack(s0, pd, p0, chunks, p + 1, g) && !GivesBack(s0, pd, p0, chunks, p, g) {
        SamePage(s0, l, pd, p, g, f);
      }
    }
  }

  lemma ContentNext(s0: System, s: System, s': System, pd: nat, p: nat, tbl: nat)
    requires |s.mem| == |s0.mem| && forall f: nat | f < |s0.mem| && !IsTable(s0, pd, f) :: s.mem[f] == s0.mem[f]
    requires SameOutside(s.mem, s'.mem, {tbl}) && Owns(s, tbl, Table(pd, p / ENTRIES)) && tbl in s0.owner && s0.owner[tbl] == s.owner[tbl]
    ensures |s'.mem| == |s0.mem| && forall f: nat | f < |s0.mem| && !IsTable(s0, pd, f) :: s'.mem[f] == s0.mem[f]
  {
    assert IsTable(s0, pd, tbl);
  }

  lemma ShrunkIntro(s0: System, s: System, s': System, l: Layout, pd: nat, p0: nat, chunks: nat, p: nat, f: nat)
    requires Shrunk(s0, s, l, pd, p0, chunks, p) && Consistent(s', l) && |s'.mem| == |s0.mem|
    requires s'.taken == s.taken - {f} && s'.owner == s.owner - {f} && s'.spaces == s.spaces
    requires forall q | q in s0.spaces && q != pd :: SameMap(s0.mem, s'.mem, q)
    requires forall u: nat | u < USER_PAGES :: Lookup(s'.mem, pd, u) == if u == p then 0 else Lookup(s.mem, pd, u)
    requires forall g: nat | g < |s0.mem| && !IsTable(s0, pd, g) :: s'.mem[g] == s0.mem[g]
    requires forall g :: GivesBack(s0, pd, p0, chunks, p + 1, g) <==> GivesBack(s0, pd, p0, chunks, p, g) || g == f
    requires Unmaps(s0.mem, pd, p0, chunks, p)
    ensures Shrunk(s0, s', l, pd, p0, chunks, p + 1)
  {
    hide Consistent, Lookup, SameMap, IsTable, GivesBack, Unmaps;
  }

  lemma SamePage(s0: System, l: Layout, pd: nat, p: nat, g: nat, f: nat)
    requires Consistent(s0, l) && Owns(s0, g, Page(pd, p)) && Owns(s0, f, Page(pd, p))
    ensures g == f
  {
    assert RoleHolds(s0, g, s0.owner[g]) && RoleHolds(s0, f, s0.owner[f]);
  }

  // ----------------------------------------------------------------------- munmapProcess

  /** The kernel's part of the directory holds no anonymous page, and its tables belong to no process. */
  ghost predicate KernelPart(s: System, l: Layout, pd: nat) {
    forall t: nat | USER_TABLES <= t < TABLES && Present(Word(s.mem, pd, t)) :: KernelTable(s, l, TableOf(s.mem, pd, t))
  }

  ghost predicate KernelTable(s: System, l: Layout, f: nat) {
    f !in s.owner && (l.lo <= f < l.hi ==> f in s.taken) &&
    forall j: nat :: !(Present(Word(s.mem, f, j)) && Mmapped(Word(s.mem, f, j)))
  }

  /** What the loops of munmapProcess read. */
  lemma DirectoryKept(s0: System, s: System, l: Layout, pd: nat, p0: nat, chunks: nat, p: nat)
    requires Consistent(s0, l) && Shrunk(s0, s, l, pd, p0, chunks, p)
    ensures forall t: nat :: Word(s.mem, pd, t) == Word(s0.mem, pd, t)
  {
    assert SpaceOwned(s0, l, pd);
  }

  lemma KernelKept(s0: System, s: System, l: Layout, pd: nat, p0: nat, chunks: nat, p: nat, t: nat, j: nat)
    requires Consistent(s0, l) && Shrunk(s0, s, l, pd, p0, chunks, p) && KernelPart(s0, l, pd)
    requires USER_TABLES <= t < TABLES && j < ENTRIES && Present(Word(s0.mem, pd, t))
    ensures !(Present(Word(s.mem, TableOf(s0.mem, pd, t), j)) && Mmapped(Word(s.mem, TableOf(s0.mem, pd, t), j)))
  {
    hide Consistent, Lookup, SameMap;
    var f := TableOf(s0.mem, pd, t);
    assert KernelTable(s0, l, f);
    assert Word(s.mem, f, j) == Word(s0.mem, f, j);
  }

  lemma AbsentTablePages(s0: System, pd: nat, t: nat)
    requires !Present(Word(s0.mem, pd, t))
    ensures forall u: nat | t * ENTRIES <= u < (t + 1) * ENTRIES :: !Anonymous(s0.mem, pd, u)
  {
    forall u: nat | t * ENTRIES <= u < (t + 1) * ENTRIES ensures !Anonymous(s0.mem, pd, u) {
      assert u / ENTRIES == t;
    }
  }

  /** The entry that the loop looks at is that of the page p. */
  lemma EntryIs(s0: System, s: System, l: Layout, pd: nat, p0: nat, chunks: nat, t: nat, j: nat)
    requires Consistent(s0, l) && Shrunk(s0, s, l, pd, p0, chunks, t * ENTRIES + j) && KernelPart(s0, l, pd)
    requires t < TABLES && j < ENTRIES && Present(Word(s0.mem, pd, t))
    ensures var e := Word(s.mem, TableOf(s0.mem, pd, t), j);
            (Present(e) && Mmapped(e) <==> Anonymous(s0.mem, pd, t * ENTRIES + j)) &&
            (Anonymous(s0.mem, pd, t * ENTRIES + j) ==> e == Lookup(s.mem, pd, t * ENTRIES + j) == Lookup(s0.mem, pd, t * ENTRIES + j))
  {
    assert ENTRIES == 1024;
    hide *;
    var u := t * ENTRIES + j;
    DirectoryKept(s0, s, l, pd, p0, chunks, u);
    TableIs(s0.mem, s.mem, pd, t);
    TablePage(s.mem, pd, t, j);
    EntryLater(s0, s, l, pd, p0, chunks, u);
    UserPage(t, j);
    if t >= USER_TABLES {
      KernelKept(s0, s, l, pd, p0, chunks, u, t, j);
      BeyondUser(s0.mem, pd, t, j);
    } else {
      AnonymousIs(s0.mem, pd, u);
    }
  }

  lemma EntryLater(s0: System, s: System, l: Layout, pd: nat, p0: nat, chunks: nat, u: nat)
    requires Shrunk(s0, s, l, pd, p0, chunks, u)
    ensures u < USER_PAGES ==> Lookup(s.mem, pd, u) == Lookup(s0.mem, pd, u)
  {
    hide Lookup, SameMap, Consistent, Unmaps, GivesBack, IsTable;
  }

  lemma UserPage(t: nat, j: nat)
    requires j < ENTRIES
    ensures t < USER_TABLES ==> t * ENTRIES + j < USER_PAGES
  {
  }

  lemma BeyondUser(mem: Memory, pd: nat, t: nat, j: nat)
    requires t >= USER_TABLES
    ensures !Anonymous(mem, pd, t * ENTRIES + j)
  {
  }

  lemma AnonymousIs(mem: Memory, pd: nat, u: nat)
    requires u < USER_PAGES
    ensures Anonymous(mem, pd, u) <==> Present(Lookup(mem, pd, u)) && Mmapped(Lookup(mem, pd, u))
  {
  }

  /** The body of munmapProcess's inner loop. */
  method UnmapEntry(sp: Spaces, pd: nat, i: nat, j: nat, pt: nat, cleared0: nat, ghost s0: System, ghost p0: nat, chunks: nat)
    returns (cleared: nat)
    requires sp.Valid() && Consistent(s0, sp.Lay()) && KernelPart(s0, sp.Lay(), pd) && i < TABLES && j < ENTRIES && p0 <= i * ENTRIES + j
    requires Shrunk(s0, sp.Sys(), sp.Lay(), pd, p0, chunks, i * ENTRIES + j)
    requires Present(Word(s0.mem, pd, i)) && pt == TableOf(s0.mem, pd, i)
    requires cleared0 == AnonymousFrom(s0.mem, pd, p0, i * ENTRIES + j) < chunks
    modifies sp`mem, sp`taken, sp`owner, sp.frames`framesUsed, sp.frames`outstanding, sp.frames.frameMap
    ensures sp.Valid() && Shrunk(s0, sp.Sys(), sp.Lay(), pd, p0, chunks, i * ENTRIES + j + 1)
    ensures cleared == AnonymousFrom(s0.mem, pd, p0, i * ENTRIES + j + 1)
  {
    hide Consistent, Spaces.Linked, FrameAllocator.Valid, Shrunk, KernelPart, Lookup, Word, Present, Mmapped, Target, TableOf, Store,
      Anonymous, AnonymousFrom;
    ghost var p, s, l := i * ENTRIES + j, sp.Sys(), sp.Lay();
    EntryIs(s0, s, l, pd, p0, chunks, i, j);
    cleared := cleared0;
    var entry := Word(sp.mem, pt, j);
    if Present(entry) && Mmapped(entry) {
      AnonymousPage(s0, s, l, pd, p0, chunks, p, pt, i, j);
      ghost var s' := ReleasePage(s, l, pd, p, pt, Target(entry));
      UnmapStep(s0, s, s', l, pd, p0, chunks, p, pt, Target(entry));
      sp.FreeTaken(Target(entry));
      sp.mem := Store(sp.mem, pt, j, 0);
      sp.owner := sp.owner - {Target(entry)};
      cleared := cleared + 1;
    } else {
      PassOver(s0, s, l, pd, p0, chunks, p, p + 1);
    }
  }

  lemma AnonymousPage(s0: System, s: System, l: Layout, pd: nat, p0: nat, chunks: nat, p: nat, pt: nat, i: nat, j: nat)
    requires Consistent(s0, l) && Shrunk(s0, s, l, pd, p0, chunks, p) && Anonymous(s0.mem, pd, p) && p0 <= p
    requires p == i * ENTRIES + j && j < ENTRIES && pt == TableOf(s0.mem, pd, i) && Lookup(s.mem, pd, p) == Lookup(s0.mem, pd, p)
    ensures p < USER_PAGES && p / ENTRIES == i && p % ENTRIES == j && pd in s.spaces && pt == TableOf(s.mem, pd, i)
    ensures Present(Lookup(s.mem, pd, p)) && Writable(Lookup(s.mem, pd, p))
  {
    DirectoryKept(s0, s, l, pd, p0, chunks, p);
    hide Word, SameMap;
    PageOwner(s, l, pd, p);
  }

  /** munmapProcess unmaps the first anonymous pages at or after the address, as many as the length
      has pages, whether they are in the given range or not. */
  method MunmapProcess(sp: Spaces, pd: nat, address: nat, length: nat) returns (r: int, errnum: int)
    requires sp.Valid() && pd in sp.spaces && KernelPart(sp.Sys(), sp.Lay(), pd) && address < 0x1_0000_0000 && length < 0x1_0000_0000
    modifies sp`mem, sp`taken, sp`owner, sp.frames`framesUsed, sp.frames`outstanding, sp.frames.frameMap
    ensures sp.Valid()
    ensures address == 0 || length == 0 || address % FRAME_4KB != 0 ==> r == -1 && errnum == EINVAL && sp.Sys() == old(sp.Sys())
    ensures address != 0 && length != 0 && address % FRAME_4KB == 0 ==>
              r == 0 && Shrunk(old(sp.Sys()), sp.Sys(), sp.Lay(), pd, address / FRAME_4KB, UnmapChunks(length), USER_PAGES)
  {
    hide Consistent, Spaces.Linked, FrameAllocator.Valid, Shrunk, KernelPart, Lookup, Word, Present, TableOf, Anonymous, AnonymousFrom;
    errnum := 0;
    if address == 0 || length == 0 || address % FRAME_4KB != 0 {
      return -1, EINVAL;
    }
    var chunks := UnmapChunks(length);
    var cleared: nat := 0;
    ghost var s0, l, p0 := sp.Sys(), sp.Lay(), address / FRAME_4KB;
    ghost var p: nat := p0;
    FirstEntry(address);
    ShrunkStart(s0, l, pd, p0, chunks);
    var i: nat := address / FRAME_4MB;
    while i < TABLES && cleared < chunks
      invariant sp.Valid() && Shrunk(s0, sp.Sys(), l, pd, p0, chunks, p) && p0 <= p
      invariant cleared == AnonymousFrom(s0.mem, pd, p0, p) && address / FRAME_4MB <= i <= TABLES
      invariant cleared < chunks ==> if i == address / FRAME_4MB then p == p0 else p == i * ENTRIES
      decreases TABLES - i
    {
      DirectoryKept(s0, sp.Sys(), l, pd, p0, chunks, p);
      var jstart := if i == address / FRAME_4MB then (address / FRAME_4KB) % 1024 else 0;
      assert p == i * ENTRIES + jstart;
      if Present(Word(sp.mem, pd, i)) {
        var pt := TableOf(sp.mem, pd, i);
        TableIs(s0.mem, sp.mem, pd, i);
        var j := jstart;
        while j < ENTRIES && cleared < chunks
          invariant jstart <= j <= ENTRIES && p == i * ENTRIES + j && p0 <= p
          invariant sp.Valid() && Shrunk(s0, sp.Sys(), l, pd, p0, chunks, p)
          invariant cleared == AnonymousFrom(s0.mem, pd, p0, p)
        {
          cleared := UnmapEntry(sp, pd, i, j, pt, cleared, s0, p0, chunks);
          j := j + 1;
          p := p + 1;
        }
      } else {
        AbsentTablePages(s0, pd, i);
        PassOver(s0, sp.Sys(), l, pd, p0, chunks, p, (i + 1) * ENTRIES);
        p := (i + 1) * ENTRIES;
      }
      i := i + 1;
    }
    Enough(s0, sp.Sys(), l, pd, p0, chunks, p);
    r := 0;
  }

  /** How many pages munmapProcess unmaps; the sum wraps around at 32 bits. */
  function UnmapChunks(length: nat): nat {
    (length + FRAME_SIZE - 1) % 0x1_0000_0000 / FRAME_SIZE
  }

  lemma FirstEntry(address: nat)
    requires address < 0x1_0000_0000
    ensures address / FRAME_4KB == address / FRAME_4MB * ENTRIES + (address / FRAME_4KB) % 1024 && address / FRAME_4MB < TABLES
  {
  }

  lemma TableIs(mem: Memory, mem': Memory, pd: nat, t: nat)
    requires Word(mem', pd, t) == Word(mem, pd, t)
    ensures TableOf(mem', pd, t) == TableOf(mem, pd, t)
  {
  }

  // --------------------------------------------------------------------- mmap and munmap

  lemma KernelPartGrown(s0: System, s: System, l: Layout, pd: nat)
    requires Consistent(s0, l) && Grown(s0, s, l, pd) && KernelPart(s0, l, pd)
    ensures KernelPart(s, l, pd)
  {
    forall t: nat | USER_TABLES <= t < TABLES && Present(Word(s.mem, pd, t)) ensures KernelTable(s, l, TableOf(s.mem, pd, t)) {
      assert Word(s.mem, pd, t) == Word(s0.mem, pd, t);
      var f := TableOf(s.mem, pd, t);
      assert KernelTable(s0, l, f);
      KernelTableGrown(s0, s, l, pd, f);
    }
  }

  lemma KernelTableGrown(s0: System, s: System, l: Layout, pd: nat, f: nat)
    requires Consistent(s0, l) && Grown(s0, s, l, pd) && KernelTable(s0, l, f)
    ensures KernelTable(s, l, f)
  {
    hide Lookup, SameMap, KeepsPage, SpaceOwned, RoleHolds, OthersOwn;
    assert f !in Touched(s0, s, pd);
    WordSame(s0.mem, s.mem, Touched(s0, s, pd), f);
    assert f in s.owner ==> f in s.taken;
    assert f in s0.taken ==> f in Loose(s0) && f in Loose(s);
  }

  /** Right after a map of k pages from a on, the first m anonymous pages from a on are its first m. */
  lemma {:induction false} FreshAnonymous(s0: System, s: System, pd: nat, a: nat, k: nat, u: nat)
    requires MapsRange(s0, s, pd, a, k) && a <= u <= a + k && a + k <= USER_PAGES
    ensures AnonymousFrom(s.mem, pd, a, u) == u - a
    decreases u
  {
    if a < u {
      hide Lookup;
      FreshAnonymous(s0, s, pd, a, k, u - 1);
      assert NewPage(s0, Lookup(s.mem, pd, u - 1));
    }
  }

  lemma FreshUnmaps(s0: System, s: System, pd: nat, a: nat, k: nat, m: nat, u: nat)
    requires MapsRange(s0, s, pd, a, k) && a + k <= USER_PAGES && m <= k && u < USER_PAGES
    ensures Unmaps(s.mem, pd, a, m, u) <==> a <= u < a + m
  {
    if a <= u < a + k {
      FreshAnonymous(s0, s, pd, a, k, u);
      assert NewPage(s0, Lookup(s.mem, pd, u));
    } else if a <= u {
      FreshAnonymous(s0, s, pd, a, k, a + k);
      CountGrows(s.mem, pd, a, a + k, u);
    }
  }

  /** Page u of q is as it was: absent, or with the same entry and content. */
  ghost predicate SamePageAs(mem0: Memory, mem: Memory, q: nat, u: nat) {
    (Present(Lookup(mem, q, u)) <==> Present(Lookup(mem0, q, u))) &&
    (Present(Lookup(mem0, q, u)) ==>
       Lookup(mem, q, u) == Lookup(mem0, q, u) &&
       FrameAt(mem, Target(Lookup(mem0, q, u))) == FrameAt(mem0, Target(Lookup(mem0, q, u))))
  }

  lemma BackAsBefore(s0: System, s1: System, s2: System, l: Layout, pd: nat, a: nat, k: nat, m: nat, q: nat, u: nat)
    requires Consistent(s0, l) && Grown(s0, s1, l, pd) && MapsRange(s0, s1, pd, a, k) && AbsentRun(s0.mem, pd, a, k)
    requires a + k <= USER_PAGES && m <= k && Shrunk(s1, s2, l, pd, a, m, USER_PAGES) && q in s0.spaces && u < USER_PAGES
    requires q != pd || !(a + m <= u < a + k)
    ensures SamePageAs(s0.mem, s2.mem, q, u)
  {
    hide Consistent, OthersOwn, Loose, SameOutside, OwnsMore, Word, IsTable, GivesBack, Unmaps, Writable, User, Mmapped, Target;
    assert KeepsPage(s0, s1, q, u);
    assert q != pd ==> SameMap(s0.mem, s1.mem, q) && SameMap(s1.mem, s2.mem, q);
    if q == pd {
      FreshUnmaps(s0, s1, pd, a, k, m, u);
    }
    NoEntry();
    if a <= u < a + m && q == pd {
      assert Absent(s0.mem, pd, u);
    } else {
      if Present(Lookup(s1.mem, q, u)) {
        FrameStays(s1, s2, l, pd, a, m, q, u);
      }
    }
  }

  lemma FrameStays(s1: System, s2: System, l: Layout, pd: nat, a: nat, m: nat, q: nat, u: nat)
    requires Consistent(s1, l) && Shrunk(s1, s2, l, pd, a, m, USER_PAGES) && q in s1.spaces && u < USER_PAGES && Present(Lookup(s1.mem, q, u))
    ensures FrameAt(s2.mem, Target(Lookup(s1.mem, q, u))) == FrameAt(s1.mem, Target(Lookup(s1.mem, q, u)))
  {
    assert SpaceOwned(s1, l, q);
    assert PageOwned(s1, l, q, u);
    hide Lookup, Word, SameMap, Unmaps, GivesBack;
  }

  /** Afterwards exactly the frames of before are taken, and those of new page tables, and of the
      pages that munmap has left. */
  lemma TakenAsBefore(s0: System, s1: System, s2: System, l: Layout, pd: nat, a: nat, k: nat, m: nat, f: nat)
    requires Consistent(s0, l) && Grown(s0, s1, l, pd) && MapsRange(s0, s1, pd, a, k)
    requires a + k <= USER_PAGES && m <= k && Shrunk(s1, s2, l, pd, a, m, USER_PAGES)
    ensures f in s0.taken ==> f in s2.taken && (f in s0.owner ==> Owns(s2, f, s0.owner[f]))
    ensures f in s2.taken && f !in s0.taken ==>
              f in s2.owner && s2.owner[f].pd == pd &&
              (s2.owner[f].Table? || (s2.owner[f].Page? && a + m <= s2.owner[f].v < a + k))
  {
    if f in s0.taken {
      KeptThrough(s0, s1, s2, l, pd, a, k, m, f);
    } else if f in s2.taken {
      NewThrough(s0, s1, s2, l, pd, a, k, m, f);
    }
  }

  lemma KeptThrough(s0: System, s1: System, s2: System, l: Layout, pd: nat, a: nat, k: nat, m: nat, f: nat)
    requires Grown(s0, s1, l, pd) && MapsRange(s0, s1, pd, a, k) && f in s0.taken
    requires a + k <= USER_PAGES && m <= k && Shrunk(s1, s2, l, pd, a, m, USER_PAGES)
    ensures f in s2.taken && (f in s0.owner ==> Owns(s2, f, s0.owner[f]))
  {
    hide OthersOwn, Loose, SameOutside, Word, Lookup, SameMap, KeepsPage, IsTable;
    OnlyNewGivenBack(s0, s1, l, pd, a, k, m, f);
    if f in s0.owner {
      assert Owns(s1, f, s0.owner[f]);
    }
  }

  lemma OnlyNewGivenBack(s0: System, s1: System, l: Layout, pd: nat, a: nat, k: nat, m: nat, f: nat)
    requires Grown(s0, s1, l, pd) && MapsRange(s0, s1, pd, a, k) && a + k <= USER_PAGES && m <= k
    ensures GivesBack(s1, pd, a, m, USER_PAGES, f) ==> f !in s0.taken
  {
    if GivesBack(s1, pd, a, m, USER_PAGES, f) {
      hide OthersOwn, Loose, SameOutside, Word, Lookup, SameMap, KeepsPage, IsTable;
      var u := s1.owner[f].v;
      FreshUnmaps(s0, s1, pd, a, k, m, u);
      assert RoleHolds(s1, f, s1.owner[f]);
      assert NewPage(s0, Lookup(s1.mem, pd, u));
    }
  }

  lemma NewThrough(s0: System, s1: System, s2: System, l: Layout, pd: nat, a: nat, k: nat, m: nat, f: nat)
    requires Consistent(s0, l) && Grown(s0, s1, l, pd) && MapsRange(s0, s1, pd, a, k) && f !in s0.taken && f in s2.taken
    requires a + k <= USER_PAGES && m <= k && Shrunk(s1, s2, l, pd, a, m, USER_PAGES)
    ensures f in s2.owner && s2.owner[f].pd == pd
    ensures s2.owner[f].Table? || (s2.owner[f].Page? && a + m <= s2.owner[f].v < a + k)
  {
    assert f in s1.taken && f !in Loose(s0) && f !in Loose(s1) && f in s1.owner;
    assert f !in s0.owner && f !in OthersOwn(s0, pd) && f !in OthersOwn(s1, pd);
    assert RoleHolds(s1, f, s1.owner[f]);
    OwnedTaken(s0, l, pd);
    hide Loose, OthersOwn, SameOutside, Word, SameMap, IsTable, Lookup;
    if s1.owner[f].Page? {
      var u := s1.owner[f].v;
      FreshUnmaps(s0, s1, pd, a, k, m, u);
      if !(a <= u < a + k) {
        OldPage(s0, s1, l, pd, u, f);
      }
    }
  }

  lemma OldPage(s0: System, s1: System, l: Layout, pd: nat, u: nat, f: nat)
    requires Consistent(s0, l) && pd in s0.spaces && u < USER_PAGES && Lookup(s1.mem, pd, u) == Lookup(s0.mem, pd, u)
    requires Present(Lookup(s1.mem, pd, u)) && Writable(Lookup(s1.mem, pd, u)) && Target(Lookup(s1.mem, pd, u)) == f
    ensures f in s0.taken
  {
    PageOwner(s0, l, pd, u);
  }

  /** Page maps, page contents and frames are as in s0, but for the pages in kept, which have been
      mapped in pd, and new page tables of pd. */
  ghost predicate Restored(s0: System, s: System, pd: nat, kept: set<nat>) {
    s.spaces == s0.spaces &&
    (forall q, u: nat | q in s.spaces && u < USER_PAGES :: SamePageAs(s0.mem, s.mem, q, u) <==> !(q == pd && u in kept)) &&
    (forall f | f in s0.taken :: f in s.taken && (f in s0.owner ==> Owns(s, f, s0.owner[f]))) &&
    (forall f :: f in s.taken && f !in s0.taken <==> NewFrame(s0, s, pd, kept, f))
  }

  /** Frame f holds a page table that pd has not had in s0, or one of the pages in kept. */
  ghost predicate NewFrame(s0: System, s: System, pd: nat, kept: set<nat>, f: nat) {
    f in s.owner && s.owner[f].pd == pd &&
    match s.owner[f]
    case Dir(_) => false
    case Table(_, t) => !Present(Word(s0.mem, pd, t))
    case Page(_, v) => v in kept
  }

  lemma RoundTrip(s0: System, s1: System, s2: System, l: Layout, pd: nat, a: nat, k: nat, m: nat, kept: set<nat>)
    requires Consistent(s0, l) && Grown(s0, s1, l, pd) && MapsRange(s0, s1, pd, a, k) && AbsentRun(s0.mem, pd, a, k)
    requires a + k <= USER_PAGES && m <= k && Shrunk(s1, s2, l, pd, a, m, USER_PAGES) && pd in s0.spaces
    requires forall u :: u in kept <==> a + m <= u < a + k
    ensures Restored(s0, s2, pd, kept)
  {
    GrownSame(s0, s1, l, pd);
    ShrunkUse(s1, s2, l, pd, a, m, USER_PAGES);
    PagesRestored(s0, s1, s2, l, pd, a, k, m);
    FramesRestored(s0, s1, s2, l, pd, a, k, m, kept);
    hide SamePageAs, Consistent, Grown, MapsRange, AbsentRun, Shrunk, Owns, NewFrame;
  }

  lemma PagesRestored(s0: System, s1: System, s2: System, l: Layout, pd: nat, a: nat, k: nat, m: nat)
    requires Consistent(s0, l) && Grown(s0, s1, l, pd) && MapsRange(s0, s1, pd, a, k) && AbsentRun(s0.mem, pd, a, k)
    requires a + k <= USER_PAGES && m <= k && Shrunk(s1, s2, l, pd, a, m, USER_PAGES)
    ensures forall q, u: nat | q in s0.spaces && u < USER_PAGES :: SamePageAs(s0.mem, s2.mem, q, u) <==> !(q == pd && a + m <= u < a + k)
  {
    hide *;
    forall q, u: nat | q in s0.spaces && u < USER_PAGES
      ensures SamePageAs(s0.mem, s2.mem, q, u) <==> !(q == pd && a + m <= u < a + k)
    {
      if q == pd && a + m <= u < a + k {
        LeftOver(s0, s1, s2, l, pd, a, k, m, u);
      } else {
        BackAsBefore(s0, s1, s2, l, pd, a, k, m, q, u);
      }
    }
  }

  lemma FramesRestored(s0: System, s1: System, s2: System, l: Layout, pd: nat, a: nat, k: nat, m: nat, kept: set<nat>)
    requires Consistent(s0, l) && Grown(s0, s1, l, pd) && MapsRange(s0, s1, pd, a, k) && AbsentRun(s0.mem, pd, a, k)
    requires a + k <= USER_PAGES && m <= k && Shrunk(s1, s2, l, pd, a, m, USER_PAGES) && pd in s0.spaces
    requires forall u :: u in kept <==> a + m <= u < a + k
    ensures forall f | f in s0.taken :: f in s2.taken && (f in s0.owner ==> Owns(s2, f, s0.owner[f]))
    ensures forall f :: f in s2.taken && f !in s0.taken <==> NewFrame(s0, s2, pd, kept, f)
  {
    hide *;
    forall f
      ensures f in s0.taken ==> f in s2.taken && (f in s0.owner ==> Owns(s2, f, s0.owner[f]))
      ensures f in s2.taken && f !in s0.taken <==> NewFrame(s0, s2, pd, kept, f)
    {
      TakenAsBefore(s0, s1, s2, l, pd, a, k, m, f);
      if f in s2.taken && f !in s0.taken {
        TakenIsNew(s0, s1, s2, l, pd, a, k, m, kept, f);
      }
      if NewFrame(s0, s2, pd, kept, f) {
        NewIsTaken(s0, s1, s2, l, pd, a, k, m, kept, f);
      }
    }
  }

  lemma TakenIsNew(s0: System, s1: System, s2: System, l: Layout, pd: nat, a: nat, k: nat, m: nat, kept: set<nat>, f: nat)
    requires Consistent(s0, l) && Grown(s0, s1, l, pd) && MapsRange(s0, s1, pd, a, k) && f !in s0.taken && f in s2.taken
    requires a + k <= USER_PAGES && m <= k && Shrunk(s1, s2, l, pd, a, m, USER_PAGES) && pd in s0.spaces
    requires forall u :: u in kept <==> a + m <= u < a + k
    ensures NewFrame(s0, s2, pd, kept, f)
  {
    NewThrough(s0, s1, s2, l, pd, a, k, m, f);
    ShrunkRole(s1, s2, l, pd, a, m, f);
    if s2.owner[f].Table? {
      var t := s2.owner[f].t;
      var g := TableOf(s0.mem, pd, t);
      if Present(Word(s0.mem, pd, t)) {
        OldTable(s0, l, pd, t);
        KeptThrough(s0, s1, s2, l, pd, a, k, m, g);
        ShrunkRole(s1, s2, l, pd, a, m, g);
      }
    }
  }

  lemma ShrunkRole(s1: System, s2: System, l: Layout, pd: nat, a: nat, m: nat, f: nat)
    requires Shrunk(s1, s2, l, pd, a, m, USER_PAGES) && f in s2.owner
    ensures RoleHolds(s2, f, s2.owner[f]) && f in s2.taken
    ensures s2.owner[f].Table? ==> s2.owner[f].t < USER_TABLES
  {
    hide SameMap, Lookup, Unmaps, IsTable, GivesBack;
  }

  lemma OldTable(s0: System, l: Layout, pd: nat, t: nat)
    requires Consistent(s0, l) && pd in s0.spaces && t < USER_TABLES && Present(Word(s0.mem, pd, t))
    ensures Owns(s0, TableOf(s0.mem, pd, t), Table(pd, t)) && TableOf(s0.mem, pd, t) in s0.taken
  {
    assert SpaceOwned(s0, l, pd);
    assert TableOwned(s0, pd, t);
  }

  lemma NewIsTaken(s0: System, s1: System, s2: System, l: Layout, pd: nat, a: nat, k: nat, m: nat, kept: set<nat>, f: nat)
    requires Consistent(s0, l) && Grown(s0, s1, l, pd) && MapsRange(s0, s1, pd, a, k) && AbsentRun(s0.mem, pd, a, k)
    requires a + k <= USER_PAGES && m <= k && Shrunk(s1, s2, l, pd, a, m, USER_PAGES) && NewFrame(s0, s2, pd, kept, f)
    requires forall u :: u in kept <==> a + m <= u < a + k
    ensures f in s2.taken && f !in s0.taken
  {
    ShrunkRole(s1, s2, l, pd, a, m, f);
    MapsAreOwnAffair(s0, s1, l, pd, a, m);
    MapsAreOwnAffair(s1, s2, l, pd, a, m);
    if f in s0.taken {
      KeptThrough(s0, s1, s2, l, pd, a, k, m, f);
      StillOwned(s0, s2, l, f);
      NotSuchRole(s0, pd, a, k, f);
    }
  }

  lemma StillOwned(s0: System, s2: System, l: Layout, f: nat)
    requires Consistent(s0, l) && Loose(s2) == Loose(s0) && f in s0.taken && f in s2.owner
    ensures f in s0.owner && RoleHolds(s0, f, s0.owner[f])
  {
    assert f !in Loose(s2);
    hide RoleHolds, SpaceOwned;
  }

  lemma NotSuchRole(s0: System, pd: nat, a: nat, k: nat, f: nat)
    requires f in s0.owner && RoleHolds(s0, f, s0.owner[f]) && s0.owner[f].pd == pd && AbsentRun(s0.mem, pd, a, k)
    ensures s0.owner[f].Table? ==> Present(Word(s0.mem, pd, s0.owner[f].t))
    ensures s0.owner[f].Page? ==> !(a <= s0.owner[f].v < a + k)
  {
    hide Lookup, Word;
    assert s0.owner[f].Page? && a <= s0.owner[f].v < a + k ==> Absent(s0.mem, pd, s0.owner[f].v);
  }

  /** What munmapProcess leaves of a map of the same length. */
  ghost function Kept(a: nat, length: nat): set<nat> {
    if length % FRAME_4KB == 0 then {a + length / FRAME_4KB} else {}
  }

  /** mmapProcess, and munmapProcess with the address it has returned and the same length: all is as
      before, apart from page tables made on the way, if the length is not a multiple of the page
      size. If it is, the last page that was mapped stays. */
  method MapAndUnmap(sp: Spaces, pd: nat, hint: nat, length: nat, prot: nat, flags: nat) returns (ok: bool, ghost a: nat)
    requires sp.Valid() && pd in sp.spaces && hint < KERNEL_BASE && 0 < length < LAST_PAGE && !Unsupported(prot, flags, 0, 0)
    requires Present(Word(sp.mem, pd, USER_TABLES)) && KernelPart(sp.Sys(), sp.Lay(), pd)
    requires Room(sp.mem, pd, hint, length / FRAME_4KB + 1)
    modifies sp`mem, sp`taken, sp`owner, sp.frames, sp.frames.frameMap, sp.frames.cached
    ensures ok ==> sp.Valid() && Chosen(old(sp.mem), pd, hint, a, length / FRAME_4KB + 1)
    ensures ok ==> Restored(old(sp.Sys()), sp.Sys(), pd, Kept(a, length))
  {
    assert FRAME_4KB == 4096 && LAST_PAGE == 0xFFFF_F000;
    hide *;
    ghost var s0, l := sp.Sys(), sp.Lay();
    sp.SysIs();
    sp.ValidConsistent();
    var address, errnum;
    ok, address, errnum := MmapProcess(sp, pd, hint, length, prot, flags, 0, 0);
    if !ok {
      return false, 0;
    }
    a := address / FRAME_4KB;
    ghost var s1 := sp.Sys();
    ghost var k, m := length / FRAME_4KB + 1, UnmapChunks(length);
    sp.SysIs();
    KeptIs(a, length, k, m);
    ChosenUse(s0.mem, pd, hint, a, k);
    AddressBound(address);
    GrownSpaces(s0, s1, l, pd);
    GrownSame(s0, s1, l, pd);
    KernelPartGrown(s0, s1, l, pd);
    var r;
    r, errnum := MunmapProcess(sp, pd, address, length);
    RoundTrip(s0, s1, sp.Sys(), l, pd, a, k, m, Kept(a, length));
  }

  /** Two pages are mapped, and the first is unmapped again. */
  method MapTwo(sp: Spaces, pd: nat, hint: nat, prot: nat, flags: nat) returns (ok: bool, address: int)
    requires sp.Valid() && pd in sp.spaces && hint < KERNEL_BASE && !Unsupported(prot, flags, 0, 0)
    requires Present(Word(sp.mem, pd, USER_TABLES)) && KernelPart(sp.Sys(), sp.Lay(), pd) && Room(sp.mem, pd, hint, 2)
    modifies sp`mem, sp`taken, sp`owner, sp.frames, sp.frames.frameMap, sp.frames.cached
    ensures ok ==> sp.Valid() && pd in sp.spaces && KernelPart(sp.Sys(), sp.Lay(), pd)
    ensures ok ==> 0 < address < 0x1_0000_0000 && address % FRAME_4KB == 0 && OnlySecond(sp.mem, pd, address / FRAME_4KB)
  {
    hide *;
    ghost var s0, l := sp.Sys(), sp.Lay();
    sp.SysIs();
    sp.ValidConsistent();
    OnePage();
    var errnum;
    ok, address, errnum := MmapProcess(sp, pd, hint, 0x1000, prot, flags, 0, 0);
    if !ok {
      return;
    }
    ghost var s1 := sp.Sys();
    sp.SysIs();
    ChosenAddress(s0.mem, pd, hint, address);
    GrownSpaces(s0, s1, l, pd);
    KernelPartGrown(s0, s1, l, pd);
    var r;
    r, errnum := MunmapProcess(sp, pd, address, 0x1000);
    sp.SysIs();
    OneLeft(s0, s1, sp.Sys(), l, pd, address);
  }

  /** An input with which munmapProcess leaves the range: the first page is unmapped once more, and
      what is unmapped is the second. before is the state in between. */
  method LeavesRange(sp: Spaces, pd: nat, hint: nat, prot: nat, flags: nat) returns (ok: bool, address: int, ghost before: System)
    requires sp.Valid() && pd in sp.spaces && hint < KERNEL_BASE && !Unsupported(prot, flags, 0, 0)
    requires Present(Word(sp.mem, pd, USER_TABLES)) && KernelPart(sp.Sys(), sp.Lay(), pd) && Room(sp.mem, pd, hint, 2)
    modifies sp`mem, sp`taken, sp`owner, sp.frames, sp.frames.frameMap, sp.frames.cached
    ensures ok ==> sp.Valid() && Consistent(before, sp.Lay()) && 0 < address < 0x1_0000_0000 && address % FRAME_4KB == 0
    ensures ok ==> Shrunk(before, sp.Sys(), sp.Lay(), pd, address / FRAME_4KB, 1, USER_PAGES)
    ensures ok ==> OnlySecond(before.mem, pd, address / FRAME_4KB) && !Anonymous(sp.mem, pd, address / FRAME_4KB + 1)
  {
    hide *;
    ok, address := MapTwo(sp, pd, hint, prot, flags);
    before := sp.Sys();
    if !ok {
      return;
    }
    sp.SysIs();
    sp.ValidConsistent();
    OnePage();
    var r, errnum := MunmapProcess(sp, pd, address, 0x1000);
    sp.SysIs();
    NoneLeft(before, sp.Sys(), sp.Lay(), pd, address);
  }

  /** Page a is not anonymous, but the one behind it is. */
  ghost predicate OnlySecond(mem: Memory, pd: nat, a: nat) {
    !Anonymous(mem, pd, a) && Anonymous(mem, pd, a + 1)
  }

  lemma ChosenAddress(mem: Memory, pd: nat, hint: nat, address: int)
    requires 0 < address && address % FRAME_4KB == 0 && Chosen(mem, pd, hint, address / FRAME_4KB, 2)
    ensures address < 0x1_0000_0000 && AbsentRun(mem, pd, address / FRAME_4KB, 2) && address / FRAME_4KB + 2 <= USER_PAGES
  {
    hide Open, Absent;
  }

  lemma OnePage()
    ensures 0x1000 / FRAME_4KB + 1 == 2 && UnmapChunks(0x1000) == 1 && 0x1000 < LAST_PAGE
  {
  }

  lemma KernelPartShrunk(s0: System, s: System, l: Layout, pd: nat, p0: nat, chunks: nat)
    requires Consistent(s0, l) && Shrunk(s0, s, l, pd, p0, chunks, USER_PAGES) && KernelPart(s0, l, pd)
    ensures KernelPart(s, l, pd) && pd in s.spaces
  {
    DirectoryKept(s0, s, l, pd, p0, chunks, USER_PAGES);
    ShrunkUse(s0, s, l, pd, p0, chunks, USER_PAGES);
    hide Consistent, Shrunk, KernelTable, Word, Present;
    forall t: nat | USER_TABLES <= t < TABLES && Present(Word(s.mem, pd, t)) ensures KernelTable(s, l, TableOf(s.mem, pd, t)) {
      TableIs(s0.mem, s.mem, pd, t);
      KernelTableShrunk(s0, s, l, pd, p0, chunks, TableOf(s.mem, pd, t));
    }
  }

  lemma KernelTableShrunk(s0: System, s: System, l: Layout, pd: nat, p0: nat, chunks: nat, f: nat)
    requires Shrunk(s0, s, l, pd, p0, chunks, USER_PAGES) && KernelTable(s0, l, f)
    ensures KernelTable(s, l, f)
  {
    hide Consistent, Lookup, SameMap, Unmaps;
    assert forall j: nat :: Word(s.mem, f, j) == Word(s0.mem, f, j);
  }

  /** After one of two pages has been unmapped, the other is the first anonymous page. */
  lemma OneLeft(s0: System, s1: System, s2: System, l: Layout, pd: nat, address: nat)
    requires var a := address / FRAME_4KB;
             MapsRange(s0, s1, pd, a, 2) && a + 2 <= USER_PAGES && Shrunk(s1, s2, l, pd, a, 1, USER_PAGES)
    requires Consistent(s1, l) && KernelPart(s1, l, pd)
    ensures OnlySecond(s2.mem, pd, address / FRAME_4KB) && KernelPart(s2, l, pd) && pd in s2.spaces
  {
    var a := address / FRAME_4KB;
    KernelPartShrunk(s1, s2, l, pd, a, 1);
    FreshUnmaps(s0, s1, pd, a, 2, 1, a);
    FreshUnmaps(s0, s1, pd, a, 2, 1, a + 1);
    assert NewPage(s0, Lookup(s1.mem, pd, a + 1));
    NoEntry();
    hide Lookup, Unmaps, SameMap, Consistent, IsTable, GivesBack, KernelPart;
    assert Lookup(s2.mem, pd, a) == 0 && Lookup(s2.mem, pd, a + 1) == Lookup(s1.mem, pd, a + 1);
  }

  lemma FirstLeft(mem: Memory, pd: nat, a: nat)
    requires OnlySecond(mem, pd, a)
    ensures Unmaps(mem, pd, a, 1, a + 1) && a + 1 < USER_PAGES
  {
    assert AnonymousFrom(mem, pd, a, a) == 0;
    assert AnonymousFrom(mem, pd, a, a + 1) == 0;
  }

  lemma NoneLeft(s2: System, s3: System, l: Layout, pd: nat, address: nat)
    requires OnlySecond(s2.mem, pd, address / FRAME_4KB) && Shrunk(s2, s3, l, pd, address / FRAME_4KB, 1, USER_PAGES)
    ensures !Anonymous(s3.mem, pd, address / FRAME_4KB + 1)
  {
    FirstLeft(s2.mem, pd, address / FRAME_4KB);
    NoEntry();
    hide Lookup, Unmaps, SameMap, Consistent, IsTable, GivesBack;
  }

  /** Both count the same pages just if the length is not a multiple of the page size; 0x1000 is one
      page for munmapProcess and two for mmapProcess. */
  lemma PagesAgree(length: nat)
    requires 0 < length < LAST_PAGE
    ensures MmapChunks(length) == UnmapChunks(length) <==> length % FRAME_4KB != 0
    ensures MmapChunks(0x1000) == 2 && UnmapChunks(0x1000) == 1
  {
  }

  lemma KeptIs(a: nat, length: nat, k: nat, m: nat)
    requires 0 < length < LAST_PAGE && k == length / FRAME_4KB + 1 && m == UnmapChunks(length)
    ensures m <= k && forall u :: u in Kept(a, length) <==> a + m <= u < a + k
  {
  }

  lemma GrownSame(s0: System, s: System, l: Layout, pd: nat)
    requires Grown(s0, s, l, pd)
    ensures s.spaces == s0.spaces
  {
    hide Consistent, SameMap, KeepsPage, OthersOwn, Loose, OwnsMore, SameOutside;
  }

  lemma AddressBound(address: int)
    requires 0 < address && address % FRAME_4KB == 0 && address / FRAME_4KB < USER_PAGES
    ensures address < 0x1_0000_0000
  {
  }

  lemma ChosenUse(mem: Memory, pd: nat, hint: nat, a: nat, k: nat)
    requires Chosen(mem, pd, hint, a, k) && k > 0
    ensures AbsentRun(mem, pd, a, k) && a + k <= USER_PAGES && a < USER_PAGES
  {
    hide Open, Absent;
  }

  lemma LeftOver(s0: System, s1: System, s2: System, l: Layout, pd: nat, a: nat, k: nat, m: nat, u: nat)
    requires MapsRange(s0, s1, pd, a, k) && AbsentRun(s0.mem, pd, a, k) && Shrunk(s1, s2, l, pd, a, m, USER_PAGES)
    requires a + m <= u < a + k && a + k <= USER_PAGES
    ensures !SamePageAs(s0.mem, s2.mem, pd, u)
  {
    FreshUnmaps(s0, s1, pd, a, k, m, u);
    hide Lookup, Unmaps, Consistent;
    assert Absent(s0.mem, pd, u);
    assert NewPage(s0, Lookup(s1.mem, pd, u));
  }

  // ------------------------------------------------------------------- the life of a process

  /** A step in which at most pd's own frames have changed hands. */
  ghost predicate OwnAffair(s: System, s': System, l: Layout, pd: nat) {
    Consistent(s', l) && OthersOwn(s', pd) == OthersOwn(s, pd) && Loose(s') == Loose(s)
  }

  /** mmapProcess, munmapProcess and writes are such steps. */
  lemma MapsAreOwnAffair(s: System, s': System, l: Layout, pd: nat, p0: nat, chunks: nat)
    ensures Grown(s, s', l, pd) ==> OwnAffair(s, s', l, pd)
    ensures Shrunk(s, s', l, pd, p0, chunks, USER_PAGES) ==> OwnAffair(s, s', l, pd)
    ensures Consistent(s', l) && s'.owner == s.owner && s'.taken == s.taken ==> OwnAffair(s, s', l, pd)
  {
    hide Consistent, SameMap, KeepsPage, SameOutside, OwnsMore, Touched, Lookup, Word, Unmaps, IsTable;
    if Shrunk(s, s', l, pd, p0, chunks, USER_PAGES) {
      assert OthersOwn(s', pd) == OthersOwn(s, pd);
      forall f ensures f in Loose(s') <==> f in Loose(s) {
      }
    }
    if s'.owner == s.owner && s'.taken == s.taken {
      SameOwners(s, s', pd);
    }
  }

  lemma {:induction false} OwnAffairs(run: seq<System>, l: Layout, pd: nat, i: nat)
    requires i < |run| && Consistent(run[0], l) && forall k | 0 <= k < |run| - 1 :: OwnAffair(run[k], run[k + 1], l, pd)
    ensures Consistent(run[i], l) && OthersOwn(run[i], pd) == OthersOwn(run[0], pd) && Loose(run[i]) == Loose(run[0])
  {
    if i > 0 {
      hide Consistent, OthersOwn, Loose;
      OwnAffairs(run, l, pd, i - 1);
      assert OwnAffair(run[i - 1], run[i], l, pd);
    }
  }

  /** However many maps, unmaps and writes there are between the fork that leads from s0 to run[0] and
      the termination that leads to s2: the allocator and the owners end up as before the fork. */
  lemma WholeLife(s0: System, run: seq<System>, s2: System, l: Layout, child: nat)
    requires |run| > 0 && Consistent(s0, l) && Consistent(run[0], l)
    requires OthersOwn(run[0], child) == s0.owner && Loose(run[0]) == Loose(s0)
    requires forall k | 0 <= k < |run| - 1 :: OwnAffair(run[k], run[k + 1], l, child)
    requires s2.owner == OthersOwn(run[|run| - 1], child)
    requires forall f :: f in s2.taken <==> f in run[|run| - 1].taken && f !in Owned(run[|run| - 1], child)
    ensures s2.taken == s0.taken && s2.owner == s0.owner
  {
    hide Consistent, OthersOwn, Loose, Owned, OwnAffair;
    OwnAffairs(run, l, child, |run| - 1);
    TerminateRestores(s0, run[|run| - 1], s2, l, child);
  }
}
