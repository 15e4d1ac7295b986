/** What mapping, forking and freeing do to an address space, as changes of a System: memory, frames
    handed out, processes and owners. The methods of AddressSpaces are proved by these lemmas.
 */
module SpaceChanges {
  import opened BitStream
  import opened PageTables

  const FRAME_4KB: nat := 0x1000
  const FRAME_4MB: nat := 0x400000
  const KERNEL_BASE: nat := 0xC0000000

  /** Frames handed out that no process owns: file contents, kernel memory. */
  ghost function Loose(s: System): set<nat> {
    s.taken - s.owner.Keys
  }

  /** What processes other than pd own. */
  ghost function OthersOwn(s: System, pd: nat): map<nat, Role> {
    map f | f in s.owner && s.owner[f].pd != pd :: s.owner[f]
  }

  /** The entry for an address: (physicalPI * FRAME_4KB + physicalPTI * FRAME_4MB) | flags. */
  function AddressEntry(physicalAddr: nat, flags: nat): (e: nat)
    requires flags < 4096
    ensures e == Entry(physicalAddr / FRAME_4KB, flags)
  {
    var physicalPTI := physicalAddr / FRAME_4MB;
    var physicalPI := (physicalAddr / FRAME_4KB) % 1024;
    var address := physicalPI * FRAME_4KB + physicalPTI * FRAME_4MB;
    AddressParts(physicalAddr);
    OrEntry(physicalAddr / FRAME_4KB, flags, 12);
    Or(flags, address)
  }

  lemma PageIndices(va: nat)
    requires va < KERNEL_BASE
    ensures va / FRAME_4MB == (va / FRAME_4KB) / ENTRIES < USER_TABLES && va / FRAME_4KB < USER_PAGES
  {
  }

  lemma AddressParts(a: nat)
    ensures (a / FRAME_4KB) % 1024 * FRAME_4KB + a / FRAME_4MB * FRAME_4MB == a / FRAME_4KB * FRAME_4KB
  {
    assert a / FRAME_4MB == (a / FRAME_4KB) / 1024;
  }

  lemma OrEntry(f: nat, flags: nat, n: nat)
    requires flags < 4096 && n == 12
    ensures Or(flags, f * FRAME_4KB) == f * FRAME_4KB + flags
  {
    Pow2Of12(n);
    ScaleOf12(f, n);
    OrDisjoint(flags, f, n);
  }

  lemma Pow2Of12(n: nat)
    requires n == 12
    ensures Pow2(n) == 4096
  {
    Pow2Small();
    assert Pow2(9) == 512 && Pow2(10) == 1024 && Pow2(11) == 2048;
  }

  lemma ScaleOf12(f: nat, n: nat)
    requires n == 12
    ensures Scale(f, n) == 4096 * f
  {
    assert Scale(f, 1) == 2 * f && Scale(f, 2) == 4 * f && Scale(f, 3) == 8 * f && Scale(f, 4) == 16 * f;
    assert Scale(f, 5) == 32 * f && Scale(f, 6) == 64 * f && Scale(f, 7) == 128 * f && Scale(f, 8) == 256 * f;
    assert Scale(f, 9) == 512 * f && Scale(f, 10) == 1024 * f && Scale(f, 11) == 2048 * f;
  }

  /** Page v of pd has got the entry e, in a table that may be new; nothing else has changed for
      any process. */
  ghost predicate Mapped(s: System, s': System, pd: nat, v: nat, e: nat) {
    var tbl := TableOf(s'.mem, pd, v / ENTRIES);
    s'.spaces == s.spaces && SameOutside(s.mem, s'.mem, {pd, tbl}) &&
    (forall u: nat | u < USER_PAGES :: Lookup(s'.mem, pd, u) == if u == v then e else Lookup(s.mem, pd, u)) &&
    (forall t: nat | t != v / ENTRIES :: Word(s'.mem, pd, t) == Word(s.mem, pd, t)) &&
    (forall q | q in s.spaces && q != pd :: SameMap(s.mem, s'.mem, q)) &&
    (if Present(Word(s.mem, pd, v / ENTRIES)) then tbl == TableOf(s.mem, pd, v / ENTRIES) else tbl !in s.taken) &&
    s'.taken == s.taken + {tbl} &&
    s'.owner == Reowned(s.owner[tbl := Table(pd, v / ENTRIES)], pd, v, Lookup(s.mem, pd, v), e)
  }

  /** Storing into a table and linking it commute. */
  lemma StoresCommute(mem: Memory, pd: nat, t: nat, pde: nat, tbl: nat, i: nat, e: nat)
    requires Sized(mem) && pd < |mem| && tbl < |mem| && pd != tbl && t < ENTRIES && i < ENTRIES
    ensures Sized(Store(mem, tbl, i, e)) && Sized(Store(mem, pd, t, pde))
    ensures Store(Store(mem, tbl, i, e), pd, t, pde) == Store(Store(mem, pd, t, pde), tbl, i, e)
  {
  }

  /** Mapping a page in a table that has just been allocated. before is the state before that. */
  lemma MapInNewTable(before: System, s: System, l: Layout, pd: nat, v: nat, e: nat, tbl: nat, pde: nat) returns (s': System)
    requires Consistent(before, l) && Consistent(s, l) && pd in s.spaces && v < USER_PAGES
    requires s == before.(taken := before.taken + {tbl}) && tbl !in before.taken && l.lo <= tbl < l.hi
    requires tbl !in s.owner && Unreferenced(s, tbl) && tbl !in s.spaces
    requires !Present(Word(s.mem, pd, v / ENTRIES)) && Mappable(before, l, e) && Present(pde) && Target(pde) == tbl
    ensures tbl < |s.mem| && pd < |s.mem| && pd != tbl && Sized(Cleared(s.mem, tbl)) && Sized(Store(Cleared(s.mem, tbl), tbl, v % ENTRIES, e))
    ensures s'.mem == Store(Store(Cleared(s.mem, tbl), tbl, v % ENTRIES, e), pd, v / ENTRIES, pde)
    ensures Consistent(s', l) && Mapped(before, s', pd, v, e) && s'.taken == s.taken && s'.spaces == s.spaces
    ensures Word(s'.mem, pd, v / ENTRIES) == pde
  {
    hide Consistent, Unreferenced, SpaceOwned, SameMap, Lookup, Word;
    MappableLater(before, s, l, e, tbl);
    var t := v / ENTRIES;
    var s1 := LinkTable(s, l, pd, t, tbl, pde);
    MappableLinked(s, s1, l, e, tbl);
    var s2 := SetPage(s1, l, pd, v, e);
    TableKept(s1, s2, l, pd, v, e);
    SizedPair(s, l, pd, tbl);
    StoresCommute(Cleared(s.mem, tbl), pd, t, pde, tbl, v % ENTRIES, e);
    s' := s2;
    MappedBy(before, s, s1, s2, l, pd, v, e, tbl, pde);
  }

  lemma SizedPair(s: System, l: Layout, pd: nat, tbl: nat)
    requires Consistent(s, l) && tbl < |s.mem| && pd in s.spaces && tbl !in s.spaces
    ensures pd < |s.mem| && pd != tbl && Sized(s.mem) && Sized(Cleared(s.mem, tbl))
  {
    assert SpaceOwned(s, l, pd);
  }

  lemma MappableLater(before: System, s: System, l: Layout, e: nat, tbl: nat)
    requires Consistent(before, l) && s == before.(taken := before.taken + {tbl}) && Mappable(before, l, e)
    requires tbl !in before.taken && l.lo <= tbl < l.hi
    ensures Mappable(s, l, e) && (Present(e) ==> Target(e) != tbl)
  {
    if Present(e) && Writable(e) {
      forall q | q in s.spaces ensures !References(s.mem, q, Target(e)) {
      }
    }
  }

  lemma MappableLinked(s: System, s1: System, l: Layout, e: nat, tbl: nat)
    requires Mappable(s, l, e) && (Present(e) ==> Target(e) != tbl)
    requires |s1.mem| == |s.mem| && s1.taken == s.taken && s1.spaces == s.spaces
    requires forall f | f in s1.owner :: f == tbl || f in s.owner
    requires forall q | q in s.spaces :: forall v: nat | v < USER_PAGES :: Lookup(s1.mem, q, v) == Lookup(s.mem, q, v)
    ensures Mappable(s1, l, e)
  {
    if Present(e) && Writable(e) {
      forall q | q in s1.spaces ensures !References(s1.mem, q, Target(e)) {
        assert !References(s.mem, q, Target(e));
      }
    }
  }

  /** The clauses of Mapped one by one. */
  lemma MappedIntro(s: System, s': System, pd: nat, v: nat, e: nat, tbl: nat)
    requires tbl == TableOf(s'.mem, pd, v / ENTRIES) && s'.spaces == s.spaces && SameOutside(s.mem, s'.mem, {pd, tbl})
    requires forall u: nat | u < USER_PAGES :: Lookup(s'.mem, pd, u) == if u == v then e else Lookup(s.mem, pd, u)
    requires forall t: nat | t != v / ENTRIES :: Word(s'.mem, pd, t) == Word(s.mem, pd, t)
    requires forall q | q in s.spaces && q != pd :: SameMap(s.mem, s'.mem, q)
    requires if Present(Word(s.mem, pd, v / ENTRIES)) then tbl == TableOf(s.mem, pd, v / ENTRIES) else tbl !in s.taken
    requires s'.taken == s.taken + {tbl}
    requires s'.owner == Reowned(s.owner[tbl := Table(pd, v / ENTRIES)], pd, v, Lookup(s.mem, pd, v), e)
    ensures Mapped(s, s', pd, v, e)
  {
    hide SameOutside, SameMap, Lookup, Word, TableOf, Present, Reowned;
  }

  lemma OutsideTwo(m0: Memory, m1: Memory, m2: Memory, c: set<nat>, d: set<nat>)
    requires SameOutside(m0, m1, c) && SameOutside(m1, m2, d)
    ensures SameOutside(m0, m2, c + d)
  {
  }

  lemma MappedBy(before: System, s: System, s1: System, s2: System, l: Layout, pd: nat, v: nat, e: nat, tbl: nat, pde: nat)
    requires Consistent(s, l) && Consistent(s1, l) && pd in s.spaces && v < USER_PAGES && tbl !in s.spaces && tbl !in s.owner
    requires s == before.(taken := before.taken + {tbl}) && tbl !in before.taken && tbl < |s.mem| && pd < |s.mem| && !Present(Word(s.mem, pd, v / ENTRIES))
    requires s1 == s.(mem := LinkedMem(s.mem, pd, v / ENTRIES, tbl, pde), owner := s.owner[tbl := Table(pd, v / ENTRIES)])
    requires TableOf(s1.mem, pd, v / ENTRIES) == tbl && SameOutside(s.mem, s1.mem, {pd, tbl})
    requires forall q | q in s.spaces :: forall u: nat | u < USER_PAGES :: Lookup(s1.mem, q, u) == Lookup(s.mem, q, u)
    requires s2.spaces == s1.spaces && s2.taken == s1.taken
    requires s2.owner == Reowned(s1.owner, pd, v, Lookup(s1.mem, pd, v), e)
    requires SameOutside(s1.mem, s2.mem, {tbl})
    requires forall u: nat | u < USER_PAGES :: Lookup(s2.mem, pd, u) == if u == v then e else Lookup(s1.mem, pd, u)
    requires forall q | q in s1.spaces && q != pd :: SameMap(s1.mem, s2.mem, q)
    ensures Mapped(before, s2, pd, v, e)
  {
    assert pd != tbl;
    LinkedWords(s.mem, pd, v / ENTRIES, tbl, pde) by { SizedPair(s, l, pd, tbl); }
    WordSame(s1.mem, s2.mem, {tbl}, pd);
    hide Consistent, Lookup, SameMap, LinkedMem, Reowned, Present;
    forall q | q in s.spaces && q != pd ensures SameMap(before.mem, s2.mem, q) {
      OtherSpaceKept(s, s1, s2, l, pd, q, tbl);
    }
    hide Word, SameOutside;
    assert TableOf(s2.mem, pd, v / ENTRIES) == tbl;
    OutsideTwo(before.mem, s1.mem, s2.mem, {pd, tbl}, {tbl});
    assert {pd, tbl} + {tbl} == {pd, tbl};
    MappedIntro(before, s2, pd, v, e, tbl);
  }

  lemma OtherSpaceKept(s: System, s1: System, s2: System, l: Layout, pd: nat, q: nat, tbl: nat)
    requires Consistent(s, l) && pd in s.spaces && q in s.spaces && q != pd && tbl !in s.spaces && tbl !in s.owner
    requires SameOutside(s.mem, s1.mem, {pd, tbl}) && SameMap(s1.mem, s2.mem, q)
    ensures SameMap(s.mem, s2.mem, q)
  {
    assert SpaceOwned(s, l, pd);
    MapUnaffected(s, l, s1.mem, {pd, tbl}, q);
    hide Lookup, Word;
  }

  /** Mapping a page in a table that is there; the table's flags may be rewritten. */
  lemma MapInOldTable(s: System, l: Layout, pd: nat, v: nat, e: nat, relink: bool, pde: nat) returns (s': System)
    requires Consistent(s, l) && pd in s.spaces && v < USER_PAGES && Present(Word(s.mem, pd, v / ENTRIES))
    requires Mappable(s, l, e) && Present(pde) && Target(pde) == TableOf(s.mem, pd, v / ENTRIES)
    ensures var tbl := TableOf(s.mem, pd, v / ENTRIES);
            tbl < |s.mem| && pd < |s.mem| && pd != tbl && Sized(s.mem) && Sized(Store(s.mem, tbl, v % ENTRIES, e)) &&
            s'.mem == (if relink then Store(Store(s.mem, tbl, v % ENTRIES, e), pd, v / ENTRIES, pde)
                       else Store(s.mem, tbl, v % ENTRIES, e))
    ensures Consistent(s', l) && Mapped(s, s', pd, v, e) && s'.taken == s.taken && s'.spaces == s.spaces
    ensures Word(s'.mem, pd, v / ENTRIES) == if relink then pde else Word(s.mem, pd, v / ENTRIES)
  {
    hide Consistent, SpaceOwned, SameMap, Lookup, Word, Mappable;
    var t := v / ENTRIES;
    TablePlace(s, l, pd, t);
    var s1 := SetPage(s, l, pd, v, e);
    TableKept(s, s1, l, pd, v, e);
    s' := s1;
    if relink {
      s' := Relink(s1, l, pd, t, pde);
    }
    MappedOld(s, s1, s', l, pd, v, e);
  }

  lemma TablePlace(s: System, l: Layout, pd: nat, t: nat)
    requires Consistent(s, l) && pd in s.spaces && t < USER_TABLES && Present(Word(s.mem, pd, t))
    ensures var tbl := TableOf(s.mem, pd, t);
            tbl < |s.mem| && pd < |s.mem| && pd != tbl && Sized(s.mem) && Owns(s, tbl, Table(pd, t)) && tbl in s.taken
  {
    assert SpaceOwned(s, l, pd);
    assert TableOwned(s, pd, t);
  }

  lemma TableKept(s: System, s1: System, l: Layout, pd: nat, v: nat, e: nat)
    requires Consistent(s, l) && pd in s.spaces && v < USER_PAGES && Present(Word(s.mem, pd, v / ENTRIES))
    requires TableOf(s.mem, pd, v / ENTRIES) < |s.mem| && |s.mem[TableOf(s.mem, pd, v / ENTRIES)]| == ENTRIES
    requires s1.mem == Store(s.mem, TableOf(s.mem, pd, v / ENTRIES), v % ENTRIES, e)
    ensures Word(s1.mem, pd, v / ENTRIES) == Word(s.mem, pd, v / ENTRIES) && Sized(s1.mem)
  {
    TablePlace(s, l, pd, v / ENTRIES);
    StoreOutside(s.mem, TableOf(s.mem, pd, v / ENTRIES), v % ENTRIES, e);
  }

  lemma MappedOld(s: System, s1: System, s2: System, l: Layout, pd: nat, v: nat, e: nat)
    requires Consistent(s, l) && Consistent(s1, l) && pd in s.spaces && v < USER_PAGES
    requires Present(Word(s.mem, pd, v / ENTRIES)) && Word(s1.mem, pd, v / ENTRIES) == Word(s.mem, pd, v / ENTRIES)
    requires s1.taken == s.taken && s1.spaces == s.spaces
    requires s1.owner == Reowned(s.owner, pd, v, Lookup(s.mem, pd, v), e)
    requires SameOutside(s.mem, s1.mem, {TableOf(s.mem, pd, v / ENTRIES)})
    requires forall u: nat | u < USER_PAGES :: Lookup(s1.mem, pd, u) == if u == v then e else Lookup(s.mem, pd, u)
    requires forall q | q in s.spaces && q != pd :: SameMap(s.mem, s1.mem, q)
    requires s2 == s1.(mem := s2.mem) && SameOutside(s1.mem, s2.mem, {pd})
    requires forall t: nat | t != v / ENTRIES :: Word(s2.mem, pd, t) == Word(s1.mem, pd, t)
    requires TableOf(s2.mem, pd, v / ENTRIES) == TableOf(s.mem, pd, v / ENTRIES)
    requires forall q | q in s1.spaces :: forall u: nat | u < USER_PAGES :: Lookup(s2.mem, q, u) == Lookup(s1.mem, q, u)
    ensures Mapped(s, s2, pd, v, e)
  {
    assert ENTRIES == 1024;
    hide Consistent, Lookup, Reowned, SameMap, Word, Sized, Target, Present, Store, SameOutside, Mapped;
    TablePlace(s, l, pd, v / ENTRIES);
    var tbl := TableOf(s.mem, pd, v / ENTRIES);
    forall q | q in s.spaces && q != pd ensures SameMap(s.mem, s2.mem, q) {
      WordSame(s1.mem, s2.mem, {pd}, q);
      SameMapStep(s.mem, s1.mem, s2.mem, q);
    }
    OwnedAlready(s, pd, v, tbl);
    WordSame(s.mem, s1.mem, {tbl}, pd);
    OutsideTwo(s.mem, s1.mem, s2.mem, {tbl}, {pd});
    assert {tbl} + {pd} == {pd, tbl};
    MappedIntro(s, s2, pd, v, e, tbl);
  }

  lemma OwnedAlready(s: System, pd: nat, v: nat, tbl: nat)
    requires Owns(s, tbl, Table(pd, v / ENTRIES)) && tbl in s.taken
    ensures s.owner[tbl := Table(pd, v / ENTRIES)] == s.owner && s.taken + {tbl} == s.taken
  {
  }

  lemma SameMapStep(m0: Memory, m1: Memory, m2: Memory, q: nat)
    requires SameMap(m0, m1, q) && forall t: nat :: Word(m2, q, t) == Word(m1, q, t)
    requires forall v: nat | v < USER_PAGES :: Lookup(m2, q, v) == Lookup(m1, q, v)
    ensures SameMap(m0, m2, q)
  {
  }

  // ------------------------------------------------------------------------------- fork

  function FrameAt(mem: Memory, f: nat): seq<nat> {
    if f < |mem| then mem[f] else []
  }

  /** Page v of the child is what page v of the parent was: the same content, in a fresh frame if
      it is writable, in the same frame if not. */
  ghost predicate ForkedPage(s: System, s': System, parent: nat, child: nat, v: nat) {
    var p, c := Lookup(s.mem, parent, v), Lookup(s'.mem, child, v);
    (Present(c) <==> Present(p)) &&
    (Present(p) ==>
      (Writable(c) <==> Writable(p)) && User(c) && !Mmapped(c) && c == Entry(Target(c), Flags(Writable(p), false)) &&
      FrameAt(s'.mem, Target(c)) == FrameAt(s.mem, Target(p)) &&
      if Writable(p) then Target(c) !in s.taken else Target(c) == Target(p))
  }

  /** All tables of the child are the user's, and writable; the kernel's part is the kernel's. */
  ghost predicate ChildDirectory(mem0: Memory, mem: Memory, kernel: nat, child: nat) {
    (forall t: nat | t < USER_TABLES && Present(Word(mem, child, t)) :: User(Word(mem, child, t)) && Writable(Word(mem, child, t))) &&
    (forall t: nat | t >= USER_TABLES :: Word(mem, child, t) == Word(mem0, kernel, t))
  }

  lemma ChildDirectoryStart(mem0: Memory, mem: Memory, kernel: nat, child: nat)
    requires forall t: nat :: Word(mem, child, t) == Word(mem0, kernel, t)
    requires forall t: nat | t < USER_TABLES :: !Present(Word(mem, child, t))
    ensures ChildDirectory(mem0, mem, kernel, child)
  {
  }

  /** Copying a page changes nothing in the child's directory. */
  lemma ChildDirectoryCopy(mem0: Memory, s: System, l: Layout, mem: Memory, child: nat, f: nat)
    requires ChildDirectory(mem0, s.mem, l.kernel, child) && Consistent(s, l) && child in s.spaces && f !in s.owner
    requires SameOutside(s.mem, mem, {f})
    ensures ChildDirectory(mem0, mem, l.kernel, child)
  {
    OwnedTaken(s, l, child);
    WordSame(s.mem, mem, {f}, child);
    hide Word, Present, User, Writable;
  }

  /** Mapping a page links its table as the user's, and writable. */
  lemma ChildDirectoryStep(mem0: Memory, s: System, s': System, kernel: nat, child: nat, v: nat, e: nat)
    requires ChildDirectory(mem0, s.mem, kernel, child) && Mapped(s, s', child, v, e) && v < USER_PAGES
    requires TableFlags(s'.mem, child, v / ENTRIES, Flags(true, false))
    ensures ChildDirectory(mem0, s'.mem, kernel, child)
  {
    EntryParts(TableOf(s'.mem, child, v / ENTRIES), Flags(true, false));
    hide Word, Present, User, Writable, Lookup, SameMap, SameOutside, TableOf;
  }

  /** The child may read page v if its parent has that page, and write it if it is writable. */
  ghost predicate ChildMay(mem0: Memory, mem: Memory, parent: nat, child: nat, v: nat) {
    (UserReaches(mem, child, v) <==> Present(Lookup(mem0, parent, v))) &&
    (UserWrites(mem, child, v) <==> Present(Lookup(mem0, parent, v)) && Writable(Lookup(mem0, parent, v)))
  }

  lemma KernelPartIs(mem0: Memory, mem: Memory, kernel: nat, child: nat)
    requires ChildDirectory(mem0, mem, kernel, child)
    ensures forall t: nat | t >= USER_TABLES :: Word(mem, child, t) == Word(mem0, kernel, t)
  {
  }

  lemma ChildReaches(s0: System, s: System, kernel: nat, parent: nat, child: nat, v: nat)
    requires ForkedPage(s0, s, parent, child, v) && ChildDirectory(s0.mem, s.mem, kernel, child) && v < USER_PAGES
    ensures ChildMay(s0.mem, s.mem, parent, child, v)
  {
    NotPresent();
    assert v / ENTRIES < USER_TABLES;
  }

  lemma NotPresent()
    ensures !Present(0)
  {
  }

  /** The part of a fork that does not depend on how far it has got: what was there stays, only
      frames that have been taken since are written, and the child owns these. */
  ghost predicate ForkFrame(s0: System, s: System, l: Layout, parent: nat, child: nat) {
    Consistent(s0, l) && Consistent(s, l) && parent in s0.spaces && child !in s0.spaces && child !in s0.taken &&
    s.spaces == s0.spaces + {child} && s0.taken <= s.taken &&
    (forall q | q in s0.spaces :: SameMap(s0.mem, s.mem, q)) &&
    SameOutside(s0.mem, s.mem, s.taken - s0.taken) &&
    OthersOwn(s, child) == s0.owner &&
    (forall f | f in s.owner && s.owner[f].pd == child :: f !in s0.taken) &&
    Loose(s) == Loose(s0)
  }

  /** Pages below v have been forked, the others are still absent in the child. */
  ghost predicate Forking(s0: System, s: System, parent: nat, child: nat, v: nat) {
    (forall u: nat | u < v && u < USER_PAGES :: ForkedPage(s0, s, parent, child, u)) &&
    (forall u: nat | v <= u < USER_PAGES :: !Present(Lookup(s.mem, child, u)))
  }

  /** The frames of a space's pages are not its directory, a table, or another writable page. */
  lemma PageFrame(s: System, l: Layout, pd: nat, v: nat, g: nat)
    requires Consistent(s, l) && pd in s.spaces && v < USER_PAGES && Present(Lookup(s.mem, pd, v))
    requires g in s.owner && s.owner[g] != Page(pd, v)
    ensures Target(Lookup(s.mem, pd, v)) != g && Target(Lookup(s.mem, pd, v)) < |s.mem|
  {
    assert SpaceOwned(s, l, pd);
    assert PageOwned(s, l, pd, v);
  }

  /** A page of the parent keeps its content during the fork. */
  lemma SourceKept(s0: System, s: System, l: Layout, parent: nat, child: nat, v: nat)
    requires ForkFrame(s0, s, l, parent, child) && v < USER_PAGES && Present(Lookup(s0.mem, parent, v))
    ensures Lookup(s.mem, parent, v) == Lookup(s0.mem, parent, v)
    ensures var f := Target(Lookup(s0.mem, parent, v)); f < |s0.mem| && |s.mem| == |s0.mem| && s.mem[f] == s0.mem[f]
  {
    assert SpaceOwned(s0, l, parent);
    assert PageOwned(s0, l, parent, v);
    assert SameMap(s0.mem, s.mem, parent);
    var f := Target(Lookup(s0.mem, parent, v));
    assert f !in s.taken - s0.taken;
  }

  /** The table that a mapping uses is owned by that space. */
  lemma MappedTable(sc: System, s': System, l: Layout, child: nat, v: nat, e: nat, tbl: nat)
    requires Consistent(s', l) && v < USER_PAGES && Mapped(sc, s', child, v, e) && child in s'.spaces && Present(e)
    requires tbl == TableOf(s'.mem, child, v / ENTRIES)
    ensures Owns(s', tbl, Table(child, v / ENTRIES)) && Owns(s', child, Dir(child))
    ensures Writable(e) ==> Owns(s', Target(e), Page(child, v))
  {
    assert SpaceOwned(s', l, child);
    assert TableOwned(s', child, v / ENTRIES);
    assert PageOwned(s', l, child, v);
    assert Lookup(s'.mem, child, v) == e;
  }

  lemma TableNotOld(s0: System, sc: System, s': System, l: Layout, child: nat, v: nat, e: nat, tbl: nat)
    requires Consistent(sc, l) && v < USER_PAGES && Mapped(sc, s', child, v, e) && child in sc.spaces
    requires tbl == TableOf(s'.mem, child, v / ENTRIES) && s0.taken <= sc.taken
    requires forall f | f in sc.owner && sc.owner[f].pd == child :: f !in s0.taken
    ensures tbl !in s0.taken && (tbl in sc.taken ==> tbl in sc.owner && sc.owner[tbl].pd == child)
  {
    assert SpaceOwned(sc, l, child);
    assert TableOwned(sc, child, v / ENTRIES);
  }

  /** How the owners and loose frames change when pages of the child get frames of their own. */
  lemma OwnersGrow(s: System, s': System, child: nat, v: nat, e: nat, tbl: nat, c: set<nat>)
    requires s'.owner == Reowned(s.owner[tbl := Table(child, v / ENTRIES)], child, v, 0, e)
    requires s'.taken == s.taken + c + {tbl} && c !! s.taken && s.owner.Keys <= s.taken
    requires tbl in s.taken ==> tbl in s.owner && s.owner[tbl].pd == child
    requires Present(e) && if Writable(e) then c == {Target(e)} else c == {}
    ensures OthersOwn(s', child) == OthersOwn(s, child) && Loose(s') == Loose(s)
    ensures forall f | f in s'.owner && s'.owner[f].pd == child :: f == tbl || f in c || (f in s.owner && s.owner[f].pd == child)
  {
  }

  /** One mapping in the child: sc is the state when the page's frame, the only one in c if it is
      writable, has its content, s' the state after mapping it. */
  ghost predicate OneMapping(s: System, sc: System, s': System, l: Layout, child: nat, v: nat, e: nat, c: set<nat>) {
    Consistent(sc, l) && Consistent(s', l) && v < USER_PAGES && child in s.spaces &&
    sc.spaces == s.spaces && sc.owner == s.owner && sc.taken == s.taken + c && c !! s.taken &&
    SameOutside(s.mem, sc.mem, c) && (forall q | q in s.spaces :: SameMap(s.mem, sc.mem, q)) &&
    Mapped(sc, s', child, v, e) && Present(e) && (if Writable(e) then c == {Target(e)} else c == {})
  }

  /** What one more mapping in the child, into a frame of its own or a shared one, leaves alone. */
  lemma ForkFrameStep(s0: System, s: System, sc: System, s': System, l: Layout, parent: nat, child: nat, v: nat, e: nat, c: set<nat>)
    requires ForkFrame(s0, s, l, parent, child) && OneMapping(s, sc, s', l, child, v, e, c)
    requires !Present(Lookup(sc.mem, child, v))
    ensures ForkFrame(s0, s', l, parent, child)
  {
    OneMappingUse(s, sc, s', l, child, v, e, c);
    var tbl := TableOf(s'.mem, child, v / ENTRIES);
    hide *;
    ForkFrameTable(s0, s, sc, s', l, parent, child, v, e, c, tbl);
    ForkFrameUse(s0, s, l, parent, child);
    OwnedTaken(s, l, child);
    MappedUse(sc, s', child, v, e, tbl);
    AbsentReowned(s.owner[tbl := Table(child, v / ENTRIES)], child, v, Lookup(sc.mem, child, v), e);
    OwnersGrow(s, s', child, v, e, tbl, c);
    MapsThrough(s0, s, sc, s', child, c, tbl);
    ForkFrameIntro(s0, s, s', l, parent, child, c, tbl);
  }

  lemma OneMappingUse(s: System, sc: System, s': System, l: Layout, child: nat, v: nat, e: nat, c: set<nat>)
    requires OneMapping(s, sc, s', l, child, v, e, c)
    ensures Consistent(sc, l) && Consistent(s', l) && v < USER_PAGES && child in s.spaces
    ensures sc.spaces == s.spaces && sc.owner == s.owner && sc.taken == s.taken + c && c !! s.taken
    ensures SameOutside(s.mem, sc.mem, c) && forall q | q in s.spaces :: SameMap(s.mem, sc.mem, q)
    ensures Mapped(sc, s', child, v, e) && Present(e) && if Writable(e) then c == {Target(e)} else c == {}
  {
    hide Consistent, Mapped, SameMap, SameOutside, Present, Writable, Target;
  }

  lemma MappedUse(s: System, s': System, pd: nat, v: nat, e: nat, tbl: nat)
    requires Mapped(s, s', pd, v, e) && tbl == TableOf(s'.mem, pd, v / ENTRIES)
    ensures s'.spaces == s.spaces && SameOutside(s.mem, s'.mem, {pd, tbl}) && s'.taken == s.taken + {tbl}
    ensures forall q | q in s.spaces && q != pd :: SameMap(s.mem, s'.mem, q)
    ensures s'.owner == Reowned(s.owner[tbl := Table(pd, v / ENTRIES)], pd, v, Lookup(s.mem, pd, v), e)
  {
    hide Lookup, Word, SameOutside, SameMap, Reowned;
  }

  lemma ForkFrameUse(s0: System, s: System, l: Layout, parent: nat, child: nat)
    requires ForkFrame(s0, s, l, parent, child)
    ensures Consistent(s0, l) && Consistent(s, l) && child in s.spaces && child !in s0.spaces && child !in s0.taken
    ensures s.spaces == s0.spaces + {child} && s0.taken <= s.taken
    ensures forall q | q in s0.spaces :: SameMap(s0.mem, s.mem, q)
    ensures SameOutside(s0.mem, s.mem, s.taken - s0.taken)
  {
    hide Consistent, SameMap, SameOutside, OthersOwn, Loose;
  }

  lemma ForkFrameIntro(s0: System, s: System, s': System, l: Layout, parent: nat, child: nat, c: set<nat>, tbl: nat)
    requires ForkFrame(s0, s, l, parent, child) && Consistent(s', l) && s'.spaces == s.spaces
    requires s'.taken == s.taken + c + {tbl} && c !! s.taken && tbl !in s0.taken
    requires forall q | q in s0.spaces :: SameMap(s0.mem, s'.mem, q)
    requires SameOutside(s0.mem, s'.mem, s'.taken - s0.taken)
    requires OthersOwn(s', child) == OthersOwn(s, child) && Loose(s') == Loose(s)
    requires forall f | f in s'.owner && s'.owner[f].pd == child :: f == tbl || f in c || (f in s.owner && s.owner[f].pd == child)
    ensures ForkFrame(s0, s', l, parent, child)
  {
    hide Consistent, SameMap, SameOutside, OthersOwn, Loose;
  }

  lemma MapsThrough(s0: System, s: System, sc: System, s': System, child: nat, c: set<nat>, tbl: nat)
    requires child !in s0.spaces && s0.taken <= s.taken && s.spaces == sc.spaces == s0.spaces + {child}
    requires c !! s.taken && tbl !in s0.taken && child !in s0.taken && child in s.taken && s'.taken == s.taken + c + {tbl}
    requires forall q | q in s0.spaces :: SameMap(s0.mem, s.mem, q)
    requires forall q | q in s.spaces :: SameMap(s.mem, sc.mem, q)
    requires forall q | q in sc.spaces && q != child :: SameMap(sc.mem, s'.mem, q)
    requires SameOutside(s0.mem, s.mem, s.taken - s0.taken) && SameOutside(s.mem, sc.mem, c) && SameOutside(sc.mem, s'.mem, {child, tbl})
    ensures forall q | q in s0.spaces :: SameMap(s0.mem, s'.mem, q)
    ensures SameOutside(s0.mem, s'.mem, s'.taken - s0.taken)
  {
    hide Lookup, Word;
    forall q | q in s0.spaces ensures SameMap(s0.mem, s'.mem, q) {
      assert SameMap(s.mem, sc.mem, q) && SameMap(sc.mem, s'.mem, q);
    }
  }

  lemma AbsentReowned(owner: map<nat, Role>, pd: nat, v: nat, before: nat, e: nat)
    requires !Present(before)
    ensures Reowned(owner, pd, v, before, e) == Reowned(owner, pd, v, 0, e)
  {
  }

  lemma OwnedTaken(s: System, l: Layout, child: nat)
    requires Consistent(s, l) && child in s.spaces
    ensures s.owner.Keys <= s.taken && Owns(s, child, Dir(child)) && child in s.taken
  {
    assert SpaceOwned(s, l, child);
  }

  lemma ForkFrameTable(s0: System, s: System, sc: System, s': System, l: Layout, parent: nat, child: nat, v: nat, e: nat,
                       c: set<nat>, tbl: nat)
    requires ForkFrame(s0, s, l, parent, child) && Consistent(sc, l) && Consistent(s', l) && v < USER_PAGES
    requires sc.spaces == s.spaces && sc.owner == s.owner && sc.taken == s.taken + c && c !! s.taken
    requires Mapped(sc, s', child, v, e) && Present(e) && tbl == TableOf(s'.mem, child, v / ENTRIES)
    ensures tbl !in s0.taken && (tbl in sc.taken ==> tbl in s.owner && s.owner[tbl].pd == child)
    ensures child !in s0.taken && s'.taken == s.taken + c + {tbl} && s'.spaces == s.spaces
  {
    hide Lookup, Word, SameMap, SameOutside, TableOf, SpaceOwned;
    TableNotOld(s0, sc, s', l, child, v, e, tbl);
  }

  /** A writable page has been copied to the frame f and mapped; pages below v are as forked before. */
  lemma ForkWritable(s0: System, s: System, sc: System, s': System, l: Layout, parent: nat, child: nat, v: nat, f: nat)
    requires ForkFrame(s0, s, l, parent, child) && Forking(s0, s, parent, child, v) && v < USER_PAGES
    requires Present(Lookup(s.mem, parent, v)) && Writable(Lookup(s.mem, parent, v))
    requires f !in s.taken && f < |s.mem| && Target(Lookup(s.mem, parent, v)) < |s.mem|
    requires sc == s.(taken := s.taken + {f}, mem := s.mem[f := s.mem[Target(Lookup(s.mem, parent, v))]])
    requires Consistent(sc, l) && Consistent(s', l) && forall q | q in s.spaces :: SameMap(s.mem, sc.mem, q)
    requires Mapped(sc, s', child, v, Entry(f, Flags(true, false)))
    ensures ForkFrame(s0, s', l, parent, child) && Forking(s0, s', parent, child, v + 1)
  {
    var e := Entry(f, Flags(true, false));
    EntryParts(f, Flags(true, false));
    hide *;
    WritableMapping(s0, s, sc, s', l, parent, child, v, f, e);
    ForkedCopy(s0, s, sc, s', l, parent, child, v, f, e);
    ForkFrameStep(s0, s, sc, s', l, parent, child, v, e, {f});
    ForkKeeps(s0, s, sc, s', l, parent, child, v, e, {f});
    ForkingIntro(s0, s', parent, child, v);
  }

  lemma WritableMapping(s0: System, s: System, sc: System, s': System, l: Layout, parent: nat, child: nat, v: nat, f: nat, e: nat)
    requires ForkFrame(s0, s, l, parent, child) && Forking(s0, s, parent, child, v) && v < USER_PAGES
    requires f !in s.taken && f < |s.mem| && Target(Lookup(s.mem, parent, v)) < |s.mem|
    requires sc == s.(taken := s.taken + {f}, mem := s.mem[f := s.mem[Target(Lookup(s.mem, parent, v))]])
    requires Consistent(sc, l) && Consistent(s', l) && forall q | q in s.spaces :: SameMap(s.mem, sc.mem, q)
    requires Mapped(sc, s', child, v, e) && Present(e) && Writable(e) && Target(e) == f
    ensures OneMapping(s, sc, s', l, child, v, e, {f}) && !Present(Lookup(sc.mem, child, v)) && child in sc.spaces
  {
    hide Consistent, SameMap, Mapped, ForkFrame, Forking, Present, Writable, Target, Lookup, SameOutside;
    StillAbsent(s0, s, sc, l, parent, child, v);
    ForkFrameUse(s0, s, l, parent, child);
    CopyOutside(s.mem, f, Target(Lookup(s.mem, parent, v)));
  }

  lemma CopyOutside(mem: Memory, f: nat, src: nat)
    requires f < |mem| && src < |mem|
    ensures SameOutside(mem, mem[f := mem[src]], {f})
  {
  }

  lemma StillAbsent(s0: System, s: System, sc: System, l: Layout, parent: nat, child: nat, v: nat)
    requires ForkFrame(s0, s, l, parent, child) && Forking(s0, s, parent, child, v) && v < USER_PAGES
    requires forall q | q in s.spaces :: SameMap(s.mem, sc.mem, q)
    ensures !Present(Lookup(sc.mem, child, v))
  {
    hide Consistent, Lookup, Present;
    assert SameMap(s.mem, sc.mem, child);
  }

  lemma ForkingIntro(s0: System, s: System, parent: nat, child: nat, v: nat)
    requires forall u: nat | u < v && u < USER_PAGES :: ForkedPage(s0, s, parent, child, u)
    requires forall u: nat | v < u < USER_PAGES :: !Present(Lookup(s.mem, child, u))
    requires ForkedPage(s0, s, parent, child, v)
    ensures Forking(s0, s, parent, child, v + 1)
  {
    hide ForkedPage, Lookup, Present;
  }

  lemma ForkedCopy(s0: System, s: System, sc: System, s': System, l: Layout, parent: nat, child: nat, v: nat, f: nat, e: nat)
    requires ForkFrame(s0, s, l, parent, child) && v < USER_PAGES && e == Entry(f, Flags(true, false))
    requires Target(e) == f && Present(e) && Writable(e) && User(e) && !Mmapped(e)
    requires Present(Lookup(s.mem, parent, v)) && Writable(Lookup(s.mem, parent, v)) && child in sc.spaces
    requires f !in s.taken && f < |s.mem| && Target(Lookup(s.mem, parent, v)) < |s.mem|
    requires sc == s.(taken := s.taken + {f}, mem := s.mem[f := s.mem[Target(Lookup(s.mem, parent, v))]])
    requires Consistent(s', l) && Mapped(sc, s', child, v, e)
    ensures ForkedPage(s0, s', parent, child, v)
  {
    var p := Target(Lookup(s.mem, parent, v));
    SourceKept(s0, s, l, parent, child, v) by { assert SameMap(s0.mem, s.mem, parent) by { ForkFrameUse(s0, s, l, parent, child); } }
    ForkFrameUse(s0, s, l, parent, child);
    CopyKept(sc, s', l, child, v, f, e);
    hide Consistent, ForkFrame, Entry, Flags, Lookup, Present, Writable, Target, Mapped, SameMap, SameOutside;
    assert s'.mem[f] == s.mem[p] == s0.mem[p];
  }

  /** The copy is not overwritten when it is mapped. */
  lemma CopyKept(sc: System, s': System, l: Layout, child: nat, v: nat, f: nat, e: nat)
    requires Consistent(s', l) && Mapped(sc, s', child, v, e) && v < USER_PAGES && child in sc.spaces
    requires Present(e) && Writable(e) && Target(e) == f && f < |sc.mem|
    ensures |s'.mem| == |sc.mem| && s'.mem[f] == sc.mem[f] && Lookup(s'.mem, child, v) == e
  {
    var tbl := TableOf(s'.mem, child, v / ENTRIES);
    MappedTable(sc, s', l, child, v, e, tbl);
    hide Consistent, Word, Present, Writable, Target, SameMap;
    assert f != tbl && f != child;
  }

  /** A read-only page has been mapped to its frame. */
  lemma ForkReadOnly(s0: System, s: System, s': System, l: Layout, parent: nat, child: nat, v: nat, f: nat)
    requires ForkFrame(s0, s, l, parent, child) && Forking(s0, s, parent, child, v) && v < USER_PAGES
    requires Present(Lookup(s.mem, parent, v)) && !Writable(Lookup(s.mem, parent, v)) && f == Target(Lookup(s.mem, parent, v))
    requires Consistent(s', l) && Mapped(s, s', child, v, Entry(f, Flags(false, false)))
    ensures ForkFrame(s0, s', l, parent, child) && Forking(s0, s', parent, child, v + 1)
  {
    var e := Entry(f, Flags(false, false));
    EntryParts(f, Flags(false, false));
    hide *;
    ReadOnlyMapping(s0, s, s', l, parent, child, v, e);
    ForkFrameStep(s0, s, s, s', l, parent, child, v, e, {});
    ForkKeeps(s0, s, s, s', l, parent, child, v, e, {});
    ReadOnlyShared(s0, s, s', l, parent, child, v, f, e);
    ForkingIntro(s0, s', parent, child, v);
  }

  lemma ReadOnlyMapping(s0: System, s: System, s': System, l: Layout, parent: nat, child: nat, v: nat, e: nat)
    requires ForkFrame(s0, s, l, parent, child) && Forking(s0, s, parent, child, v) && v < USER_PAGES
    requires Consistent(s', l) && Mapped(s, s', child, v, e) && Present(e) && !Writable(e)
    ensures OneMapping(s, s, s', l, child, v, e, {}) && !Present(Lookup(s.mem, child, v))
  {
    SelfSame(s);
    StillAbsent(s0, s, s, l, parent, child, v);
    ForkFrameUse(s0, s, l, parent, child);
    hide Consistent, SameMap, Mapped, ForkFrame, Forking, Present, Writable, Target, Lookup, SameOutside;
  }

  lemma ReadOnlyShared(s0: System, s: System, s': System, l: Layout, parent: nat, child: nat, v: nat, f: nat, e: nat)
    requires ForkFrame(s0, s, l, parent, child) && ForkFrame(s0, s', l, parent, child) && v < USER_PAGES
    requires Present(Lookup(s.mem, parent, v)) && !Writable(Lookup(s.mem, parent, v)) && f == Target(Lookup(s.mem, parent, v))
    requires Mapped(s, s', child, v, e) && Present(e) && !Writable(e) && User(e) && !Mmapped(e) && Target(e) == f
    requires e == Entry(f, Flags(false, false))
    ensures ForkedPage(s0, s', parent, child, v)
  {
    assert SameMap(s0.mem, s.mem, parent);
    assert Lookup(s'.mem, child, v) == e;
    SourceKept(s0, s', l, parent, child, v);
  }

  lemma SelfSame(s: System)
    ensures SameOutside(s.mem, s.mem, {}) && forall q :: SameMap(s.mem, s.mem, q)
  {
  }

  /** Pages forked before keep their entries and contents. */
  lemma ForkKeeps(s0: System, s: System, sc: System, s': System, l: Layout, parent: nat, child: nat, v: nat, e: nat, c: set<nat>)
    requires ForkFrame(s0, s, l, parent, child) && Forking(s0, s, parent, child, v) && OneMapping(s, sc, s', l, child, v, e, c)
    ensures forall u: nat | u < v && u < USER_PAGES :: ForkedPage(s0, s', parent, child, u)
    ensures forall u: nat | v < u < USER_PAGES :: !Present(Lookup(s'.mem, child, u))
  {
    var tbl := TableOf(s'.mem, child, v / ENTRIES);
    MappedTable(sc, s', l, child, v, e, tbl);
    assert SameMap(s.mem, sc.mem, child);
    forall u: nat | u < v && u < USER_PAGES ensures ForkedPage(s0, s', parent, child, u) {
      assert ForkedPage(s0, s, parent, child, u);
      PageKept(s, sc, s', l, child, u, v, e, c, tbl);
    }
  }

  lemma PageKept(s: System, sc: System, s': System, l: Layout, child: nat, u: nat, v: nat, e: nat, c: set<nat>, tbl: nat)
    requires Consistent(s', l) && u < USER_PAGES && u != v && child in s'.spaces
    requires SameMap(s.mem, sc.mem, child) && SameOutside(s.mem, sc.mem, c) && SameOutside(sc.mem, s'.mem, {child, tbl})
    requires forall w: nat | w < USER_PAGES :: Lookup(s'.mem, child, w) == if w == v then e else Lookup(sc.mem, child, w)
    requires Owns(s', tbl, Table(child, v / ENTRIES)) && Owns(s', child, Dir(child))
    requires Writable(e) ==> Owns(s', Target(e), Page(child, v))
    requires if Writable(e) then c == {Target(e)} else c == {}
    ensures Lookup(s'.mem, child, u) == Lookup(s.mem, child, u)
    ensures Present(Lookup(s.mem, child, u)) ==>
              FrameAt(s'.mem, Target(Lookup(s.mem, child, u))) == FrameAt(s.mem, Target(Lookup(s.mem, child, u)))
  {
    if Present(Lookup(s.mem, child, u)) {
      PageFrame(s', l, child, u, tbl);
      PageFrame(s', l, child, u, child);
      if Writable(e) {
        PageFrame(s', l, child, u, Target(e));
      }
    }
  }

  /** An absent page stays absent. */
  lemma ForkAbsent(s0: System, s: System, l: Layout, parent: nat, child: nat, v: nat, w: nat)
    requires ForkFrame(s0, s, l, parent, child) && Forking(s0, s, parent, child, v) && v <= w
    requires forall u: nat | v <= u < w && u < USER_PAGES :: !Present(Lookup(s.mem, parent, u))
    ensures Forking(s0, s, parent, child, w)
  {
    assert SameMap(s0.mem, s.mem, parent);
  }

  lemma LookupParts(mem: Memory, pd: nat, i: nat, j: nat)
    requires i < USER_TABLES && j < ENTRIES
    ensures (i * ENTRIES + j) < USER_PAGES
    ensures Lookup(mem, pd, i * ENTRIES + j) == if Present(Word(mem, pd, i)) then Word(mem, TableOf(mem, pd, i), j) else 0
  {
    assert (i * ENTRIES + j) / ENTRIES == i && (i * ENTRIES + j) % ENTRIES == j;
  }

  lemma PageAddress(i: nat, j: nat)
    requires i < USER_TABLES && j < ENTRIES
    ensures i * FRAME_4MB + j * FRAME_4KB < KERNEL_BASE
    ensures (i * FRAME_4MB + j * FRAME_4KB) / FRAME_4KB == i * ENTRIES + j
  {
  }

  lemma FrameAddress(f: nat, flags: nat)
    requires flags < 4096
    ensures AddressEntry(f * FRAME_4KB, flags) == Entry(f, flags)
    ensures Target(Entry(f, flags)) == f && (Present(Entry(f, flags)) <==> Present(flags))
    ensures (Writable(Entry(f, flags)) <==> Writable(flags)) && (Mmapped(Entry(f, flags)) <==> Mmapped(flags))
  {
    EntryParts(f, flags);
    assert f * FRAME_4KB / FRAME_4KB == f;
  }

  lemma PageFacts(s0: System, s: System, l: Layout, parent: nat, child: nat, v: nat)
    requires ForkFrame(s0, s, l, parent, child) && v < USER_PAGES && Present(Lookup(s.mem, parent, v))
    ensures Target(Lookup(s.mem, parent, v)) < |s.mem|
    ensures !Writable(Lookup(s.mem, parent, v)) ==> Mappable(s, l, Entry(Target(Lookup(s.mem, parent, v)), Flags(false, false)))
  {
    assert SpaceOwned(s, l, parent);
    assert PageOwned(s, l, parent, v);
    EntryParts(Target(Lookup(s.mem, parent, v)), Flags(false, false));
  }

  /** Copying into a frame that was just allocated. */
  lemma CopyFacts(s: System, l: Layout, f: nat, src: nat)
    requires Consistent(s, l) && f in s.taken && f !in s.owner && Unreferenced(s, f) && f < |s.mem| && src < |s.mem|
    ensures var sc := s.(mem := s.mem[f := s.mem[src]]);
            Consistent(sc, l) && (forall q | q in s.spaces :: SameMap(s.mem, sc.mem, q)) &&
            Mappable(sc, l, Entry(f, Flags(true, false)))
  {
    var sc := s.(mem := s.mem[f := s.mem[src]]);
    WriteData(s, l, sc.mem, {f});
    EntryParts(f, Flags(true, false));
    forall q | q in sc.spaces ensures !References(sc.mem, q, f) {
      assert !References(s.mem, q, f) && SameMap(s.mem, sc.mem, q);
    }
  }

  lemma ForkStart(s0: System, s: System, l: Layout, parent: nat, child: nat)
    requires Consistent(s0, l) && Consistent(s, l) && parent in s0.spaces && child !in s0.taken && child !in s0.spaces && child !in s0.owner
    requires s.spaces == s0.spaces + {child} && s.taken == s0.taken + {child} && s.owner == s0.owner[child := Dir(child)]
    requires SameOutside(s0.mem, s.mem, {child}) && forall q | q in s0.spaces :: SameMap(s0.mem, s.mem, q)
    requires forall v: nat | v < USER_PAGES :: !Present(Lookup(s.mem, child, v))
    ensures ForkFrame(s0, s, l, parent, child) && Forking(s0, s, parent, child, 0)
  {
    assert s.taken - s0.taken == {child};
    forall f | f in s0.owner ensures s0.owner[f].pd != child {
      assert RoleHolds(s0, f, s0.owner[f]);
    }
    assert OthersOwn(s, child) == s0.owner;
  }

  lemma ForkDone(s0: System, s: System, l: Layout, parent: nat, child: nat)
    requires ForkFrame(s0, s, l, parent, child) && Forking(s0, s, parent, child, USER_PAGES)
    ensures child !in s0.spaces && s.spaces == s0.spaces + {child}
    ensures forall v: nat | v < USER_PAGES :: ForkedPage(s0, s, parent, child, v)
    ensures forall q | q in s0.spaces :: SameMap(s0.mem, s.mem, q)
    ensures SameOutside(s0.mem, s.mem, s.taken - s0.taken) && s0.taken <= s.taken
    ensures OthersOwn(s, child) == s0.owner && Loose(s) == Loose(s0)
  {
    hide ForkedPage, Consistent, SameMap, SameOutside, OthersOwn, Loose;
  }

  lemma TableStays(s0: System, s: System, s': System, l: Layout, parent: nat, child: nat, t: nat)
    requires ForkFrame(s0, s, l, parent, child) && ForkFrame(s0, s', l, parent, child) && t < USER_TABLES
    ensures Word(s'.mem, parent, t) == Word(s.mem, parent, t)
  {
    assert SameMap(s0.mem, s.mem, parent) && SameMap(s0.mem, s'.mem, parent);
  }

  lemma AbsentTable(mem: Memory, pd: nat, t: nat)
    requires t < USER_TABLES && !Present(Word(mem, pd, t))
    ensures forall v: nat | t * ENTRIES <= v < (t + 1) * ENTRIES :: !Present(Lookup(mem, pd, v))
  {
    forall v: nat | t * ENTRIES <= v < (t + 1) * ENTRIES ensures !Present(Lookup(mem, pd, v)) {
      assert v / ENTRIES == t;
    }
  }

  // ------------------------------------------------------------------- isolation, freeing

  /** What a process reads in word j of its page u. */
  function ReadUser(mem: Memory, pd: nat, u: nat, j: nat): nat {
    Word(mem, Target(Lookup(mem, pd, u)), j)
  }

  /** A write to a writable page is seen there, and nowhere else: not by another process, and not in
      another page. */
  lemma WriteIsolated(s: System, l: Layout, pd: nat, v: nat, i: nat, w: nat)
    requires Consistent(s, l) && pd in s.spaces && v < USER_PAGES && i < ENTRIES
    requires Present(Lookup(s.mem, pd, v)) && Writable(Lookup(s.mem, pd, v))
    ensures var f := Target(Lookup(s.mem, pd, v));
            f < |s.mem| && |s.mem[f]| == ENTRIES &&
            var mem' := Store(s.mem, f, i, w);
            Consistent(s.(mem := mem'), l) && (forall q | q in s.spaces :: SameMap(s.mem, mem', q)) &&
            ReadUser(mem', pd, v, i) == w &&
            forall q: nat, u: nat, j: nat | q in s.spaces && u < USER_PAGES && Present(Lookup(mem', q, u)) && (q != pd || u != v || j != i) ::
              ReadUser(mem', q, u, j) == ReadUser(s.mem, q, u, j)
  {
    assert SpaceOwned(s, l, pd);
    assert PageOwned(s, l, pd, v);
    var f := Target(Lookup(s.mem, pd, v));
    var mem' := Store(s.mem, f, i, w);
    StoreOutside(s.mem, f, i, w);
    WriteData(s, l, mem', {f});
    hide Consistent, Lookup, Writable, Present, Target, Word;
    forall q: nat, u: nat, j: nat | q in s.spaces && u < USER_PAGES && Present(Lookup(mem', q, u)) && (q != pd || u != v || j != i)
      ensures ReadUser(mem', q, u, j) == ReadUser(s.mem, q, u, j)
    {
      assert SameMap(s.mem, mem', q);
      if q != pd || u != v {
        PageFrame(s, l, q, u, f);
      }
    }
    assert SameMap(s.mem, mem', pd);
  }

  /** No two of the read-only pages of pd below v are in the same frame of the allocator. */
  ghost predicate NoneTwice(s: System, l: Layout, pd: nat, v: nat) {
    forall u: nat, w: nat | u < w < v && w < USER_PAGES && ReadOnly(s.mem, pd, u) && ReadOnly(s.mem, pd, w) &&
                            l.lo <= Target(Lookup(s.mem, pd, u)) < l.hi ::
      Target(Lookup(s.mem, pd, u)) != Target(Lookup(s.mem, pd, w))
  }

  /** No other process maps a frame of the allocator that pd maps read-only. */
  ghost predicate Unshared(s: System, l: Layout, pd: nat) {
    forall f: nat, q | MapsReadOnly(s, pd, f) && l.lo <= f < l.hi && q in s.spaces && q != pd :: !References(s.mem, q, f)
  }

  /** Each of the allocator's frames that pd maps read-only belongs to one page of one process. */
  ghost predicate SoleReadOnly(s: System, l: Layout, pd: nat) {
    NoneTwice(s, l, pd, USER_PAGES) && Unshared(s, l, pd)
  }

  ghost predicate ReadOnly(mem: Memory, pd: nat, v: nat) {
    Present(Lookup(mem, pd, v)) && !Writable(Lookup(mem, pd, v))
  }

  /** Page u of pd is given back. */
  ghost predicate Freed(mem: Memory, pd: nat, freeReadOnly: bool, u: nat) {
    u < USER_PAGES && Present(Lookup(mem, pd, u)) && (Writable(Lookup(mem, pd, u)) || freeReadOnly)
  }

  ghost predicate PageGone(mem: Memory, pd: nat, freeReadOnly: bool, f: nat, v: nat) {
    exists u: nat :: u < v && Freed(mem, pd, freeReadOnly, u) && Target(Lookup(mem, pd, u)) == f
  }

  ghost predicate TableGone(mem: Memory, pd: nat, f: nat, t: nat) {
    exists i: nat :: i < t && i < USER_TABLES && Present(Word(mem, pd, i)) && TableOf(mem, pd, i) == f
  }

  /** gone are the frames of the pages below v and of the tables below t. */
  ghost predicate GoneIs(s: System, pd: nat, freeReadOnly: bool, gone: set<nat>, v: nat, t: nat) {
    forall f: nat :: f in gone <==> PageGone(s.mem, pd, freeReadOnly, f, v) || TableGone(s.mem, pd, f, t)
  }

  lemma GoneStart(s: System, pd: nat, freeReadOnly: bool)
    ensures GoneIs(s, pd, freeReadOnly, {}, 0, 0)
  {
  }

  lemma GoneStep(s: System, pd: nat, freeReadOnly: bool, gone: set<nat>, v: nat, t: nat)
    requires GoneIs(s, pd, freeReadOnly, gone, v, t)
    ensures GoneIs(s, pd, freeReadOnly,
                   if Freed(s.mem, pd, freeReadOnly, v) then gone + {Target(Lookup(s.mem, pd, v))} else gone, v + 1, t)
  {
    hide Lookup, Word, Target, TableGone;
    forall f: nat
      ensures PageGone(s.mem, pd, freeReadOnly, f, v + 1) <==>
              PageGone(s.mem, pd, freeReadOnly, f, v) || (Freed(s.mem, pd, freeReadOnly, v) && Target(Lookup(s.mem, pd, v)) == f)
    {
      if PageGone(s.mem, pd, freeReadOnly, f, v) {
        var u: nat :| u < v && Freed(s.mem, pd, freeReadOnly, u) && Target(Lookup(s.mem, pd, u)) == f;
        assert u < v + 1;
      }
    }
  }

  lemma GoneTable(s: System, pd: nat, freeReadOnly: bool, gone: set<nat>, i: nat)
    requires GoneIs(s, pd, freeReadOnly, gone, (i + 1) * ENTRIES, i) && i < USER_TABLES && Present(Word(s.mem, pd, i))
    ensures GoneIs(s, pd, freeReadOnly, gone + {TableOf(s.mem, pd, i)}, (i + 1) * ENTRIES, i + 1)
  {
    hide Lookup, Word, Target, PageGone;
    forall f: nat
      ensures TableGone(s.mem, pd, f, i + 1) <==> TableGone(s.mem, pd, f, i) || TableOf(s.mem, pd, i) == f
    {
      if TableGone(s.mem, pd, f, i) {
        var t: nat :| t < i && t < USER_TABLES && Present(Word(s.mem, pd, t)) && TableOf(s.mem, pd, t) == f;
        assert t < i + 1;
      }
    }
  }

  lemma GoneAbsent(s: System, pd: nat, freeReadOnly: bool, gone: set<nat>, i: nat)
    requires GoneIs(s, pd, freeReadOnly, gone, i * ENTRIES, i) && i < USER_TABLES && !Present(Word(s.mem, pd, i))
    ensures GoneIs(s, pd, freeReadOnly, gone, (i + 1) * ENTRIES, i + 1)
  {
    AbsentTable(s.mem, pd, i);
    hide Lookup, Word, Target;
    forall f: nat
      ensures PageGone(s.mem, pd, freeReadOnly, f, (i + 1) * ENTRIES) <==> PageGone(s.mem, pd, freeReadOnly, f, i * ENTRIES)
      ensures TableGone(s.mem, pd, f, i + 1) <==> TableGone(s.mem, pd, f, i)
    {
      if PageGone(s.mem, pd, freeReadOnly, f, i * ENTRIES) {
        var u: nat :| u < i * ENTRIES && Freed(s.mem, pd, freeReadOnly, u) && Target(Lookup(s.mem, pd, u)) == f;
        assert u < (i + 1) * ENTRIES;
      }
      if TableGone(s.mem, pd, f, i) {
        var t: nat :| t < i && t < USER_TABLES && Present(Word(s.mem, pd, t)) && TableOf(s.mem, pd, t) == f;
        assert t < i + 1;
      }
    }
  }

  /** What the frames given back so far are used for. */
  lemma GoneRole(s: System, l: Layout, pd: nat, freeReadOnly: bool, gone: set<nat>, v: nat, t: nat, f: nat)
    requires Consistent(s, l) && pd in s.spaces
    requires GoneIs(s, pd, freeReadOnly, gone, v, t) && f in gone && f in s.owner
    ensures (s.owner[f].Page? && s.owner[f].pd == pd && s.owner[f].v < v) || (s.owner[f].Table? && s.owner[f].pd == pd && s.owner[f].t < t)
  {
    assert SpaceOwned(s, l, pd);
    if PageGone(s.mem, pd, freeReadOnly, f, v) {
      var u: nat :| u < v && Freed(s.mem, pd, freeReadOnly, u) && Target(Lookup(s.mem, pd, u)) == f;
      assert PageOwned(s, l, pd, u);
    } else {
      var i: nat :| i < t && i < USER_TABLES && Present(Word(s.mem, pd, i)) && TableOf(s.mem, pd, i) == f;
      assert TableOwned(s, pd, i);
    }
  }

  /** The next page's frame is still taken, and a frame is given back for the second time just if it
      is mapped read-only at a page before. */
  lemma PageFreed(s: System, l: Layout, pd: nat, freeReadOnly: bool, gone: set<nat>, v: nat, t: nat)
    requires Consistent(s, l) && pd in s.spaces
    requires GoneIs(s, pd, freeReadOnly, gone, v, t) && Freed(s.mem, pd, freeReadOnly, v)
    ensures var f := Target(Lookup(s.mem, pd, v));
            f < |s.mem| && (Writable(Lookup(s.mem, pd, v)) ==> l.lo <= f < l.hi) && (l.lo <= f < l.hi ==> f in s.taken) &&
            (FreedOnce(s, l, pd, freeReadOnly, v + 1) <==>
             FreedOnce(s, l, pd, freeReadOnly, v) && !(l.lo <= f < l.hi && f in gone))
  {
    assert SpaceOwned(s, l, pd);
    assert PageOwned(s, l, pd, v);
    var f := Target(Lookup(s.mem, pd, v));
    if Writable(Lookup(s.mem, pd, v)) {
      if f in gone {
        GoneRole(s, l, pd, freeReadOnly, gone, v, t, f);
      }
      WritableOnce(s, l, pd, v);
    } else {
      ReadOnlyFreed(s, l, pd, gone, v, t, f);
      hide Lookup, Present, Writable, Target, GoneIs;
      ReadOnlyOnce(s, l, pd, v, f);
    }
  }

  /** What freeProcessPagedirectory does not do twice below page v. */
  ghost predicate FreedOnce(s: System, l: Layout, pd: nat, freeReadOnly: bool, v: nat) {
    freeReadOnly ==> NoneTwice(s, l, pd, v)
  }

  lemma FreedOnceIs(s: System, l: Layout, pd: nat, freeReadOnly: bool)
    ensures FreedOnce(s, l, pd, freeReadOnly, USER_PAGES) <==> freeReadOnly ==> NoneTwice(s, l, pd, USER_PAGES)
  {
  }

  lemma NoneFreed(s: System, l: Layout, pd: nat, freeReadOnly: bool)
    ensures FreedOnce(s, l, pd, freeReadOnly, 0)
  {
  }

  lemma TakenWithin(s: System, l: Layout, f: nat)
    requires Consistent(s, l) && f in s.taken
    ensures l.lo <= f < l.hi
  {
  }

  lemma WritableOnce(s: System, l: Layout, pd: nat, v: nat)
    requires !ReadOnly(s.mem, pd, v)
    ensures NoneTwice(s, l, pd, v + 1) <==> NoneTwice(s, l, pd, v)
  {
    hide ReadOnly;
  }

  lemma ReadOnlyOnce(s: System, l: Layout, pd: nat, v: nat, f: nat)
    requires ReadOnly(s.mem, pd, v) && v < USER_PAGES && f == Target(Lookup(s.mem, pd, v))
    ensures NoneTwice(s, l, pd, v + 1) <==>
            NoneTwice(s, l, pd, v) &&
            !(l.lo <= f < l.hi && exists u: nat :: u < v && ReadOnly(s.mem, pd, u) && Target(Lookup(s.mem, pd, u)) == f)
  {
    hide ReadOnly, Lookup, Target;
  }

  lemma ReadOnlyFreed(s: System, l: Layout, pd: nat, gone: set<nat>, v: nat, t: nat, f: nat)
    requires Consistent(s, l) && pd in s.spaces && v < USER_PAGES
    requires GoneIs(s, pd, true, gone, v, t) && ReadOnly(s.mem, pd, v) && f == Target(Lookup(s.mem, pd, v))
    ensures f in gone <==> exists u: nat :: u < v && ReadOnly(s.mem, pd, u) && Target(Lookup(s.mem, pd, u)) == f
  {
    assert SpaceOwned(s, l, pd);
    assert PageOwned(s, l, pd, v);
    if PageGone(s.mem, pd, true, f, v) {
      var u: nat :| u < v && Freed(s.mem, pd, true, u) && Target(Lookup(s.mem, pd, u)) == f;
      assert PageOwned(s, l, pd, u);
      assert ReadOnly(s.mem, pd, u);
    }
    forall i: nat | i < t && i < USER_TABLES && Present(Word(s.mem, pd, i)) ensures TableOf(s.mem, pd, i) != f {
      assert TableOwned(s, pd, i);
    }
    if u: nat :| u < v && ReadOnly(s.mem, pd, u) && Target(Lookup(s.mem, pd, u)) == f {
      assert Freed(s.mem, pd, true, u);
    }
  }

  lemma NothingFreed(s: System, l: Layout, pd: nat, freeReadOnly: bool, v: nat)
    requires !Freed(s.mem, pd, freeReadOnly, v)
    ensures FreedOnce(s, l, pd, freeReadOnly, v + 1) <==> FreedOnce(s, l, pd, freeReadOnly, v)
  {
    hide Lookup, Target;
  }

  lemma NothingFreedFrom(s: System, l: Layout, pd: nat, freeReadOnly: bool, v: nat, w: nat)
    requires v <= w && forall u: nat | v <= u < w && u < USER_PAGES :: !Present(Lookup(s.mem, pd, u))
    ensures FreedOnce(s, l, pd, freeReadOnly, w) <==> FreedOnce(s, l, pd, freeReadOnly, v)
  {
    hide Lookup, Target, Present;
  }

  lemma TableNotGone(s: System, l: Layout, pd: nat, freeReadOnly: bool, gone: set<nat>, i: nat)
    requires Consistent(s, l) && pd in s.spaces
    requires GoneIs(s, pd, freeReadOnly, gone, (i + 1) * ENTRIES, i) && i < USER_TABLES && Present(Word(s.mem, pd, i))
    ensures TableOf(s.mem, pd, i) in s.taken && TableOf(s.mem, pd, i) !in gone
  {
    assert SpaceOwned(s, l, pd);
    assert TableOwned(s, pd, i);
    if TableOf(s.mem, pd, i) in gone {
      GoneRole(s, l, pd, freeReadOnly, gone, (i + 1) * ENTRIES, i, TableOf(s.mem, pd, i));
    }
  }

  lemma DirNotGone(s: System, l: Layout, pd: nat, freeReadOnly: bool, gone: set<nat>)
    requires Consistent(s, l) && pd in s.spaces
    requires GoneIs(s, pd, freeReadOnly, gone, USER_PAGES, USER_TABLES)
    ensures pd in s.taken && pd !in gone
  {
    assert SpaceOwned(s, l, pd);
    if pd in gone {
      GoneRole(s, l, pd, freeReadOnly, gone, USER_PAGES, USER_TABLES, pd);
    }
  }

  /** Everything that pd owns is given back. */
  lemma OwnedGone(s: System, l: Layout, pd: nat, freeReadOnly: bool, gone: set<nat>, f: nat)
    requires Consistent(s, l) && pd in s.spaces && GoneIs(s, pd, freeReadOnly, gone, USER_PAGES, USER_TABLES)
    ensures f in Owned(s, pd) ==> f == pd || f in gone
    ensures freeReadOnly && MapsReadOnly(s, pd, f) ==> f in gone
  {
    if f in Owned(s, pd) {
      assert RoleHolds(s, f, s.owner[f]);
      match s.owner[f]
      case Dir(_) =>
      case Table(_, t) => assert TableGone(s.mem, pd, f, USER_TABLES);
      case Page(_, v) =>
        assert Freed(s.mem, pd, freeReadOnly, v);
        assert PageGone(s.mem, pd, freeReadOnly, f, USER_PAGES);
    }
    if freeReadOnly && MapsReadOnly(s, pd, f) {
      var v: nat :| v < USER_PAGES && Present(Lookup(s.mem, pd, v)) && !Writable(Lookup(s.mem, pd, v)) &&
                    Target(Lookup(s.mem, pd, v)) == f;
      assert Freed(s.mem, pd, freeReadOnly, v);
      assert PageGone(s.mem, pd, freeReadOnly, f, USER_PAGES);
    }
  }

  /** Nothing else is. */
  lemma GoneOwned(s: System, l: Layout, pd: nat, freeReadOnly: bool, gone: set<nat>, f: nat)
    requires Consistent(s, l) && pd in s.spaces
    requires GoneIs(s, pd, freeReadOnly, gone, USER_PAGES, USER_TABLES) && f in gone
    ensures f in Owned(s, pd) || (freeReadOnly && f !in s.owner && MapsReadOnly(s, pd, f))
  {
    if PageGone(s.mem, pd, freeReadOnly, f, USER_PAGES) {
      var u: nat :| u < USER_PAGES && Freed(s.mem, pd, freeReadOnly, u) && Target(Lookup(s.mem, pd, u)) == f;
      assert SpaceOwned(s, l, pd);
      assert PageOwned(s, l, pd, u);
    } else {
      var i: nat :| i < USER_TABLES && Present(Word(s.mem, pd, i)) && TableOf(s.mem, pd, i) == f;
      assert SpaceOwned(s, l, pd);
      assert TableOwned(s, pd, i);
    }
    if f in s.owner {
      GoneRole(s, l, pd, freeReadOnly, gone, USER_PAGES, USER_TABLES, f);
    }
  }

  /** What pd owns no other process refers to. */
  lemma NotShared(s: System, l: Layout, pd: nat, f: nat, q: nat)
    requires Consistent(s, l) && pd in s.spaces && q in s.spaces && q != pd && f in Owned(s, pd)
    ensures !References(s.mem, q, f)
  {
    assert SpaceOwned(s, l, q);
    forall v: nat | v < USER_PAGES && Present(Lookup(s.mem, q, v)) ensures Target(Lookup(s.mem, q, v)) != f {
      assert PageOwned(s, l, q, v);
    }
  }

  /** In the end all that pd owns, and its read-only frames if asked for, have been given back. */
  lemma GoneDone(s: System, l: Layout, pd: nat, freeReadOnly: bool, gone: set<nat>, all: set<nat>)
    requires Consistent(s, l) && pd in s.spaces
    requires GoneIs(s, pd, freeReadOnly, gone, USER_PAGES, USER_TABLES) && all == gone + {pd}
    ensures forall f: nat :: f in all <==> f in Owned(s, pd) || (freeReadOnly && MapsReadOnly(s, pd, f))
    ensures Owned(s, pd) <= all && forall f | f in all :: f in s.owner ==> s.owner[f].pd == pd
    ensures s.owner - all == OthersOwn(s, pd)
  {
    assert SpaceOwned(s, l, pd);
    assert pd in Owned(s, pd);
    hide Consistent, GoneIs, Lookup, Word, MapsReadOnly, SpaceOwned;
    forall f: nat
      ensures f in all ==> f in Owned(s, pd) || (freeReadOnly && f !in s.owner && MapsReadOnly(s, pd, f))
      ensures f in Owned(s, pd) || (freeReadOnly && MapsReadOnly(s, pd, f)) ==> f in all
    {
      OwnedGone(s, l, pd, freeReadOnly, gone, f);
      if f in gone {
        GoneOwned(s, l, pd, freeReadOnly, gone, f);
      }
    }
  }

  /** What is given back leaves all other processes intact just if, when read-only pages are given
      back too, no other process maps such a frame of the allocator; otherwise that process is left with
      a page in a frame that the allocator will hand out again. */
  lemma FreeingSharedPages(s: System, s': System, l: Layout, pd: nat, freeReadOnly: bool, gone: set<nat>)
    requires Consistent(s, l) && pd in s.spaces
    requires forall f: nat :: f in gone <==> f in Owned(s, pd) || (freeReadOnly && MapsReadOnly(s, pd, f))
    requires s' == s.(taken := s.taken - gone, spaces := s.spaces - {pd}, owner := s.owner - gone)
    ensures Consistent(s', l) <==> (freeReadOnly ==> Unshared(s, l, pd))
  {
    forall f: nat ensures MapsReadOnly(s, pd, f) ==> f !in s.owner && (l.lo <= f < l.hi ==> f in s.taken) {
      ReadOnlyLoose(s, l, pd, f);
    }
    if f: nat, q :| freeReadOnly && MapsReadOnly(s, pd, f) && l.lo <= f < l.hi && q in s.spaces && q != pd && References(s.mem, q, f) {
      LeftDangling(s, s', l, pd, q, f);
    } else {
      hide SpaceOwned, RoleHolds, References, MapsReadOnly, Word;
      var mine := set f | f in gone && f in s.taken;
      forall f, q | f in mine && q in s.spaces && q != pd ensures !References(s.mem, q, f) {
        if f in Owned(s, pd) {
          NotShared(s, l, pd, f, q);
        }
      }
      var s1 := RemoveSpace(s, l, pd, mine);
      assert s1 == s';
    }
  }

  lemma ReadOnlyLoose(s: System, l: Layout, pd: nat, f: nat)
    requires Consistent(s, l) && pd in s.spaces
    ensures MapsReadOnly(s, pd, f) ==> f !in s.owner && (l.lo <= f < l.hi ==> f in s.taken)
  {
    if MapsReadOnly(s, pd, f) {
      var v: nat :| v < USER_PAGES && Present(Lookup(s.mem, pd, v)) && !Writable(Lookup(s.mem, pd, v)) && Target(Lookup(s.mem, pd, v)) == f;
      assert SpaceOwned(s, l, pd);
      assert PageOwned(s, l, pd, v);
    }
  }

  /** q has a page in a frame that is not handed out. */
  lemma LeftDangling(s: System, s': System, l: Layout, pd: nat, q: nat, f: nat)
    requires Consistent(s, l) && pd in s.spaces && q in s'.spaces && s'.mem == s.mem && References(s.mem, q, f)
    requires f !in s.owner && f !in s'.taken && l.lo <= f < l.hi
    requires forall g | g in s'.owner :: g in s.owner
    ensures !Consistent(s', l)
  {
    var v: nat :| v < USER_PAGES && Present(Lookup(s.mem, q, v)) && Target(Lookup(s.mem, q, v)) == f;
    assert !PageOwned(s', l, q, v);
    assert !SpaceOwned(s', l, q);
  }

  // ---------------------------------------------------- inputs with which that goes wrong

  /** A frame without use may be mapped read-only, also more than once. */
  lemma ReadOnlyEntry(s: System, l: Layout, f: nat)
    requires f < |s.mem| && f !in s.owner && f in s.taken
    ensures Mappable(s, l, AddressEntry(f * FRAME_4KB, Flags(false, false)))
  {
    FrameAddress(f, Flags(false, false));
  }

  /** Page v of pd is read-only, in frame f. */
  ghost predicate ReadOnlyAt(mem: Memory, pd: nat, v: nat, f: nat) {
    v < USER_PAGES && ReadOnly(mem, pd, v) && Target(Lookup(mem, pd, v)) == f
  }

  lemma MappedReadOnly(s: System, s': System, l: Layout, pd: nat, virtualAddr: nat, f: nat)
    requires Consistent(s, l) && pd in s.spaces && virtualAddr < KERNEL_BASE
    requires Mapped(s, s', pd, virtualAddr / FRAME_4KB, AddressEntry(f * FRAME_4KB, Flags(false, false)))
    requires f in s.taken && f !in s.owner && f < |s.mem|
    ensures ReadOnlyAt(s'.mem, pd, virtualAddr / FRAME_4KB, f) && virtualAddr / FRAME_4KB < USER_PAGES
    ensures s'.spaces == s.spaces && f in s'.taken && f !in s'.owner && f < |s'.mem| == |s.mem|
  {
    FrameAddress(f, Flags(false, false));
    assert SpaceOwned(s, l, pd);
    assert TableOwned(s, pd, virtualAddr / FRAME_4KB / ENTRIES);
    hide SpaceOwned, SameMap, Lookup, Word;
  }

  lemma StaysMapped(s: System, s': System, pd: nat, v: nat, virtualAddr: nat, f: nat)
    requires ReadOnlyAt(s.mem, pd, v, f) && v != virtualAddr / FRAME_4KB
    requires Mapped(s, s', pd, virtualAddr / FRAME_4KB, AddressEntry(f * FRAME_4KB, Flags(false, false)))
    ensures ReadOnlyAt(s'.mem, pd, v, f)
  {
    hide Lookup;
  }

  /** After a fork, both have the page, in the same frame. */
  lemma SharedNow(s: System, s': System, l: Layout, pd: nat, child: nat, virtualAddr: nat, f: nat)
    requires ReadOnlyAt(s.mem, pd, virtualAddr / FRAME_4KB, f) && pd in s.spaces && child !in s.spaces && s'.spaces == s.spaces + {child}
    requires forall v: nat | v < USER_PAGES :: ForkedPage(s, s', pd, child, v)
    requires (forall q | q in s.spaces :: SameMap(s.mem, s'.mem, q)) && l.lo <= f < l.hi
    requires SameOutside(s.mem, s'.mem, s'.taken - s.taken)
    ensures ReadOnlyAt(s'.mem, child, virtualAddr / FRAME_4KB, f) && MapsReadOnly(s', pd, f)
    ensures !Unshared(s', l, pd) && |s'.mem| == |s.mem| && pd in s'.spaces
  {
    var v := virtualAddr / FRAME_4KB;
    assert SameMap(s.mem, s'.mem, pd) && ForkedPage(s, s', pd, child, v);
    assert Lookup(s'.mem, pd, v) == Lookup(s.mem, pd, v);
    assert MapsReadOnly(s', pd, f) && References(s'.mem, child, f);
  }

  lemma TwiceReadOnly(s: System, l: Layout, pd: nat, v: nat, w: nat, f: nat)
    requires ReadOnlyAt(s.mem, pd, v, f) && ReadOnlyAt(s.mem, pd, w, f) && v != w && l.lo <= f < l.hi
    ensures !NoneTwice(s, l, pd, USER_PAGES)
  {
    hide Lookup;
    var u, z := if v < w then v else w, if v < w then w else v;
    assert ReadOnly(s.mem, pd, u) && ReadOnly(s.mem, pd, z);
  }

  lemma ForkedWritable(s: System, s': System, parent: nat, child: nat, v: nat)
    requires ForkedPage(s, s', parent, child, v) && Present(Lookup(s.mem, parent, v)) && Writable(Lookup(s.mem, parent, v))
    ensures Present(Lookup(s'.mem, child, v)) && Writable(Lookup(s'.mem, child, v))
  {
  }

  lemma SameOwners(s: System, s': System, pd: nat)
    requires s.owner == s'.owner && s.taken == s'.taken
    ensures OthersOwn(s', pd) == OthersOwn(s, pd) && Loose(s') == Loose(s)
  {
  }

  /** Conservation: freeing all that the child owns, while what others own and the loose frames are
      as they were before the fork, gives back exactly what the fork, and the child since, took. */
  lemma TerminateRestores(s0: System, s1: System, s2: System, l: Layout, child: nat)
    requires Consistent(s0, l) && Consistent(s1, l)
    requires OthersOwn(s1, child) == s0.owner && Loose(s1) == Loose(s0)
    requires s2.owner == OthersOwn(s1, child)
    requires forall f :: f in s2.taken <==> f in s1.taken && f !in Owned(s1, child)
    ensures s2.taken == s0.taken && s2.owner == s0.owner
  {
    hide RoleHolds, SpaceOwned, Word;
    forall f ensures f in s2.taken <==> f in s0.taken {
      assert f in s1.taken <==> f in Loose(s1) || f in s1.owner;
      assert f in s0.taken <==> f in Loose(s0) || f in s0.owner;
      assert f in s0.owner <==> f in OthersOwn(s1, child);
      assert f in Loose(s1) <==> f in Loose(s0);
    }
  }

  /** Fork and a write of the child leave what every process reads. */
  lemma NobodyElse(s0: System, s1: System, s2: System, l: Layout, parent: nat, child: nat)
    requires Consistent(s0, l) && Consistent(s1, l) && child !in s0.spaces && s1.spaces == s0.spaces + {child}
    requires forall q | q in s0.spaces :: SameMap(s0.mem, s1.mem, q)
    requires SameOutside(s0.mem, s1.mem, s1.taken - s0.taken) && s0.taken <= s1.taken
    requires forall q | q in s1.spaces :: SameMap(s1.mem, s2.mem, q)
    requires forall q: nat, u: nat, j: nat | q in s1.spaces && u < USER_PAGES && Present(Lookup(s2.mem, q, u)) && q != child ::
               ReadUser(s2.mem, q, u, j) == ReadUser(s1.mem, q, u, j)
    ensures forall q, u: nat | q in s0.spaces && u < USER_PAGES :: Lookup(s2.mem, q, u) == Lookup(s0.mem, q, u)
    ensures forall q, u: nat, j: nat | q in s0.spaces && u < USER_PAGES && Present(Lookup(s0.mem, q, u)) ::
              ReadUser(s2.mem, q, u, j) == ReadUser(s0.mem, q, u, j)
  {
    forall q | q in s0.spaces ensures SameMap(s0.mem, s2.mem, q) {
      assert SameMap(s0.mem, s1.mem, q) && SameMap(s1.mem, s2.mem, q);
    }
    forall q, u: nat, j: nat | q in s0.spaces && u < USER_PAGES && Present(Lookup(s0.mem, q, u))
      ensures ReadUser(s2.mem, q, u, j) == ReadUser(s0.mem, q, u, j)
    {
      assert SameMap(s0.mem, s1.mem, q) && SameMap(s1.mem, s2.mem, q);
      assert SpaceOwned(s0, l, q);
      assert PageOwned(s0, l, q, u);
      WordSame(s0.mem, s1.mem, s1.taken - s0.taken, Target(Lookup(s0.mem, q, u)));
    }
  }
}
