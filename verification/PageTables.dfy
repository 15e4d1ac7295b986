/** Two-level page tables in physical memory, as kernel/src/paging.c lays them out, and the flat
    page map they stand for. Physical memory is a sequence of frames of 1024 words, indexed by
    physical page number; a kernel pointer to a frame is represented by that number.
 */
module PageTables {
  import opened BitStream

  type Memory = seq<seq<nat>>

  /** Page tables that belong to user space, and pages per table. */
  const USER_TABLES: nat := 768
  const ENTRIES: nat := 1024
  const USER_PAGES: nat := 786432

  function Word(mem: Memory, f: nat, i: nat): nat {
    if f < |mem| && i < |mem[f]| then mem[f][i] else 0
  }

  function Store(mem: Memory, f: nat, i: nat, w: nat): (r: Memory)
    requires f < |mem| && i < |mem[f]|
    ensures |r| == |mem|
  {
    var row: seq<nat> := mem[f][i := w];
    mem[f := row]
  }

  ghost predicate Sized(mem: Memory) {
    forall f | 0 <= f < |mem| :: |mem[f]| == ENTRIES
  }

  // --------------------------------------------------------------------------- entries

  predicate Present(e: nat) {
    e % 2 == 1
  }

  predicate Writable(e: nat) {
    (e / 2) % 2 == 1
  }

  predicate User(e: nat) {
    (e / 4) % 2 == 1
  }

  predicate Mmapped(e: nat) {
    (e / 512) % 2 == 1
  }

  /** The frame an entry points to. */
  function Target(e: nat): nat {
    e / 4096
  }

  function Entry(f: nat, flags: nat): nat {
    f * 4096 + flags
  }

  /** (!kernel << 2) | (writable << 1) | 1 */
  function Flags(writable: bool, kernel: bool): (r: nat)
    ensures r == 1 + (if writable then 2 else 0) + (if kernel then 0 else 4)
    ensures r < 4096 && Present(r) && (Writable(r) <==> writable) && (User(r) <==> !kernel) && !Mmapped(r)
  {
    FlagWords();
    if kernel then (if writable then Or(Or(0, 2), 1) else Or(Or(0, 0), 1))
    else if writable then Or(Or(4, 2), 1) else Or(Or(4, 0), 1)
  }

  lemma FlagWords()
    ensures Or(Or(0, 2), 1) == 3 && Or(Or(0, 0), 1) == 1 && Or(Or(4, 2), 1) == 7 && Or(Or(4, 0), 1) == 5
  {
    OrZero(2);
    OrZero(1);
    OrZero(4);
    OrSwap();
    assert Or(4, 2) == 6 by { assert Or(2, 1) == 2 * Or(1, 0) + 1; assert Or(4, 2) == 2 * Or(2, 1); }
    assert Or(6, 1) == 7 by { OrZero(3); assert Or(6, 1) == 2 * Or(3, 0) + 1; }
    assert Or(4, 1) == 5 by { OrZero(2); assert Or(4, 1) == 2 * Or(2, 0) + 1; }
  }

  lemma OrSwap()
    ensures Or(2, 1) == 3
  {
    OrZero(1);
    assert Or(2, 1) == 2 * Or(1, 0) + 1;
  }

  lemma EntryParts(f: nat, flags: nat)
    requires flags < 4096
    ensures Target(Entry(f, flags)) == f
    ensures Present(Entry(f, flags)) <==> Present(flags)
    ensures Writable(Entry(f, flags)) <==> Writable(flags)
    ensures User(Entry(f, flags)) <==> User(flags)
    ensures Mmapped(Entry(f, flags)) <==> Mmapped(flags)
  {
    hide Present, Writable, User, Mmapped, Target;
    assert Entry(f, flags) == f * 4096 + flags;
    TargetPart(f, flags);
    PresentPart(f, flags);
    WritablePart(f, flags);
    UserPart(f, flags);
    MmappedPart(f, flags);
  }

  lemma TargetPart(f: nat, flags: nat)
    requires flags < 4096
    ensures Target(f * 4096 + flags) == f
  {
  }

  lemma PresentPart(f: nat, flags: nat)
    ensures Present(f * 4096 + flags) <==> Present(flags)
  {
    assert f * 4096 + flags == 2 * (f * 2048) + flags;
  }

  lemma WritablePart(f: nat, flags: nat)
    ensures Writable(f * 4096 + flags) <==> Writable(flags)
  {
    assert (f * 4096 + flags) / 2 == f * 2048 + flags / 2;
  }

  lemma UserPart(f: nat, flags: nat)
    ensures User(f * 4096 + flags) <==> User(flags)
  {
    assert (f * 4096 + flags) / 4 == f * 1024 + flags / 4;
  }

  lemma MmappedPart(f: nat, flags: nat)
    ensures Mmapped(f * 4096 + flags) <==> Mmapped(flags)
  {
    assert (f * 4096 + flags) / 512 == f * 8 + flags / 512;
  }

  // ------------------------------------------------------------------------- page map

  /** The entry of user page v, 0 if its table is absent. */
  function Lookup(mem: Memory, pd: nat, v: nat): nat {
    var e := Word(mem, pd, v / ENTRIES);
    if Present(e) then Word(mem, Target(e), v % ENTRIES) else 0
  }

  /** What the processor allows a process: both levels must be the user's, and writable for a write. */
  ghost predicate UserReaches(mem: Memory, pd: nat, v: nat) {
    var d, e := Word(mem, pd, v / ENTRIES), Lookup(mem, pd, v);
    Present(d) && User(d) && Present(e) && User(e)
  }

  ghost predicate UserWrites(mem: Memory, pd: nat, v: nat) {
    UserReaches(mem, pd, v) && Writable(Word(mem, pd, v / ENTRIES)) && Writable(Lookup(mem, pd, v))
  }

  /** The directory's entry for table t is its frame with these flags. */
  ghost predicate TableFlags(mem: Memory, pd: nat, t: nat, flags: nat) {
    Word(mem, pd, t) == Entry(TableOf(mem, pd, t), flags)
  }

  /** The frame of table t, if present. */
  function TableOf(mem: Memory, pd: nat, t: nat): nat {
    Target(Word(mem, pd, t))
  }

  // ------------------------------------------------------------------------ ownership

  /** What a frame is used for: a directory, a table, or a writable page, of which space. */
  datatype Role = Dir(pd: nat) | Table(pd: nat, t: nat) | Page(pd: nat, v: nat)

  /** Memory, the frames handed out by the allocator, the directories of all processes, and the
      roles of the frames that processes own. */
  datatype System = System(mem: Memory, taken: set<nat>, spaces: set<nat>, owner: map<nat, Role>)

  /** Frames lo .. hi-1 are the allocator's; kernel is the frame of the kernel's own directory. */
  datatype Layout = Layout(lo: nat, hi: nat, kernel: nat)

  ghost predicate RoleHolds(s: System, f: nat, r: Role) {
    r.pd in s.spaces &&
    match r
    case Dir(pd) => f == pd
    case Table(pd, t) => t < USER_TABLES && Present(Word(s.mem, pd, t)) && TableOf(s.mem, pd, t) == f
    case Page(pd, v) =>
      v < USER_PAGES && Present(Lookup(s.mem, pd, v)) && Writable(Lookup(s.mem, pd, v)) &&
      Target(Lookup(s.mem, pd, v)) == f
  }

  ghost predicate Owns(s: System, f: nat, r: Role) {
    f in s.owner && s.owner[f] == r
  }

  ghost predicate TableOwned(s: System, pd: nat, t: nat) {
    t < USER_TABLES && Present(Word(s.mem, pd, t)) ==> Owns(s, TableOf(s.mem, pd, t), Table(pd, t))
  }

  /** A writable page is owned, a read-only one points to a frame that no process owns and that the
      allocator will not hand out. */
  ghost predicate PageOwned(s: System, l: Layout, pd: nat, v: nat) {
    v < USER_PAGES && Present(Lookup(s.mem, pd, v)) ==>
      var f := Target(Lookup(s.mem, pd, v));
      f < |s.mem| && (Mmapped(Lookup(s.mem, pd, v)) ==> Writable(Lookup(s.mem, pd, v))) &&
      if Writable(Lookup(s.mem, pd, v)) then Owns(s, f, Page(pd, v))
      else f !in s.owner && (l.lo <= f < l.hi ==> f in s.taken)
  }

  ghost predicate SpaceOwned(s: System, l: Layout, pd: nat) {
    Owns(s, pd, Dir(pd)) && (forall t: nat :: TableOwned(s, pd, t)) && (forall v: nat :: PageOwned(s, l, pd, v))
  }

  /** No frame has two uses, and the roles are exactly the uses. */
  ghost predicate Consistent(s: System, l: Layout) {
    Sized(s.mem) && l.lo <= l.hi <= |s.mem| && l.kernel < |s.mem| && !(l.lo <= l.kernel < l.hi) &&
    (forall t: nat | t < USER_TABLES :: !Present(Word(s.mem, l.kernel, t))) &&
    (forall f | f in s.taken :: l.lo <= f < l.hi) &&
    (forall f | f in s.owner :: f in s.taken && RoleHolds(s, f, s.owner[f])) &&
    (forall pd | pd in s.spaces :: SpaceOwned(s, l, pd))
  }

  // --------------------------------------------------------------- what a change can affect

  /** Only frames in c differ. */
  ghost predicate SameOutside(mem: Memory, mem': Memory, c: set<nat>) {
    |mem| == |mem'| && forall f: nat | f < |mem| && f !in c :: mem[f] == mem'[f]
  }

  lemma StoreOutside(mem: Memory, f: nat, i: nat, w: nat)
    requires f < |mem| && i < |mem[f]|
    ensures SameOutside(mem, Store(mem, f, i, w), {f})
    ensures Sized(mem) ==> Sized(Store(mem, f, i, w))
    ensures forall g: nat, j: nat :: Word(Store(mem, f, i, w), g, j) == if g == f && j == i then w else Word(mem, g, j)
  {
  }

  /** Space q maps pages as before. */
  ghost predicate SameMap(mem: Memory, mem': Memory, q: nat) {
    (forall t: nat | t < USER_TABLES :: Word(mem', q, t) == Word(mem, q, t)) &&
    (forall v: nat | v < USER_PAGES :: Lookup(mem', q, v) == Lookup(mem, q, v))
  }

  /** Frames that are not a directory or table of q can change without changing q's page map. */
  lemma MapUnaffected(s: System, l: Layout, mem': Memory, c: set<nat>, q: nat)
    requires Consistent(s, l) && q in s.spaces && SameOutside(s.mem, mem', c)
    requires forall f | f in c && f in s.owner :: s.owner[f].Page? || s.owner[f].pd != q
    ensures SameMap(s.mem, mem', q)
  {
    assert SpaceOwned(s, l, q);
    assert q !in c;
    WordSame(s.mem, mem', c, q);
    forall v: nat | v < USER_PAGES ensures Lookup(mem', q, v) == Lookup(s.mem, q, v) {
      var t := v / ENTRIES;
      assert TableOwned(s, q, t);
      if Present(Word(s.mem, q, t)) {
        WordSame(s.mem, mem', c, TableOf(s.mem, q, t));
      }
    }
  }

  lemma WordSame(mem: Memory, mem': Memory, c: set<nat>, f: nat)
    requires SameOutside(mem, mem', c) && f !in c
    ensures forall i: nat :: Word(mem', f, i) == Word(mem, f, i)
  {
  }

  /** If q's map and what the allocator and the owners say about its frames stay, q stays owned. */
  lemma StaysOwned(s: System, s': System, l: Layout, q: nat)
    requires SpaceOwned(s, l, q) && SameMap(s.mem, s'.mem, q) && |s.mem| == |s'.mem|
    requires forall f, r | Owns(s, f, r) && r.pd == q :: Owns(s', f, r)
    requires forall f | f in s'.owner && f !in s.owner :: !References(s.mem, q, f)
    requires forall f | f in s.taken && f !in s'.taken :: !References(s.mem, q, f)
    ensures SpaceOwned(s', l, q)
  {
    forall t: nat ensures TableOwned(s', q, t) {
      assert TableOwned(s, q, t);
    }
    forall v: nat ensures PageOwned(s', l, q, v) {
      assert PageOwned(s, l, q, v);
      if v < USER_PAGES && Present(Lookup(s.mem, q, v)) {
        assert References(s.mem, q, Target(Lookup(s.mem, q, v)));
      }
    }
  }

  /** Some page of q points to f. */
  ghost predicate References(mem: Memory, q: nat, f: nat) {
    exists v: nat :: v < USER_PAGES && Present(Lookup(mem, q, v)) && Target(Lookup(mem, q, v)) == f
  }

  ghost predicate Unreferenced(s: System, f: nat) {
    forall q | q in s.spaces :: !References(s.mem, q, f)
  }

  /** A frame that the allocator just handed out is not mapped anywhere and has no role. */
  lemma FreshFrame(s: System, l: Layout, f: nat)
    requires Consistent(s, l) && l.lo <= f < l.hi && f !in s.taken
    ensures Consistent(s.(taken := s.taken + {f}), l)
    ensures f !in s.owner && Unreferenced(s.(taken := s.taken + {f}), f) && f !in s.spaces
  {
    var s' := s.(taken := s.taken + {f});
    forall q | q in s.spaces ensures SpaceOwned(s', l, q) && !References(s.mem, q, f) && f != q {
      assert SpaceOwned(s, l, q);
      forall v: nat ensures PageOwned(s', l, q, v) {
        assert PageOwned(s, l, q, v);
      }
      forall t: nat ensures TableOwned(s', q, t) {
        assert TableOwned(s, q, t);
      }
      forall v: nat | v < USER_PAGES && Present(Lookup(s.mem, q, v)) ensures Target(Lookup(s.mem, q, v)) != f {
        assert PageOwned(s, l, q, v);
      }
    }
    forall g | g in s'.owner ensures g in s'.taken && RoleHolds(s', g, s'.owner[g]) {
      assert RoleHolds(s, g, s.owner[g]);
    }
  }

  lemma RoleStays(s: System, s': System, f: nat, r: Role)
    requires RoleHolds(s, f, r) && r.pd in s'.spaces && SameMap(s.mem, s'.mem, r.pd)
    ensures RoleHolds(s', f, r)
  {
  }

  /** Consistency is a matter of each space, if the kernel's directory stays. */
  lemma ConsistentWhen(s: System, s': System, l: Layout)
    requires Consistent(s, l) && |s'.mem| == |s.mem| && Sized(s'.mem)
    requires forall t: nat | t < USER_TABLES :: Word(s'.mem, l.kernel, t) == Word(s.mem, l.kernel, t)
    requires forall f | f in s'.taken :: l.lo <= f < l.hi
    requires forall f | f in s'.owner :: f in s'.taken && RoleHolds(s', f, s'.owner[f])
    requires forall q | q in s'.spaces :: SpaceOwned(s', l, q)
    ensures Consistent(s', l)
  {
    hide Word, SpaceOwned, RoleHolds;
  }

  lemma KernelApart(s: System, l: Layout, mem': Memory, c: set<nat>)
    requires Consistent(s, l) && SameOutside(s.mem, mem', c) && forall f | f in c :: f in s.taken
    ensures forall t: nat | t < USER_TABLES :: Word(mem', l.kernel, t) == Word(s.mem, l.kernel, t)
  {
    WordSame(s.mem, mem', c, l.kernel);
  }

  /** Data written to frames that are not directories or tables changes no page map. */
  lemma WriteData(s: System, l: Layout, mem': Memory, c: set<nat>)
    requires Consistent(s, l) && SameOutside(s.mem, mem', c) && Sized(mem')
    requires forall f | f in c :: f in s.taken && (f in s.owner ==> s.owner[f].Page?)
    ensures Consistent(s.(mem := mem'), l)
    ensures forall q | q in s.spaces :: SameMap(s.mem, mem', q)
  {
    var s' := s.(mem := mem');
    forall q | q in s.spaces ensures SameMap(s.mem, mem', q) && SpaceOwned(s', l, q) {
      MapUnaffected(s, l, mem', c, q);
      StaysOwned(s, s', l, q);
    }
    forall f | f in s.owner ensures RoleHolds(s', f, s.owner[f]) {
      RoleStays(s, s', f, s.owner[f]);
    }
    KernelApart(s, l, mem', c);
    ConsistentWhen(s, s', l);
  }

  // -------------------------------------------------------------------- linking a new table

  function Zeros(): seq<nat> {
    seq(ENTRIES, i => 0)
  }

  function Cleared(mem: Memory, f: nat): (r: Memory)
    requires f < |mem|
    ensures |r| == |mem|
  {
    mem[f := Zeros()]
  }

  function LinkedMem(mem: Memory, pd: nat, t: nat, tbl: nat, pde: nat): Memory
    requires tbl < |mem| && pd < |mem| && t < ENTRIES && Sized(mem)
  {
    Store(Cleared(mem, tbl), pd, t, pde)
  }

  lemma LinkedWords(mem: Memory, pd: nat, t: nat, tbl: nat, pde: nat)
    requires tbl < |mem| && pd < |mem| && t < ENTRIES && Sized(mem) && tbl != pd
    ensures Sized(LinkedMem(mem, pd, t, tbl, pde)) && SameOutside(mem, LinkedMem(mem, pd, t, tbl, pde), {pd, tbl})
    ensures forall i: nat :: Word(LinkedMem(mem, pd, t, tbl, pde), tbl, i) == 0
    ensures forall i: nat :: Word(LinkedMem(mem, pd, t, tbl, pde), pd, i) == if i == t then pde else Word(mem, pd, i)
  {
    var m := Cleared(mem, tbl);
    assert Sized(m);
    StoreOutside(m, pd, t, pde);
  }

  /** A cleared fresh frame becomes an empty table: no page map changes. */
  lemma LinkTable(s: System, l: Layout, pd: nat, t: nat, tbl: nat, pde: nat) returns (s': System)
    requires Consistent(s, l) && pd in s.spaces && t < USER_TABLES && !Present(Word(s.mem, pd, t))
    requires tbl in s.taken && tbl !in s.owner && Unreferenced(s, tbl) && tbl !in s.spaces
    requires Present(pde) && Target(pde) == tbl
    ensures tbl < |s.mem| && pd < |s.mem|
    ensures s' == s.(mem := LinkedMem(s.mem, pd, t, tbl, pde), owner := s.owner[tbl := Table(pd, t)])
    ensures Consistent(s', l) && TableOf(s'.mem, pd, t) == tbl && Present(Word(s'.mem, pd, t)) && Word(s'.mem, pd, t) == pde
    ensures SameOutside(s.mem, s'.mem, {pd, tbl})
    ensures forall q | q in s.spaces :: forall v: nat | v < USER_PAGES :: Lookup(s'.mem, q, v) == Lookup(s.mem, q, v)
  {
    assert SpaceOwned(s, l, pd);
    LinkedWords(s.mem, pd, t, tbl, pde);
    s' := s.(mem := LinkedMem(s.mem, pd, t, tbl, pde), owner := s.owner[tbl := Table(pd, t)]);
    LinkOwn(s, s', l, pd, t, tbl, pde);
    forall q | q in s.spaces
      ensures SpaceOwned(s', l, q)
      ensures forall v: nat | v < USER_PAGES :: Lookup(s'.mem, q, v) == Lookup(s.mem, q, v)
      ensures q != pd ==> SameMap(s.mem, s'.mem, q)
    {
      if q != pd {
        MapUnaffected(s, l, s'.mem, {pd, tbl}, q);
        assert SpaceOwned(s, l, q) && !References(s.mem, q, tbl);
        StaysOwned(s, s', l, q);
      }
    }
    forall f | f in s'.owner ensures f in s'.taken && RoleHolds(s', f, s'.owner[f]) {
      if f != tbl {
        assert RoleHolds(s, f, s.owner[f]);
        if s.owner[f].pd != pd {
          RoleStays(s, s', f, s.owner[f]);
        }
      }
    }
    KernelApart(s, l, s'.mem, {pd, tbl});
    ConsistentWhen(s, s', l);
  }

  lemma LinkOwn(s: System, s': System, l: Layout, pd: nat, t: nat, tbl: nat, pde: nat)
    requires Consistent(s, l) && pd in s.spaces && t < USER_TABLES && !Present(Word(s.mem, pd, t))
    requires tbl in s.taken && tbl !in s.owner && Unreferenced(s, tbl) && tbl !in s.spaces
    requires Present(pde) && Target(pde) == tbl && tbl < |s.mem| && pd < |s.mem|
    requires s' == s.(mem := LinkedMem(s.mem, pd, t, tbl, pde), owner := s.owner[tbl := Table(pd, t)])
    ensures SpaceOwned(s', l, pd)
    ensures forall v: nat | v < USER_PAGES :: Lookup(s'.mem, pd, v) == Lookup(s.mem, pd, v)
  {
    assert SpaceOwned(s, l, pd);
    LinkedWords(s.mem, pd, t, tbl, pde);
    var c := {pd, tbl};
    forall v: nat | v < USER_PAGES ensures Lookup(s'.mem, pd, v) == Lookup(s.mem, pd, v) {
      var u := v / ENTRIES;
      assert Word(s'.mem, pd, u) == if u == t then pde else Word(s.mem, pd, u);
      if u != t && Present(Word(s.mem, pd, u)) {
        assert TableOwned(s, pd, u);
        WordSame(s.mem, s'.mem, c, TableOf(s.mem, pd, u));
      }
    }
    forall u: nat ensures TableOwned(s', pd, u) {
      assert TableOwned(s, pd, u);
    }
    assert !References(s.mem, pd, tbl);
    forall v: nat ensures PageOwned(s', l, pd, v) {
      assert PageOwned(s, l, pd, v);
    }
  }

  // --------------------------------------------------------------- writing a page's entry

  /** The owners after page v of pd, whose entry was old, gets the entry e. */
  function Reowned(owner: map<nat, Role>, pd: nat, v: nat, before: nat, e: nat): map<nat, Role> {
    var without := if Present(before) && Writable(before) then owner - {Target(before)} else owner;
    if Present(e) && Writable(e) then without[Target(e) := Page(pd, v)] else without
  }

  /** A frame that page v of pd may be made to point to: not in use as a directory, table or
      writable page; if it is to be writable, not mapped anywhere. */
  ghost predicate Mappable(s: System, l: Layout, e: nat) {
    Present(e) ==>
      Target(e) < |s.mem| && Target(e) !in s.owner && (Mmapped(e) ==> Writable(e)) &&
      if Writable(e) then Target(e) in s.taken && Unreferenced(s, Target(e))
      else (l.lo <= Target(e) < l.hi ==> Target(e) in s.taken)
  }

  lemma SetWords(s: System, l: Layout, pd: nat, v: nat, e: nat)
    requires Consistent(s, l) && pd in s.spaces && v < USER_PAGES && Present(Word(s.mem, pd, v / ENTRIES))
    ensures var tbl := TableOf(s.mem, pd, v / ENTRIES);
            tbl < |s.mem| && Owns(s, tbl, Table(pd, v / ENTRIES)) && tbl in s.taken && tbl != pd && pd in s.taken &&
            var m := Store(s.mem, tbl, v % ENTRIES, e);
            Sized(m) && SameOutside(s.mem, m, {tbl}) &&
            (forall i: nat :: Word(m, pd, i) == Word(s.mem, pd, i)) &&
            (forall u: nat | u < USER_PAGES :: Lookup(m, pd, u) == if u == v then e else Lookup(s.mem, pd, u))
  {
    var t := v / ENTRIES;
    var tbl := TableOf(s.mem, pd, t);
    assert SpaceOwned(s, l, pd);
    assert TableOwned(s, pd, t);
    var m := Store(s.mem, tbl, v % ENTRIES, e);
    StoreOutside(s.mem, tbl, v % ENTRIES, e);
    forall u: nat | u < USER_PAGES ensures Lookup(m, pd, u) == if u == v then e else Lookup(s.mem, pd, u) {
      var tu := u / ENTRIES;
      assert TableOwned(s, pd, tu);
      assert Word(m, pd, tu) == Word(s.mem, pd, tu);
      if tu == t && u != v {
        assert u % ENTRIES != v % ENTRIES;
      }
    }
  }

  /** Writing one entry of a present table changes exactly that page. */
  lemma SetPage(s: System, l: Layout, pd: nat, v: nat, e: nat) returns (s': System)
    requires Consistent(s, l) && pd in s.spaces && v < USER_PAGES && Present(Word(s.mem, pd, v / ENTRIES))
    requires Mappable(s, l, e)
    ensures TableOf(s.mem, pd, v / ENTRIES) < |s.mem|
    ensures |s.mem[TableOf(s.mem, pd, v / ENTRIES)]| == ENTRIES
    ensures s' == s.(mem := Store(s.mem, TableOf(s.mem, pd, v / ENTRIES), v % ENTRIES, e),
                     owner := Reowned(s.owner, pd, v, Lookup(s.mem, pd, v), e))
    ensures Consistent(s', l)
    ensures SameOutside(s.mem, s'.mem, {TableOf(s.mem, pd, v / ENTRIES)})
    ensures forall u: nat | u < USER_PAGES :: Lookup(s'.mem, pd, u) == if u == v then e else Lookup(s.mem, pd, u)
    ensures forall q | q in s.spaces && q != pd :: SameMap(s.mem, s'.mem, q)
  {
    SetWords(s, l, pd, v, e);
    var tbl := TableOf(s.mem, pd, v / ENTRIES);
    var before := Lookup(s.mem, pd, v);
    s' := s.(mem := Store(s.mem, tbl, v % ENTRIES, e), owner := Reowned(s.owner, pd, v, before, e));
    assert SpaceOwned(s, l, pd);
    assert PageOwned(s, l, pd, v);
    SetOwn(s, s', l, pd, v, e, before, tbl);
    forall q | q in s.spaces && q != pd ensures SpaceOwned(s', l, q) && SameMap(s.mem, s'.mem, q) {
      SetOthers(s, s', l, pd, v, e, before, tbl, q);
    }
    SetRoles(s, s', l, pd, v, e, before, tbl);
    KernelApart(s, l, s'.mem, {tbl});
    hide Lookup, Word, Mappable, Reowned, Store, SameMap, SpaceOwned;
    ConsistentWhen(s, s', l);
  }

  lemma SetOthers(s: System, s': System, l: Layout, pd: nat, v: nat, e: nat, before: nat, tbl: nat, q: nat)
    requires Consistent(s, l) && pd in s.spaces && q in s.spaces && q != pd && Mappable(s, l, e) && Owns(s, tbl, Table(pd, v / ENTRIES))
    requires s'.taken == s.taken && s'.spaces == s.spaces && s'.owner == Reowned(s.owner, pd, v, before, e)
    requires SameOutside(s.mem, s'.mem, {tbl}) && (Present(before) && Writable(before) ==> Owns(s, Target(before), Page(pd, v)))
    ensures SpaceOwned(s', l, q) && SameMap(s.mem, s'.mem, q)
  {
    MapUnaffected(s, l, s'.mem, {tbl}, q);
    assert SpaceOwned(s, l, q);
    hide SpaceOwned, SameMap, Lookup, Word;
    StaysOwned(s, s', l, q);
  }

  lemma SetOwn(s: System, s': System, l: Layout, pd: nat, v: nat, e: nat, before: nat, tbl: nat)
    requires Consistent(s, l) && pd in s.spaces && v < USER_PAGES && Mappable(s, l, e)
    requires before == Lookup(s.mem, pd, v) && Owns(s, tbl, Table(pd, v / ENTRIES)) && |s'.mem| == |s.mem|
    requires s'.taken == s.taken && s'.spaces == s.spaces && s'.owner == Reowned(s.owner, pd, v, before, e)
    requires forall i: nat :: Word(s'.mem, pd, i) == Word(s.mem, pd, i)
    requires forall u: nat | u < USER_PAGES :: Lookup(s'.mem, pd, u) == if u == v then e else Lookup(s.mem, pd, u)
    ensures SpaceOwned(s', l, pd)
  {
    assert SpaceOwned(s, l, pd);
    assert PageOwned(s, l, pd, v);
    forall t: nat ensures TableOwned(s', pd, t) {
      assert TableOwned(s, pd, t);
    }
    forall u: nat ensures PageOwned(s', l, pd, u) {
      assert PageOwned(s, l, pd, u);
      if u < USER_PAGES && u != v && Present(Lookup(s.mem, pd, u)) && Present(e) && Writable(e) {
        assert !References(s.mem, pd, Target(e));
      }
    }
  }

  lemma SetRoles(s: System, s': System, l: Layout, pd: nat, v: nat, e: nat, before: nat, tbl: nat)
    requires Consistent(s, l) && pd in s.spaces && v < USER_PAGES && Mappable(s, l, e)
    requires before == Lookup(s.mem, pd, v)
    requires s'.taken == s.taken && s'.spaces == s.spaces && s'.owner == Reowned(s.owner, pd, v, before, e)
    requires forall i: nat :: Word(s'.mem, pd, i) == Word(s.mem, pd, i)
    requires forall u: nat | u < USER_PAGES :: Lookup(s'.mem, pd, u) == if u == v then e else Lookup(s.mem, pd, u)
    requires forall q | q in s.spaces && q != pd :: SameMap(s.mem, s'.mem, q)
    ensures forall f | f in s'.owner :: f in s'.taken && RoleHolds(s', f, s'.owner[f])
  {
    assert SpaceOwned(s, l, pd);
    assert PageOwned(s, l, pd, v);
    forall f | f in s'.owner ensures f in s'.taken && RoleHolds(s', f, s'.owner[f]) {
      if s'.owner[f] == Page(pd, v) && Present(e) && Writable(e) && f == Target(e) {
      } else {
        assert f in s.owner && s'.owner[f] == s.owner[f];
        assert RoleHolds(s, f, s.owner[f]);
        if s.owner[f].pd != pd {
          RoleStays(s, s', f, s.owner[f]);
        }
      }
    }
  }

  /** Rewriting the flags of a present table changes no page map. */
  lemma Relink(s: System, l: Layout, pd: nat, t: nat, pde: nat) returns (s': System)
    requires Consistent(s, l) && pd in s.spaces && t < USER_TABLES && Present(Word(s.mem, pd, t))
    requires Present(pde) && Target(pde) == TableOf(s.mem, pd, t)
    ensures pd < |s.mem| && |s.mem[pd]| == ENTRIES
    ensures s' == s.(mem := Store(s.mem, pd, t, pde)) && Consistent(s', l)
    ensures forall i: nat :: Word(s'.mem, pd, i) == if i == t then pde else Word(s.mem, pd, i)
    ensures SameOutside(s.mem, s'.mem, {pd})
    ensures forall q | q in s.spaces :: forall v: nat | v < USER_PAGES :: Lookup(s'.mem, q, v) == Lookup(s.mem, q, v)
  {
    assert SpaceOwned(s, l, pd);
    StoreOutside(s.mem, pd, t, pde);
    s' := s.(mem := Store(s.mem, pd, t, pde));
    forall v: nat | v < USER_PAGES ensures Lookup(s'.mem, pd, v) == Lookup(s.mem, pd, v) {
      assert TableOwned(s, pd, v / ENTRIES);
    }
    forall q | q in s.spaces
      ensures SpaceOwned(s', l, q) && (q != pd ==> SameMap(s.mem, s'.mem, q))
      ensures forall v: nat | v < USER_PAGES :: Lookup(s'.mem, q, v) == Lookup(s.mem, q, v)
    {
      assert SpaceOwned(s, l, q);
      if q != pd {
        MapUnaffected(s, l, s'.mem, {pd}, q);
        StaysOwned(s, s', l, q);
      } else {
        forall u: nat ensures TableOwned(s', pd, u) {
          assert TableOwned(s, pd, u);
        }
        forall v: nat ensures PageOwned(s', l, pd, v) {
          assert PageOwned(s, l, pd, v);
        }
      }
    }
    forall f | f in s'.owner ensures RoleHolds(s', f, s'.owner[f]) {
      assert RoleHolds(s, f, s.owner[f]);
      if s.owner[f].pd != pd {
        RoleStays(s, s', f, s.owner[f]);
      }
    }
    KernelApart(s, l, s'.mem, {pd});
    ConsistentWhen(s, s', l);
  }

  // ------------------------------------------------------------------------- directories

  /** A fresh frame that gets a copy of the kernel's directory is an empty address space. */
  lemma NewSpace(s: System, l: Layout, pd: nat) returns (s': System)
    requires Consistent(s, l) && pd in s.taken && pd !in s.owner && Unreferenced(s, pd) && pd !in s.spaces
    ensures pd < |s.mem| && l.kernel < |s.mem|
    ensures s' == s.(mem := s.mem[pd := s.mem[l.kernel]], spaces := s.spaces + {pd}, owner := s.owner[pd := Dir(pd)])
    ensures Consistent(s', l) && SameOutside(s.mem, s'.mem, {pd})
    ensures forall q | q in s.spaces :: SameMap(s.mem, s'.mem, q)
    ensures forall v: nat | v < USER_PAGES :: !Present(Lookup(s'.mem, pd, v))
    ensures forall t: nat | t < USER_TABLES :: !Present(Word(s'.mem, pd, t))
  {
    s' := s.(mem := s.mem[pd := s.mem[l.kernel]], spaces := s.spaces + {pd}, owner := s.owner[pd := Dir(pd)]);
    assert Sized(s'.mem);
    forall t: nat | t < USER_TABLES ensures !Present(Word(s'.mem, pd, t)) {
      assert Word(s'.mem, pd, t) == Word(s.mem, l.kernel, t);
    }
    forall q | q in s.spaces ensures SpaceOwned(s', l, q) && SameMap(s.mem, s'.mem, q) {
      assert SpaceOwned(s, l, q);
      MapUnaffected(s, l, s'.mem, {pd}, q);
      assert !References(s.mem, q, pd);
      StaysOwned(s, s', l, q);
    }
    assert SpaceOwned(s', l, pd);
    forall f | f in s'.owner ensures f in s'.taken && RoleHolds(s', f, s'.owner[f]) {
      if f != pd {
        RoleStays(s, s', f, s.owner[f]);
      }
    }
    KernelApart(s, l, s'.mem, {pd});
    ConsistentWhen(s, s', l);
  }

  /** The frames that space pd owns. */
  ghost function Owned(s: System, pd: nat): set<nat> {
    set f | f in s.owner && s.owner[f].pd == pd
  }

  /** The read-only frames of the allocator that space pd maps. */
  ghost predicate MapsReadOnly(s: System, pd: nat, f: nat) {
    exists v: nat :: v < USER_PAGES && Present(Lookup(s.mem, pd, v)) && !Writable(Lookup(s.mem, pd, v)) &&
                     Target(Lookup(s.mem, pd, v)) == f
  }

  /** Giving back the frames in gone, all of pd's and nothing that another space uses, removes pd. */
  lemma RemoveSpace(s: System, l: Layout, pd: nat, gone: set<nat>) returns (s': System)
    requires Consistent(s, l) && pd in s.spaces
    requires Owned(s, pd) <= gone && forall f | f in gone :: f in s.owner ==> s.owner[f].pd == pd
    requires forall f, q | f in gone && q in s.spaces && q != pd :: !References(s.mem, q, f)
    ensures s' == s.(taken := s.taken - gone, spaces := s.spaces - {pd}, owner := s.owner - gone)
    ensures Consistent(s', l)
  {
    s' := s.(taken := s.taken - gone, spaces := s.spaces - {pd}, owner := s.owner - gone);
    forall q | q in s'.spaces ensures SpaceOwned(s', l, q) {
      assert SpaceOwned(s, l, q);
      StaysOwned(s, s', l, q);
    }
    forall f | f in s'.owner ensures f in s'.taken && RoleHolds(s', f, s'.owner[f]) {
      assert RoleHolds(s, f, s.owner[f]);
      assert f !in Owned(s, pd);
      RoleStays(s, s', f, s.owner[f]);
    }
    ConsistentWhen(s, s', l);
  }
}
