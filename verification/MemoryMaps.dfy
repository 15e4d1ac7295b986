/** Anonymous memory maps of kernel/src/usermode.c: getVirtualChunks, mmapProcess, munmapProcess. */
module MemoryMaps {
  import opened BitStream
  import opened PageTables
  import opened SpaceChanges
  import opened Frames
  import opened AddressSpaces

  const TABLES: nat := 1024
  const MMAP_START_ADDRESS: nat := 0x400000
  const PROT_NONE: nat := 0
  const PROT_EXEC: nat := 4
  const MAP_SHARED: nat := 1

  ghost predicate Absent(mem: Memory, pd: nat, p: nat) {
    !Present(Lookup(mem, pd, p))
  }

  /** n pages from a on are absent. */
  ghost predicate AbsentRun(mem: Memory, pd: nat, a: nat, n: nat) {
    forall p: nat | a <= p < a + n :: Absent(mem, pd, p)
  }

  // ------------------------------------------------------------------- searching for space

  /** Table boundary p does not stop the search: a present table starts a new run. */
  ghost predicate Open(mem: Memory, pd: nat, p: nat) {
    p % ENTRIES == 0 ==> !Present(Word(mem, pd, p / ENTRIES))
  }

  /** A run that getVirtualChunks can find: absent, and not reaching into a present table from
      outside of it. */
  ghost predicate Fits(mem: Memory, pd: nat, a: nat, n: nat) {
    AbsentRun(mem, pd, a, n) && forall p: nat | a < p < a + n :: Open(mem, pd, p)
  }

  /** Pages from start to p - 1 have been looked at: the last cont of them are a run, and no run of
      chunks pages begins before those. */
  ghost predicate Scanned(mem: Memory, pd: nat, start: nat, p: nat, cont: nat, chunks: nat) {
    start + cont <= p && Fits(mem, pd, p - cont, cont) &&
    forall a: nat | start <= a < p - cont :: !Fits(mem, pd, a, chunks)
  }

  lemma ScanNone(mem: Memory, pd: nat, start: nat, chunks: nat)
    ensures Scanned(mem, pd, start, start, 0, chunks)
  {
  }

  lemma ScanAbsent(mem: Memory, pd: nat, start: nat, p: nat, cont: nat, chunks: nat, n: nat)
    requires Scanned(mem, pd, start, p, cont, chunks) && Fits(mem, pd, p, n) && (cont == 0 || Open(mem, pd, p))
    ensures Scanned(mem, pd, start, p + n, cont + n, chunks)
  {
    forall q: nat | p + n - (cont + n) <= q < p + n ensures Absent(mem, pd, q) {
    }
    forall q: nat | p + n - (cont + n) < q < p + n ensures Open(mem, pd, q) {
    }
  }

  lemma ScanPresent(mem: Memory, pd: nat, start: nat, p: nat, cont: nat, chunks: nat)
    requires Scanned(mem, pd, start, p, cont, chunks) && !Absent(mem, pd, p) && cont < chunks
    ensures Scanned(mem, pd, start, p + 1, 0, chunks)
  {
    forall a: nat | start <= a < p + 1 ensures !Fits(mem, pd, a, chunks) {
      if a >= p - cont {
        assert a <= p < a + chunks;
      }
    }
  }

  lemma ScanBoundary(mem: Memory, pd: nat, start: nat, p: nat, cont: nat, chunks: nat)
    requires Scanned(mem, pd, start, p, cont, chunks) && cont < chunks && (cont > 0 ==> !Open(mem, pd, p))
    ensures Scanned(mem, pd, start, p, 0, chunks)
  {
    forall a: nat | start <= a < p ensures !Fits(mem, pd, a, chunks) {
      if a >= p - cont {
        assert a < p < a + chunks;
      }
    }
  }

  /** The search has ended at p with a long enough run, or at the end of all tables without one. */
  lemma ScanFound(mem: Memory, pd: nat, start: nat, p: nat, cont: nat, chunks: nat)
    requires Scanned(mem, pd, start, p, cont, chunks)
    ensures cont >= chunks ==> start <= p - cont && Fits(mem, pd, p - cont, chunks)
    ensures forall a: nat | start <= a < p - cont :: !Fits(mem, pd, a, chunks)
    ensures cont < chunks && p == TABLES * ENTRIES ==>
              forall a: nat | start <= a && a + chunks <= TABLES * ENTRIES :: !Fits(mem, pd, a, chunks)
  {
  }

  lemma TableAbsent(mem: Memory, pd: nat, t: nat)
    requires !Present(Word(mem, pd, t))
    ensures Fits(mem, pd, t * ENTRIES, ENTRIES) && Open(mem, pd, t * ENTRIES)
  {
    assert t * ENTRIES / ENTRIES == t && t * ENTRIES % ENTRIES == 0;
    forall p: nat | t * ENTRIES < p < t * ENTRIES + ENTRIES ensures Open(mem, pd, p) {
      assert p % ENTRIES != 0;
    }
    forall p: nat | t * ENTRIES <= p < t * ENTRIES + ENTRIES ensures Absent(mem, pd, p) {
      assert p / ENTRIES == t;
    }
  }

  lemma TablePage(mem: Memory, pd: nat, i: nat, j: nat)
    requires j < ENTRIES && Present(Word(mem, pd, i))
    ensures Lookup(mem, pd, i * ENTRIES + j) == Word(mem, TableOf(mem, pd, i), j)
  {
    assert (i * ENTRIES + j) / ENTRIES == i && (i * ENTRIES + j) % ENTRIES == j;
  }

  /** A run of absent pages fits just if no table that begins inside it is present. */
  lemma FitsWhen(mem: Memory, pd: nat, a: nat, n: nat)
    requires AbsentRun(mem, pd, a, n)
    ensures Fits(mem, pd, a, n) <==> forall t: nat | a < t * ENTRIES < a + n :: !Present(Word(mem, pd, t))
  {
    forall t: nat | a < t * ENTRIES < a + n ensures Open(mem, pd, t * ENTRIES) <==> !Present(Word(mem, pd, t)) {
      assert t * ENTRIES / ENTRIES == t && t * ENTRIES % ENTRIES == 0;
    }
    hide Word, Present, Absent;
    if forall t: nat | a < t * ENTRIES < a + n :: !Present(Word(mem, pd, t)) {
      forall p: nat | a < p < a + n ensures Open(mem, pd, p) {
        if p % ENTRIES == 0 {
          assert p == p / ENTRIES * ENTRIES;
        }
      }
    }
  }

  /** A process whose pages are all absent, where getVirtualChunks passes over a run of absent pages:
      table 1 is absent, table 2 present but empty. Frames 2 and 3 are the kernel's directory and table. */
  lemma PassedOver() returns (s: System, l: Layout)
    ensures Consistent(s, l) && 0 in s.spaces && Present(Word(s.mem, 0, USER_TABLES))
    ensures AbsentRun(s.mem, 0, 1024, 1025) && !Fits(s.mem, 0, 1024, 1025)
  {
    var kernel: seq<nat> := Zeros()[USER_TABLES := Entry(3, 3)];
    var directory: seq<nat> := kernel[2 := Entry(1, 7)];
    EntryParts(1, 7);
    EntryParts(3, 3);
    s := System([directory, Zeros(), kernel, Zeros()], {0, 1}, {0}, map[0 := Dir(0), 1 := Table(0, 2)]);
    l := Layout(0, 2, 2);
    hide Entry, Target, Present;
    NoEntry();
    OnlyTable(s.mem);
    assert 2048 % ENTRIES == 0 && 2048 / ENTRIES == 2;
    assert !Open(s.mem, 0, 2048);
    assert forall p: nat | p < USER_PAGES :: !Present(Lookup(s.mem, 0, p));
    assert SpaceOwned(s, l, 0);
  }

  lemma OnlyTable(mem: Memory)
    requires var kernel: seq<nat> := Zeros()[USER_TABLES := Entry(3, 3)];
             var directory: seq<nat> := kernel[2 := Entry(1, 7)];
             mem == [directory, Zeros(), kernel, Zeros()]
    ensures forall t: nat | t < USER_TABLES :: Word(mem, 2, t) == 0 && Word(mem, 0, t) == if t == 2 then Entry(1, 7) else 0
    ensures Word(mem, 0, USER_TABLES) == Entry(3, 3) && (forall j: nat :: Word(mem, 1, j) == 0) && Sized(mem)
  {
    hide Entry;
  }

  lemma NoEntry()
    ensures !Present(0)
  {
  }

  /** The first page that getVirtualChunks looks at. */
  function ScanStart(mem: Memory, pd: nat, address: nat): nat {
    if address / FRAME_4MB == 0 && Present(Word(mem, pd, 0)) then address / FRAME_4KB
    else address / FRAME_4MB * ENTRIES
  }

  /** Where the search stands after table i: behind its run, or, without one, behind the table. */
  function ScanEnd(i: nat, cont: nat, address: nat): nat {
    if cont > 0 then address / FRAME_4KB + cont else i * ENTRIES + ENTRIES
  }

  /** The inner loop of getVirtualChunks, over table i from entry jstart on. */
  method ScanTable(mem: Memory, pd: nat, i: nat, jstart: nat, chunks: nat, address0: nat, ghost start: nat)
    returns (cont: nat, address: nat)
    requires i < TABLES && jstart <= ENTRIES && Present(Word(mem, pd, i)) && chunks > 0
    requires Scanned(mem, pd, start, i * ENTRIES + jstart, 0, chunks)
    ensures Scanned(mem, pd, start, ScanEnd(i, cont, address), cont, chunks)
    ensures cont > 0 ==> address % FRAME_4KB == 0
    ensures cont < chunks ==> ScanEnd(i, cont, address) == i * ENTRIES + ENTRIES
  {
    hide Scanned, Fits, Open, Lookup, Word, Present;
    cont, address := 0, address0;
    var pt := TableOf(mem, pd, i);
    var j := jstart;
    ScannedBounds(mem, pd, start, i * ENTRIES + jstart, 0, chunks);
    while j < ENTRIES && cont < chunks
      invariant jstart <= j <= ENTRIES && Scanned(mem, pd, start, i * ENTRIES + j, cont, chunks)
      invariant cont <= i * ENTRIES + j
      invariant cont > 0 ==> address == (i * ENTRIES + j - cont) * FRAME_4KB
      invariant cont > 0 ==> j > jstart
    {
      TablePage(mem, pd, i, j);
      ghost var q := i * ENTRIES + j;
      if !Present(Word(mem, pt, j)) {
        if cont == 0 {
          address := FRAME_4MB * i + FRAME_4KB * j;
        }
        OneAbsent(mem, pd, q);
        if cont > 0 { InsideOpen(mem, pd, i, j); }
        ScanAbsent(mem, pd, start, q, cont, chunks, 1);
        cont := cont + 1;
      } else {
        ScanPresent(mem, pd, start, q, cont, chunks);
        cont := 0;
      }
      j := j + 1;
    }
  }

  lemma OneAbsent(mem: Memory, pd: nat, p: nat)
    requires Absent(mem, pd, p)
    ensures Fits(mem, pd, p, 1)
  {
  }

  lemma InsideOpen(mem: Memory, pd: nat, i: nat, j: nat)
    requires 0 < j < ENTRIES
    ensures Open(mem, pd, i * ENTRIES + j)
  {
    assert (i * ENTRIES + j) % ENTRIES == j;
  }

  lemma ScannedBounds(mem: Memory, pd: nat, start: nat, p: nat, cont: nat, chunks: nat)
    requires Scanned(mem, pd, start, p, cont, chunks)
    ensures start + cont <= p
  {
  }

  /** No table that chunks pages from table t on would use is present. */
  ghost predicate HintFree(mem: Memory, pd: nat, t: nat, chunks: nat) {
    forall u: nat | t <= u && u * ENTRIES < t * ENTRIES + chunks :: !Present(Word(mem, pd, u))
  }

  /** getVirtualChunks without a hint: the lowest run of chunks pages from the table of the address
      on, if there is one; found tells whether there is. With a hint (ret) only absent tables from
      the hint's on are taken, and 0 is the answer as soon as one is present. */
  method GetVirtualChunks(mem: Memory, pd: nat, address0: nat, chunks: nat, ret: bool)
    returns (address: nat, ghost found: bool)
    requires address0 < 0x1_0000_0000
    ensures chunks == 0 ==> address == address0
    ensures chunks > 0 && found ==> address % FRAME_4KB == 0 && address / FRAME_4KB >= ScanStart(mem, pd, address0)
    ensures chunks > 0 && found ==> Fits(mem, pd, address / FRAME_4KB, chunks)
    ensures chunks > 0 && !ret && found ==>
              forall a: nat | ScanStart(mem, pd, address0) <= a < address / FRAME_4KB :: !Fits(mem, pd, a, chunks)
    ensures !ret && !found ==>
              forall a: nat | ScanStart(mem, pd, address0) <= a && a + chunks <= TABLES * ENTRIES :: !Fits(mem, pd, a, chunks)
    ensures chunks > 0 && ret && address0 < KERNEL_BASE && Present(Word(mem, pd, USER_TABLES)) ==>
              (found <==> HintFree(mem, pd, address0 / FRAME_4MB, chunks)) &&
              address == if found then address0 / FRAME_4MB * FRAME_4MB else 0
  {
    hide Scanned, Fits, Open, Lookup, Word, Present;
    var cont: nat := 0;
    address := address0;
    var i: nat := address0 / FRAME_4MB;
    ghost var i0: nat, start := i, ScanStart(mem, pd, address0);
    ghost var p: nat := start;
    ScanNone(mem, pd, start, chunks);
    while i < TABLES && cont < chunks
      invariant i0 <= i <= TABLES && Scanned(mem, pd, start, p, cont, chunks) && start + cont <= p
      invariant i == i0 ==> p == start && cont == 0 && address == address0
      invariant chunks == 0 ==> i == i0
      invariant i > i0 ==> cont >= chunks || p == i * ENTRIES
      invariant cont > 0 ==> address == (p - cont) * FRAME_4KB
      invariant ret && i > i0 ==> p == start + cont && start == i0 * ENTRIES && p == i * ENTRIES
      invariant ret ==> forall t: nat | i0 <= t < i :: !Present(Word(mem, pd, t))
      invariant ret && i > i0 ==> address == i0 * FRAME_4MB
      decreases TABLES - i
    {
      if !Present(Word(mem, pd, i)) {
        if cont == 0 {
          address := FRAME_4MB * i;
        }
        TableAbsent(mem, pd, i);
        ScanAbsent(mem, pd, start, i * ENTRIES, cont, chunks, ENTRIES);
        cont := cont + ENTRIES;
        i := i + 1;
        p := i * ENTRIES;
      } else {
        if ret {
          return 0, false;
        }
        TableBoundary(mem, pd, i);
        ScanBoundary(mem, pd, start, p, cont, chunks);
        cont := 0;
        var jstart := if i == 0 then (address / FRAME_4KB) % 1024 else 0;
        cont, address := ScanTable(mem, pd, i, jstart, chunks, address, start);
        p := ScanEnd(i, cont, address);
        ScannedBounds(mem, pd, start, p, cont, chunks);
        i := i + 1;
      }
    }
    ScanFound(mem, pd, start, p, cont, chunks);
    found := cont >= chunks;
  }

  lemma TableBoundary(mem: Memory, pd: nat, i: nat)
    requires Present(Word(mem, pd, i))
    ensures !Open(mem, pd, i * ENTRIES)
  {
  }

  // -------------------------------------------------------------------------------- mmap

  /** A page that mmap has made: writable, the user's, marked and nothing else, in a frame taken since s0. */
  ghost predicate NewPage(s0: System, e: nat) {
    Present(e) && Writable(e) && User(e) && Mmapped(e) && e == Entry(Target(e), 1 + 2 + 4 + 512) && Target(e) !in s0.taken
  }

  /** Tables that were there are linked as before, new ones are the user's, and writable. */
  ghost predicate TablesGrown(mem0: Memory, mem: Memory, pd: nat) {
    forall t: nat | t < USER_TABLES ::
      if Present(Word(mem0, pd, t)) then Word(mem, pd, t) == Word(mem0, pd, t)
      else Present(Word(mem, pd, t)) ==> User(Word(mem, pd, t)) && Writable(Word(mem, pd, t))
  }

  lemma TablesGrownStep(mem0: Memory, s: System, s': System, pd: nat, v: nat, e: nat)
    requires TablesGrown(mem0, s.mem, pd) && Mapped(s, s', pd, v, e) && v < USER_PAGES
    requires TableAsNeeded(s.mem, s'.mem, pd, v / ENTRIES, MMAP_FLAGS)
    ensures TablesGrown(mem0, s'.mem, pd)
  {
    var t := v / ENTRIES;
    assert forall i: nat | i != t :: Word(s'.mem, pd, i) == Word(s.mem, pd, i);
    hide *;
    OneTableGrown(mem0, s.mem, s'.mem, pd, t);
  }

  lemma OneTableGrown(mem0: Memory, mem: Memory, mem': Memory, pd: nat, t: nat)
    requires TablesGrown(mem0, mem, pd) && (forall i: nat | i != t :: Word(mem', pd, i) == Word(mem, pd, i))
    requires TableAsNeeded(mem, mem', pd, t, MMAP_FLAGS)
    ensures TablesGrown(mem0, mem', pd)
  {
    MmapFlags(TableOf(mem', pd, t));
    hide Word, TableOf, Entry, Present, User, Writable, MMAP_FLAGS;
  }

  /** What the processor lets the process do with a new page: everything, unless its table was there
      already, and forbids it. */
  lemma NewPageReached(s0: System, s: System, pd: nat, u: nat)
    requires TablesGrown(s0.mem, s.mem, pd) && u < USER_PAGES && NewPage(s0, Lookup(s.mem, pd, u))
    ensures UserReaches(s.mem, pd, u) <==> !Present(Word(s0.mem, pd, u / ENTRIES)) || User(Word(s0.mem, pd, u / ENTRIES))
    ensures UserWrites(s.mem, pd, u) <==> !Present(Word(s0.mem, pd, u / ENTRIES)) ||
                                          (User(Word(s0.mem, pd, u / ENTRIES)) && Writable(Word(s0.mem, pd, u / ENTRIES)))
  {
    NoEntry();
    assert u / ENTRIES < USER_TABLES;
  }

  /** All pages of the range can be reached and written as far as their tables allow it. */
  ghost predicate RangeReached(mem0: Memory, mem: Memory, pd: nat, a: nat, k: nat) {
    forall u: nat | a <= u < a + k ::
      var d := Word(mem0, pd, u / ENTRIES);
      (UserReaches(mem, pd, u) <==> !Present(d) || User(d)) && (UserWrites(mem, pd, u) <==> !Present(d) || (User(d) && Writable(d)))
  }

  lemma RangeIsReached(s0: System, s: System, pd: nat, a: nat, k: nat)
    requires TablesGrown(s0.mem, s.mem, pd) && MapsRange(s0, s, pd, a, k) && a + k <= USER_PAGES
    ensures RangeReached(s0.mem, s.mem, pd, a, k)
  {
    hide TablesGrown, Word, Lookup, UserReaches, UserWrites, Present, User, Writable, NewPage;
    forall u: nat | a <= u < a + k
      ensures var d := Word(s0.mem, pd, u / ENTRIES);
              (UserReaches(s.mem, pd, u) <==> !Present(d) || User(d)) && (UserWrites(s.mem, pd, u) <==> !Present(d) || (User(d) && Writable(d)))
    {
      assert NewPage(s0, Lookup(s.mem, pd, u));
      NewPageReached(s0, s, pd, u);
    }
  }

  /** A page of q that was mapped in s0 has kept its entry and its content. */
  ghost predicate KeepsPage(s0: System, s: System, q: nat, u: nat) {
    Present(Lookup(s0.mem, q, u)) ==>
      Lookup(s.mem, q, u) == Lookup(s0.mem, q, u) &&
      FrameAt(s.mem, Target(Lookup(s0.mem, q, u))) == FrameAt(s0.mem, Target(Lookup(s0.mem, q, u)))
  }

  /** Only pd has got frames, all of them its own; nobody has lost a page. */
  ghost predicate Grown(s0: System, s: System, l: Layout, pd: nat) {
    Consistent(s, l) && pd in s.spaces && s.spaces == s0.spaces && s0.taken <= s.taken &&
    (forall q | q in s0.spaces && q != pd :: SameMap(s0.mem, s.mem, q)) &&
    (forall q, u: nat | q in s0.spaces && u < USER_PAGES :: KeepsPage(s0, s, q, u)) &&
    OthersOwn(s, pd) == OthersOwn(s0, pd) && Loose(s) == Loose(s0) && OwnsMore(s0, s) &&
    SameOutside(s0.mem, s.mem, Touched(s0, s, pd)) && (forall t: nat | t >= USER_TABLES :: Word(s.mem, pd, t) == Word(s0.mem, pd, t))
  }

  /** The frames that a map of pd may change: new ones, and pd's directory and tables. */
  ghost function Touched(s0: System, s: System, pd: nat): set<nat> {
    (s.taken - s0.taken) + set f | f in s0.owner && s0.owner[f].pd == pd && !s0.owner[f].Page?
  }

  ghost predicate OwnsMore(s0: System, s: System) {
    forall f | f in s0.owner :: Owns(s, f, s0.owner[f])
  }

  /** Pages a .. a+k-1 of pd are new, the others as they were. */
  ghost predicate MapsRange(s0: System, s: System, pd: nat, a: nat, k: nat) {
    forall u: nat | u < USER_PAGES ::
      if a <= u < a + k then NewPage(s0, Lookup(s.mem, pd, u)) else Lookup(s.mem, pd, u) == Lookup(s0.mem, pd, u)
  }

  lemma GrownStart(s0: System, l: Layout, pd: nat, a: nat)
    requires Consistent(s0, l) && pd in s0.spaces
    ensures Grown(s0, s0, l, pd) && MapsRange(s0, s0, pd, a, 0)
  {
  }

  lemma TableIsPds(s: System, sc: System, s': System, l: Layout, pd: nat, v: nat, e: nat, c: set<nat>, tbl: nat)
    requires OneMapping(s, sc, s', l, pd, v, e, c) && tbl == TableOf(s'.mem, pd, v / ENTRIES)
    ensures tbl in s.taken ==> Owns(s, tbl, Table(pd, v / ENTRIES))
  {
    OneMappingUse(s, sc, s', l, pd, v, e, c);
    assert SpaceOwned(sc, l, pd);
    assert TableOwned(sc, pd, v / ENTRIES);
  }

  /** Mapping one more page in a frame of its own. */
  lemma GrownStep(s0: System, s: System, sc: System, s': System, l: Layout, pd: nat, v: nat, e: nat, f: nat)
    requires Consistent(s0, l) && Grown(s0, s, l, pd) && OneMapping(s, sc, s', l, pd, v, e, {f}) && Writable(e) && !Present(Lookup(sc.mem, pd, v))
    ensures Grown(s0, s', l, pd)
  {
    assert ENTRIES == 1024;
    hide *;
    var tbl := TableOf(s'.mem, pd, v / ENTRIES);
    GrownOwners(s0, s, sc, s', l, pd, v, e, f, tbl);
    GrownMaps(s0, s, sc, s', l, pd, v, e, f);
    KernelWords(s, sc, s', l, pd, v, e, f);
    GrownIntro(s0, s, s', l, pd);
  }

  lemma GrownOwners(s0: System, s: System, sc: System, s': System, l: Layout, pd: nat, v: nat, e: nat, f: nat, tbl: nat)
    requires Consistent(s0, l) && Grown(s0, s, l, pd) && OneMapping(s, sc, s', l, pd, v, e, {f}) && Writable(e) && !Present(Lookup(sc.mem, pd, v))
    requires tbl == TableOf(s'.mem, pd, v / ENTRIES)
    ensures s'.spaces == s.spaces && s.taken <= s'.taken && Consistent(s', l)
    ensures OthersOwn(s', pd) == OthersOwn(s, pd) && Loose(s') == Loose(s) && OwnsMore(s0, s')
    ensures SameOutside(s0.mem, s'.mem, Touched(s0, s', pd))
  {
    assert ENTRIES == 1024;
    hide *;
    OneMappingUse(s, sc, s', l, pd, v, e, {f});
    GrownUse(s0, s, l, pd);
    NewOwners(s, sc, s', l, pd, v, e, f, tbl);
    OwnersGrow(s, s', pd, v, e, tbl, {f});
    GrownOwnsMore(s0, s, s', l, pd, v, e, f, tbl);
    GrownTouched(s0, s, sc, s', l, pd, v, e, f, tbl);
  }

  lemma GrownOwnsMore(s0: System, s: System, s': System, l: Layout, pd: nat, v: nat, e: nat, f: nat, tbl: nat)
    requires OwnsMore(s0, s) && s'.owner == Reowned(s.owner[tbl := Table(pd, v / ENTRIES)], pd, v, 0, e)
    requires tbl in s.taken ==> Owns(s, tbl, Table(pd, v / ENTRIES))
    requires s.owner.Keys <= s.taken && f !in s.taken && Present(e) && Writable(e) && f in {Target(e)}
    ensures OwnsMore(s0, s')
  {
    hide OwnsMore, Reowned, Owns, Present, Writable, Target;
    OwnsMoreStep(s0, s, s', pd, v, e, tbl, f);
  }

  lemma GrownTouched(s0: System, s: System, sc: System, s': System, l: Layout, pd: nat, v: nat, e: nat, f: nat, tbl: nat)
    requires Consistent(s0, l) && Grown(s0, s, l, pd) && OneMapping(s, sc, s', l, pd, v, e, {f}) && !Present(Lookup(sc.mem, pd, v))
    requires tbl == TableOf(s'.mem, pd, v / ENTRIES)
    ensures SameOutside(s0.mem, s'.mem, Touched(s0, s', pd))
  {
    assert ENTRIES == 1024;
    hide *;
    OneMappingUse(s, sc, s', l, pd, v, e, {f});
    GrownUse(s0, s, l, pd);
    NewOwners(s, sc, s', l, pd, v, e, f, tbl);
    OwnedTaken(s0, l, pd);
    TouchedStep(s0, s, sc, s', pd, v, tbl, f);
  }

  lemma NewOwners(s: System, sc: System, s': System, l: Layout, pd: nat, v: nat, e: nat, f: nat, tbl: nat)
    requires Consistent(s, l) && OneMapping(s, sc, s', l, pd, v, e, {f}) && !Present(Lookup(sc.mem, pd, v))
    requires tbl == TableOf(s'.mem, pd, v / ENTRIES)
    ensures s'.owner == Reowned(s.owner[tbl := Table(pd, v / ENTRIES)], pd, v, 0, e) && s'.taken == s.taken + {f} + {tbl}
    ensures s'.spaces == s.spaces && SameOutside(sc.mem, s'.mem, {pd, tbl})
    ensures tbl in s.taken ==> Owns(s, tbl, Table(pd, v / ENTRIES)) && tbl in s.owner && s.owner[tbl].pd == pd
    ensures s.owner.Keys <= s.taken && Owns(s, pd, Dir(pd)) && pd in s.taken
  {
    assert ENTRIES == 1024;
    hide *;
    OneMappingUse(s, sc, s', l, pd, v, e, {f});
    TableIsPds(s, sc, s', l, pd, v, e, {f}, tbl);
    OwnedTaken(s, l, pd);
    MappedUse(sc, s', pd, v, e, tbl);
    AbsentReowned(s.owner[tbl := Table(pd, v / ENTRIES)], pd, v, Lookup(sc.mem, pd, v), e);
    TableRole(s, pd, v, tbl);
  }

  lemma GrownMaps(s0: System, s: System, sc: System, s': System, l: Layout, pd: nat, v: nat, e: nat, f: nat)
    requires Grown(s0, s, l, pd) && OneMapping(s, sc, s', l, pd, v, e, {f}) && Writable(e) && !Present(Lookup(sc.mem, pd, v))
    ensures forall q | q in s0.spaces && q != pd :: SameMap(s0.mem, s'.mem, q)
    ensures forall q, u: nat | q in s0.spaces && u < USER_PAGES :: KeepsPage(s0, s', q, u)
  {
    assert ENTRIES == 1024;
    hide *;
    OneMappingUse(s, sc, s', l, pd, v, e, {f});
    GrownUse(s0, s, l, pd);
    MappedUse(sc, s', pd, v, e, TableOf(s'.mem, pd, v / ENTRIES));
    forall q | q in s0.spaces && q != pd ensures SameMap(s0.mem, s'.mem, q) {
      SameMapTrans(s0.mem, s.mem, sc.mem, s'.mem, q);
    }
    forall q, u: nat | q in s0.spaces && u < USER_PAGES ensures KeepsPage(s0, s', q, u) {
      KeepsStep(s0, s, sc, s', l, pd, v, e, f, q, u);
    }
  }

  lemma GrownUse(s0: System, s: System, l: Layout, pd: nat)
    requires Grown(s0, s, l, pd)
    ensures Consistent(s, l) && pd in s.spaces && s.spaces == s0.spaces && s0.taken <= s.taken && OwnsMore(s0, s) && Loose(s) == Loose(s0)
    ensures forall q | q in s0.spaces && q != pd :: SameMap(s0.mem, s.mem, q)
    ensures forall q, u: nat | q in s0.spaces && u < USER_PAGES :: KeepsPage(s0, s, q, u)
    ensures SameOutside(s0.mem, s.mem, Touched(s0, s, pd))
  {
    hide Consistent, SameMap, KeepsPage, OthersOwn, Loose, OwnsMore, SameOutside, Touched, Word;
  }

  lemma TableRole(s: System, pd: nat, v: nat, tbl: nat)
    requires tbl in s.taken ==> Owns(s, tbl, Table(pd, v / ENTRIES))
    ensures tbl in s.taken ==> tbl in s.owner && s.owner[tbl].pd == pd
  {
  }

  lemma GrownIntro(s0: System, s: System, s': System, l: Layout, pd: nat)
    requires Grown(s0, s, l, pd) && Consistent(s', l) && s'.spaces == s.spaces && s.taken <= s'.taken
    requires forall q | q in s0.spaces && q != pd :: SameMap(s0.mem, s'.mem, q)
    requires forall q, u: nat | q in s0.spaces && u < USER_PAGES :: KeepsPage(s0, s', q, u)
    requires OthersOwn(s', pd) == OthersOwn(s, pd) && Loose(s') == Loose(s) && OwnsMore(s0, s')
    requires SameOutside(s0.mem, s'.mem, Touched(s0, s', pd))
    requires forall t: nat | t >= USER_TABLES :: Word(s'.mem, pd, t) == Word(s.mem, pd, t)
    ensures Grown(s0, s', l, pd)
  {
    hide Consistent, SameMap, KeepsPage, OthersOwn, Loose, OwnsMore, SameOutside, Touched, Word;
  }

  lemma OwnsMoreStep(s0: System, s: System, s': System, pd: nat, v: nat, e: nat, tbl: nat, f: nat)
    requires OwnsMore(s0, s) && s'.owner == Reowned(s.owner[tbl := Table(pd, v / ENTRIES)], pd, v, 0, e)
    requires tbl in s.taken ==> Owns(s, tbl, Table(pd, v / ENTRIES))
    requires s.owner.Keys <= s.taken && f !in s.taken && Present(e) && Writable(e) && Target(e) == f
    ensures OwnsMore(s0, s')
  {
    forall g | g in s0.owner ensures Owns(s', g, s0.owner[g]) {
      assert Owns(s, g, s0.owner[g]);
      assert g in s.owner.Keys;
    }
  }

  lemma TouchedStep(s0: System, s: System, sc: System, s': System, pd: nat, v: nat, tbl: nat, f: nat)
    requires SameOutside(s0.mem, s.mem, Touched(s0, s, pd)) && SameOutside(s.mem, sc.mem, {f}) && SameOutside(sc.mem, s'.mem, {pd, tbl})
    requires s'.taken == s.taken + {f} + {tbl} && f !in s.taken && s0.taken <= s.taken && s0.owner.Keys <= s0.taken
    requires Owns(s, pd, Dir(pd)) && (tbl in s.taken ==> Owns(s, tbl, Table(pd, v / ENTRIES)))
    requires Loose(s) == Loose(s0) && OwnsMore(s0, s) && pd in s.taken
    ensures SameOutside(s0.mem, s'.mem, Touched(s0, s', pd))
  {
    StructureTouched(s0, s, s', pd, pd);
    if tbl in s.taken { StructureTouched(s0, s, s', pd, tbl); }
    assert Touched(s0, s, pd) <= Touched(s0, s', pd);
    assert f in Touched(s0, s', pd) && tbl in Touched(s0, s', pd);
  }

  lemma StructureTouched(s0: System, s: System, s': System, pd: nat, g: nat)
    requires g in s.owner && g in s.taken && s.owner[g].pd == pd && !s.owner[g].Page?
    requires s.taken <= s'.taken && Loose(s) == Loose(s0) && OwnsMore(s0, s)
    ensures g in Touched(s0, s', pd)
  {
    if g in s0.taken {
      assert g !in Loose(s);
      assert g in s0.owner && Owns(s, g, s0.owner[g]);
    }
  }

  lemma KernelWords(s: System, sc: System, s': System, l: Layout, pd: nat, v: nat, e: nat, f: nat)
    requires OneMapping(s, sc, s', l, pd, v, e, {f}) && Consistent(s, l)
    ensures forall t: nat | t >= USER_TABLES :: Word(s'.mem, pd, t) == Word(s.mem, pd, t)
  {
    hide SameMap, Present, Writable, Target, Lookup, SpaceOwned;
    OwnedTaken(s, l, pd);
    WordSame(s.mem, sc.mem, {f}, pd);
  }

  lemma SameMapTrans(m0: Memory, m1: Memory, m2: Memory, m3: Memory, q: nat)
    requires SameMap(m0, m1, q) && SameMap(m1, m2, q) && SameMap(m2, m3, q)
    ensures SameMap(m0, m3, q)
  {
  }

  lemma KeepsStep(s0: System, s: System, sc: System, s': System, l: Layout, pd: nat, v: nat, e: nat, f: nat, q: nat, u: nat)
    requires OneMapping(s, sc, s', l, pd, v, e, {f}) && Writable(e) && !Present(Lookup(sc.mem, pd, v))
    requires KeepsPage(s0, s, q, u) && q in s.spaces && u < USER_PAGES
    ensures KeepsPage(s0, s', q, u)
  {
    OneMappingUse(s, sc, s', l, pd, v, e, {f});
    var tbl := TableOf(s'.mem, pd, v / ENTRIES);
    MappedTable(sc, s', l, pd, v, e, tbl);
    hide Consistent, Word, Target, Present, Writable, OneMapping;
    if Present(Lookup(s0.mem, q, u)) {
      assert SameMap(s.mem, sc.mem, q);
      if q == pd {
        assert u != v;
        PageKept(s, sc, s', l, pd, u, v, e, {f}, tbl);
      } else {
        assert SameMap(sc.mem, s'.mem, q);
        hide Lookup, SameOutside;
        PageFrame(s', l, q, u, tbl);
        PageFrame(s', l, q, u, pd);
        PageFrame(s', l, q, u, f);
        FramesThrough(s, sc, s', {f}, {pd, tbl}, Target(Lookup(s0.mem, q, u)));
      }
    }
  }

  lemma FramesThrough(s: System, sc: System, s': System, c: set<nat>, d: set<nat>, g: nat)
    requires SameOutside(s.mem, sc.mem, c) && SameOutside(sc.mem, s'.mem, d) && g !in c && g !in d
    ensures FrameAt(s'.mem, g) == FrameAt(s.mem, g)
  {
  }

  lemma RangeStep(s0: System, s: System, sc: System, s': System, pd: nat, a: nat, k: nat, e: nat)
    requires MapsRange(s0, s, pd, a, k) && sc.mem == s.mem && a + k < USER_PAGES && Mapped(sc, s', pd, a + k, e) && NewPage(s0, e)
    ensures MapsRange(s0, s', pd, a, k + 1)
  {
    hide Lookup, SameMap, SameOutside, NewPage;
  }

  const MMAP_FLAGS: nat := 0x207

  lemma MmapFlags(f: nat)
    ensures Present(MMAP_FLAGS) && Target(Entry(f, MMAP_FLAGS)) == f && Present(Entry(f, MMAP_FLAGS))
    ensures Writable(Entry(f, MMAP_FLAGS)) && User(Entry(f, MMAP_FLAGS)) && Mmapped(Entry(f, MMAP_FLAGS))
  {
    MmapFlagWord();
    hide *;
    EntryParts(f, MMAP_FLAGS);
  }

  lemma MmapFlagWord()
    ensures MMAP_FLAGS < 4096 && Present(MMAP_FLAGS) && Writable(MMAP_FLAGS) && User(MMAP_FLAGS) && Mmapped(MMAP_FLAGS)
  {
  }

  /** How many pages mmapProcess maps: one more than the length fills, even if it fills them. */
  function MmapChunks(length: nat): nat {
    (FRAME_4KB - length % FRAME_4KB + length) % 0x1_0000_0000 / FRAME_4KB
  }

  /** The loop of mmapProcess: chunks new pages from the address on. */
  method MapChunks(sp: Spaces, pd: nat, address: nat, chunks: nat) returns (ok: bool)
    requires sp.Valid() && pd in sp.spaces && (chunks > 0 ==> address % FRAME_4KB == 0) && address / FRAME_4KB + chunks <= USER_PAGES
    requires AbsentRun(sp.mem, pd, address / FRAME_4KB, chunks)
    modifies sp`mem, sp`taken, sp`owner, sp.frames, sp.frames.frameMap, sp.frames.cached
    ensures ok ==> sp.Valid() && Grown(old(sp.Sys()), sp.Sys(), sp.Lay(), pd)
    ensures ok ==> MapsRange(old(sp.Sys()), sp.Sys(), pd, address / FRAME_4KB, chunks) && TablesGrown(old(sp.mem), sp.mem, pd)
  {
    hide TablesGrown, TableAsNeeded, Consistent, Spaces.Linked, FrameAllocator.Valid, Grown, MapsRange, Mapped, Mappable, Unreferenced, SameMap, SameOutside,
      Lookup, AddressEntry, NewPage, AbsentRun, OneMapping, Entry;
    ghost var s0, l, a := sp.Sys(), sp.Lay(), address / FRAME_4KB;
    GrownStart(s0, l, pd, a);
    assert TablesGrown(sp.mem, sp.mem, pd) by { TablesStart(sp.mem, pd); }
    for i := 0 to chunks
      invariant sp.Valid() && Grown(s0, sp.Sys(), l, pd) && MapsRange(s0, sp.Sys(), pd, a, i) && TablesGrown(s0.mem, sp.mem, pd)
    {
      ghost var s := sp.Sys();
      GrownSpaces(s0, s, l, pd);
      var frame;
      ok, frame := sp.AllocFrame();
      if !ok {
        return;
      }
      ghost var sc := sp.Sys();
      var virtualAddr := address + i * FRAME_SIZE;
      ChunkAddress(address, i);
      ghost var e := Entry(frame, MMAP_FLAGS);
      MmapFlags(frame);
      NextAbsent(s0, s, pd, a, chunks, i);
      FrameEntry(frame);
      MappableFresh(sc, l, frame, e);
      ok := sp.MapPageWflags(pd, frame * FRAME_SIZE, virtualAddr, MMAP_FLAGS);
      if !ok {
        return;
      }
      OneMappingFresh(s, sc, sp.Sys(), l, pd, a + i, e, frame);
      GrownStep(s0, s, sc, sp.Sys(), l, pd, a + i, e, frame);
      NewIsFresh(s0, s, l, pd, frame, e);
      RangeStep(s0, s, sc, sp.Sys(), pd, a, i, e);
      TablesGrownStep(s0.mem, sc, sp.Sys(), pd, a + i, e);
    }
    ok := true;
  }

  lemma TablesStart(mem: Memory, pd: nat)
    ensures TablesGrown(mem, mem, pd)
  {
  }

  lemma GrownSpaces(s0: System, s: System, l: Layout, pd: nat)
    requires Grown(s0, s, l, pd)
    ensures pd in s.spaces && Consistent(s, l)
  {
    hide Consistent, SameMap, KeepsPage, OthersOwn, Loose;
  }

  lemma ChunkAddress(address: nat, i: nat)
    requires address % FRAME_4KB == 0 && address / FRAME_4KB + i < USER_PAGES
    ensures (address + i * FRAME_SIZE) / FRAME_4KB == address / FRAME_4KB + i
    ensures (address + i * FRAME_SIZE) / FRAME_4MB == (address / FRAME_4KB + i) / ENTRIES
    ensures address + i * FRAME_SIZE < KERNEL_BASE
  {
  }

  lemma FrameEntry(f: nat)
    ensures AddressEntry(f * FRAME_SIZE, MMAP_FLAGS) == Entry(f, MMAP_FLAGS)
  {
    assert f * FRAME_SIZE / FRAME_4KB == f;
  }

  lemma NextAbsent(s0: System, s: System, pd: nat, a: nat, chunks: nat, i: nat)
    requires AbsentRun(s0.mem, pd, a, chunks) && MapsRange(s0, s, pd, a, i) && i < chunks && a + i < USER_PAGES
    ensures !Present(Lookup(s.mem, pd, a + i))
  {
    hide Lookup;
    assert Absent(s0.mem, pd, a + i);
  }

  lemma MappableFresh(s: System, l: Layout, f: nat, e: nat)
    requires f in s.taken && f !in s.owner && Unreferenced(s, f) && f < |s.mem| && Target(e) == f && Writable(e)
    ensures Mappable(s, l, e)
  {
  }

  lemma OneMappingFresh(s: System, sc: System, s': System, l: Layout, pd: nat, v: nat, e: nat, f: nat)
    requires Consistent(sc, l) && Consistent(s', l) && v < USER_PAGES && pd in s.spaces && f !in s.taken
    requires sc == s.(taken := s.taken + {f}) && Mapped(sc, s', pd, v, e) && Present(e) && Writable(e) && Target(e) == f
    ensures OneMapping(s, sc, s', l, pd, v, e, {f})
  {
    hide Consistent, Mapped, Present, Writable, Target, Lookup, Word;
  }

  lemma NewIsFresh(s0: System, s: System, l: Layout, pd: nat, f: nat, e: nat)
    requires Grown(s0, s, l, pd) && f !in s.taken && Target(e) == f && Present(e) && Writable(e) && User(e) && Mmapped(e)
    requires e == Entry(f, MMAP_FLAGS)
    ensures NewPage(s0, e)
  {
    hide Consistent, SameMap, KeepsPage, OthersOwn, Loose;
  }

  const SEARCH_START: nat := 1024
  const EINVAL: int := 22

  /** The arguments that mmapProcess does not support: executable or inaccessible pages, files, and
      shared maps. */
  predicate Unsupported(prot: nat, flags: nat, fd: int, offset: nat) {
    (prot / 4) % 2 == 1 || prot == 0 || fd != 0 || offset != 0 || flags % 2 == 1
  }

  lemma FlagTests(prot: nat, flags: nat)
    ensures And(prot, PROT_EXEC) != 0 <==> (prot / 4) % 2 == 1
    ensures And(flags, MAP_SHARED) != 0 <==> flags % 2 == 1
  {
    AndNone(flags / 2);
    AndNone(prot / 2 / 2 / 2);
    assert And(flags, 1) == 2 * And(flags / 2, 0) + if flags % 2 == 1 then 1 else 0;
    assert And(prot / 2 / 2, 1) == 2 * And(prot / 2 / 2 / 2, 0) + if prot / 2 / 2 % 2 == 1 then 1 else 0;
    assert And(prot / 2, 2) == 2 * And(prot / 2 / 2, 1);
    assert And(prot, 4) == 2 * And(prot / 2, 2);
    assert prot / 2 / 2 == prot / 4;
  }

  lemma {:induction false} AndNone(x: nat)
    ensures And(x, 0) == 0
  {
    if x > 0 {
      AndNone(x / 2);
    }
  }

  /** Where mmapProcess may map: in the tables of the hint, if they are all absent, and otherwise at
      the lowest run from MMAP_START_ADDRESS on. */
  ghost predicate Chosen(mem: Memory, pd: nat, hint: nat, a: nat, chunks: nat) {
    Fits(mem, pd, a, chunks) && 0 < a && a + chunks <= USER_PAGES &&
    if HintWorks(mem, pd, hint, chunks) then a == hint / FRAME_4MB * ENTRIES
    else SEARCH_START <= a && forall b: nat | SEARCH_START <= b < a :: !Fits(mem, pd, b, chunks)
  }

  ghost predicate HintWorks(mem: Memory, pd: nat, hint: nat, chunks: nat) {
    hint >= FRAME_4MB && HintFree(mem, pd, hint / FRAME_4MB, chunks)
  }

  /** The search will succeed. */
  ghost predicate Room(mem: Memory, pd: nat, hint: nat, chunks: nat) {
    HintWorks(mem, pd, hint, chunks) ||
    exists a: nat :: SEARCH_START <= a && a + chunks <= USER_PAGES && Fits(mem, pd, a, chunks)
  }

  /** The search of mmapProcess. */
  method ChooseAddress(mem: Memory, pd: nat, hint: nat, chunks: nat) returns (address: nat)
    requires hint < KERNEL_BASE && Present(Word(mem, pd, USER_TABLES)) && (chunks > 0 ==> Room(mem, pd, hint, chunks))
    ensures chunks > 0 ==> address % FRAME_4KB == 0 && Chosen(mem, pd, hint, address / FRAME_4KB, chunks)
    ensures chunks == 0 ==> address == if hint == 0 then MMAP_START_ADDRESS else hint
  {
    hide Fits, Word, Present, HintFree;
    ghost var found;
    SearchStart(mem, pd);
    if hint == 0 {
      address, found := GetVirtualChunks(mem, pd, MMAP_START_ADDRESS, chunks, false);
    } else {
      address, found := GetVirtualChunks(mem, pd, hint, chunks, true);
      if found && chunks > 0 { HintBounds(mem, pd, hint, chunks); }
      if address == 0 {
        address, found := GetVirtualChunks(mem, pd, MMAP_START_ADDRESS, chunks, false);
      }
    }
  }

  lemma SearchStart(mem: Memory, pd: nat)
    ensures ScanStart(mem, pd, MMAP_START_ADDRESS) == SEARCH_START
  {
  }

  lemma HintBounds(mem: Memory, pd: nat, hint: nat, chunks: nat)
    requires hint < KERNEL_BASE && Present(Word(mem, pd, USER_TABLES)) && HintFree(mem, pd, hint / FRAME_4MB, chunks)
    ensures hint / FRAME_4MB * ENTRIES + chunks <= USER_PAGES
    ensures hint / FRAME_4MB * FRAME_4MB / FRAME_4KB == hint / FRAME_4MB * ENTRIES
  {
  }

  /** mmapProcess: the pages of the length, and one more if the length is a multiple of the page
      size, get new frames; nothing else changes for any process. A length in the last page of the
      32-bit range wraps around to no page at all. */
  method MmapProcess(sp: Spaces, pd: nat, hint: nat, length: nat, prot: nat, flags: nat, fd: int, offset: nat)
    returns (ok: bool, address: int, errnum: int)
    requires sp.Valid() && pd in sp.spaces && hint < KERNEL_BASE && length < 0x1_0000_0000
    requires Present(Word(sp.mem, pd, USER_TABLES))
    requires length < LAST_PAGE && !Unsupported(prot, flags, fd, offset) ==> Room(sp.mem, pd, hint, length / FRAME_4KB + 1)
    modifies sp`mem, sp`taken, sp`owner, sp.frames, sp.frames.frameMap, sp.frames.cached
    ensures Unsupported(prot, flags, fd, offset) ==> ok && sp.Valid() && sp.Sys() == old(sp.Sys()) && address == -1 && errnum == EINVAL
    ensures ok && !Unsupported(prot, flags, fd, offset) && length < LAST_PAGE ==>
              address > 0 && address % FRAME_4KB == 0 && Chosen(old(sp.mem), pd, hint, address / FRAME_4KB, length / FRAME_4KB + 1) &&
              sp.Valid() && Grown(old(sp.Sys()), sp.Sys(), sp.Lay(), pd) &&
              MapsRange(old(sp.Sys()), sp.Sys(), pd, address / FRAME_4KB, length / FRAME_4KB + 1) &&
              TablesGrown(old(sp.mem), sp.mem, pd) && RangeReached(old(sp.mem), sp.mem, pd, address / FRAME_4KB, length / FRAME_4KB + 1)
    ensures ok && !Unsupported(prot, flags, fd, offset) && length >= LAST_PAGE ==>
              address == (if hint == 0 then MMAP_START_ADDRESS else hint) &&
              sp.Valid() && Grown(old(sp.Sys()), sp.Sys(), sp.Lay(), pd) && MapsRange(old(sp.Sys()), sp.Sys(), pd, 0, 0)
  {
    hide Consistent, Spaces.Linked, FrameAllocator.Valid, Grown, NewPage, Open, Word, Room, Lookup, And;
    errnum := 0;
    FlagTests(prot, flags);
    if And(prot, PROT_EXEC) != 0 || prot == PROT_NONE || fd != 0 || offset != 0 || And(flags, MAP_SHARED) != 0 {
      return true, -1, EINVAL;
    }
    ghost var s0 := sp.Sys();
    ChunksOf(length);
    var chunks := MmapChunks(length);
    var a := ChooseAddress(sp.mem, pd, hint, chunks);
    ok := MapChunks(sp, pd, a, chunks);
    address := a;
    if ok {
      RangeIsReached(s0, sp.Sys(), pd, a / FRAME_4KB, chunks);
    }
  }

  const LAST_PAGE: nat := 0xFFFF_F000

  lemma ChunksOf(length: nat)
    requires length < 0x1_0000_0000
    ensures MmapChunks(length) == if length < LAST_PAGE then length / FRAME_4KB + 1 else 0
  {
  }
}
