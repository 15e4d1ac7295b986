/** What becomes of the grandchildren of a process that terminates: kernel/src/usermode.c leaves them
    with a parent pointer to a slot that is free, and may be used again.
 */
module Orphans {
  import opened ProcessTable

  /** g has a parent pointer, but the process in that slot, if there is one, does not list g. */
  ghost predicate Orphan(ps: Table, g: nat) {
    Live(ps, g) && ps[g].parent.Slot? && !HasChild(ps, ps[g].parent.slot, g)
  }

  /** g has exited, and no process lists it. */
  ghost predicate Lost(ps: Table, g: nat) {
    Live(ps, g) && ps[g].state == ZOMBIE && forall p: nat :: !HasChild(ps, p, g)
  }

  // ------------------------------------------------------------------- how orphans come about

  lemma StoppedIs(ps: Table, k: nat)
    requires k < PROCESSES_MAX
    ensures forall i | 0 <= i < PROCESSES_MAX :: Terminated(ps, k)[i] == Stopped(ps, k, i)
  {
  }

  /** After the termination of k, who is live lists what it has listed before, but for k itself. */
  lemma ListsAfter(ps: Table, spaces: set<nat>, k: nat, p: nat, j: nat)
    requires Inv(ps, spaces) && Live(ps, k)
    ensures HasChild(Terminated(ps, k), p, j) <==> HasChild(ps, p, j) && !Stops(ps, k, p) && j != k
  {
    StoppedIs(ps, k);
    assert WellPlaced(ps, k) && ChildKnown(ps, p, j);
  }

  lemma GrandchildStays(ps: Table, spaces: set<nat>, k: nat, c: nat, g: nat)
    requires Inv(ps, spaces) && Live(ps, k) && HasChild(ps, k, c) && HasChild(ps, c, g)
    ensures !Stops(ps, k, g) && Stops(ps, k, c) && Live(ps, g) && ps[g].parent == Slot(c)
  {
    assert ChildKnown(ps, k, c) && ChildKnown(ps, c, g);
    var age :| Aged(ps, age);
    assert age[k] < age[c] < age[g];
    if Stops(ps, k, g) {
      StopsChildren(ps, spaces, k, g);
    }
  }

  /** A termination makes orphans of the grandchildren, and of nobody else. */
  lemma TerminationOrphans(ps: Table, spaces: set<nat>, k: nat, g: nat)
    requires Inv(ps, spaces) && Live(ps, k)
    ensures Orphan(Terminated(ps, k), g) && !Orphan(ps, g) <==> exists c: nat :: HasChild(ps, k, c) && HasChild(ps, c, g)
  {
    StoppedIs(ps, k);
    if c: nat :| HasChild(ps, k, c) && HasChild(ps, c, g) {
      GrandchildStays(ps, spaces, k, c, g);
      ListsAfter(ps, spaces, k, c, g);
    }
    if Orphan(Terminated(ps, k), g) && !Orphan(ps, g) {
      NewOrphan(ps, spaces, k, g);
    }
  }

  lemma NewOrphan(ps: Table, spaces: set<nat>, k: nat, g: nat)
    requires Inv(ps, spaces) && Live(ps, k) && Orphan(Terminated(ps, k), g) && !Orphan(ps, g)
    ensures exists c: nat :: HasChild(ps, k, c) && HasChild(ps, c, g)
  {
    StoppedIs(ps, k);
    var c := ps[g].parent.slot;
    assert g != k && HasChild(ps, c, g) && ps[g].parent == Slot(c);
    ListsAfter(ps, spaces, k, c, g);
    StopsChildren(ps, spaces, k, c);
    assert ChildKnown(ps, k, g);
  }

  // ------------------------------------------------------------------- what becomes of them

  /** An orphan that exits is lost, unless its stale parent pointer leads to a slot that waits. */
  lemma OrphanExits(ps: Table, spaces: set<nat>, g: nat)
    requires Inv(ps, spaces) && Orphan(ps, g) && ps[g].state != ZOMBIE
    ensures ps[g].parent.slot < PROCESSES_MAX
    ensures Lost(Exited(ps, g), g) <==> ps[ps[g].parent.slot].state != BLOCKED_WAITPID
  {
    ParentPlace(ps, spaces, g);
    StoppedIs(Woken(ps, ps[g].parent.slot, ps[g].id), g);
    var ps' := ps[g := ps[g].(state := ZOMBIE)];
    forall p: nat ensures !HasChild(ps', p, g) {
      assert ChildKnown(ps, p, g);
      assert HasChild(ps', p, g) <==> HasChild(ps, p, g);
    }
  }

  lemma LostThroughTermination(ps: Table, spaces: set<nat>, k: nat, g: nat)
    requires Inv(ps, spaces) && Live(ps, k) && Lost(ps, g) && k != g
    ensures Lost(Terminated(ps, k), g)
  {
    StoppedIs(ps, k);
    NoChildNoStop(ps, spaces, k, g);
    forall p: nat ensures !HasChild(Terminated(ps, k), p, g) {
      ListsAfter(ps, spaces, k, p, g);
    }
  }

  lemma LostThroughExit(ps: Table, spaces: set<nat>, k: nat, g: nat)
    requires Inv(ps, spaces) && Live(ps, k) && ps[k].state == RUNNING && Lost(ps, g)
    ensures ps[k].parent.Slot? ==> ps[k].parent.slot < PROCESSES_MAX
    ensures Lost(Exited(ps, k), g)
  {
    ParentPlace(ps, spaces, k);
    if ps[k].parent == Null {
      LostThroughTermination(ps, spaces, k, g);
    } else {
      var q := ps[k].parent.slot;
      if ps[q].state == BLOCKED_WAITPID {
        WakingKeeps(ps, spaces, q, k);
        LostAlong(ps, Woken(ps, q, ps[k].id), g);
        LostThroughTermination(Woken(ps, q, ps[k].id), spaces, k, g);
      } else {
        LostAlong(ps, ps[k := ps[k].(state := ZOMBIE)], g);
      }
    }
  }

  lemma LostAlong(ps: Table, ps': Table, g: nat)
    requires Lost(ps, g) && ps'[g].state == ZOMBIE
    requires forall i | 0 <= i < PROCESSES_MAX :: ps'[i].initialized == ps[i].initialized && ps'[i].children == ps[i].children
    ensures Lost(ps', g)
  {
    forall p: nat ensures !HasChild(ps', p, g) {
      assert !HasChild(ps, p, g);
    }
  }

  lemma LostThroughWait(ps: Table, spaces: set<nat>, p: nat, g: nat)
    requires Inv(ps, spaces) && Live(ps, p) && ps[p].state == RUNNING && Lost(ps, g)
    ensures Lost(Waited(ps, p), g)
  {
    var k := FirstZombie(ps, p, 0);
    if k < MAX_CHILDREN {
      ZombieKnown(ps, spaces, p, k);
      LostThroughTermination(ps, spaces, k, g);
    } else {
      LostAlong(ps, ps[p := ps[p].(state := BLOCKED_WAITPID)], g);
    }
  }

  lemma LostThroughFork(ps: Table, p: nat, c: nat, pd: nat, g: nat)
    requires Live(ps, p) && ps[p].state == RUNNING && c < PROCESSES_MAX && !Live(ps, c) && Lost(ps, g)
    ensures Lost(Forked(ps, p, c, pd), g)
  {
    forall o: nat ensures !HasChild(Forked(ps, p, c, pd), o, g) {
      assert !HasChild(ps, o, g);
    }
  }

  /** No system call and no key press reaps a lost process. */
  lemma LostStays(ps: Table, spaces: set<nat>, e: Event, g: nat)
    requires Inv(ps, spaces) && Enabled(ps, spaces, e) && Lost(ps, g)
    ensures Lost(After(ps, spaces, e).0, g)
  {
    match e
    case Fork(p, pd) => LostThroughFork(ps, p, FreeSlot(ps, 0), pd, g);
    case Exit(p) => LostThroughExit(ps, spaces, p, g);
    case Waitpid(p) => LostThroughWait(ps, spaces, p, g);
    case Read(p, left) => LostAlong(ps, Reading(ps, p, left), g);
    case Key(c) => LostAlong(ps, TypedTo(ps, PROCESSES_MAX, c), g);
  }

  /** Nobody ever reaps a lost process: its slot and its address space are gone for good. */
  lemma {:induction false} LostForever(ps: Table, spaces: set<nat>, es: seq<Event>, ps': Table, spaces': set<nat>, g: nat)
    requires Inv(ps, spaces) && Lost(ps, g) && Reaches(ps, spaces, es, ps', spaces')
    ensures Lost(ps', g) && ps'[g].pd in spaces'
    decreases |es|
  {
    if es != [] {
      hide Inv, After, Lost, Enabled;
      StepKeeps(ps, spaces, es[0]);
      LostStays(ps, spaces, es[0], g);
      var (ps1, spaces1) := After(ps, spaces, es[0]);
      LostForever(ps1, spaces1, es[1..], ps', spaces', g);
    }
  }

  // ---------------------------------------------------------------------- wrong wake-ups

  /** The exit of k makes the waiting process q run again. */
  ghost predicate Wakes(ps: Table, k: nat, q: nat)
    requires k < PROCESSES_MAX && (ps[k].parent.Slot? ==> ps[k].parent.slot < PROCESSES_MAX)
  {
    Live(ps, q) && ps[q].state == BLOCKED_WAITPID && Exited(ps, k)[q].state == RUNNING
  }

  /** A process is woken by a process that is not its child just if that one is an orphan whose stale
      parent pointer leads to the slot of the first, which waits; and it is told that one's id. */
  lemma WokenByStranger(ps: Table, spaces: set<nat>, k: nat, q: nat)
    requires Inv(ps, spaces) && Live(ps, k)
    ensures ps[k].parent.Slot? ==> ps[k].parent.slot < PROCESSES_MAX
    ensures Wakes(ps, k, q) && !HasChild(ps, q, k) <==>
            Orphan(ps, k) && ps[k].parent == Slot(q) && Live(ps, q) && ps[q].state == BLOCKED_WAITPID
    ensures Wakes(ps, k, q) ==> Exited(ps, k)[q].eax == k
  {
    ParentPlace(ps, spaces, k);
    StoppedIs(ps, k);
    if ps[k].parent.Slot? {
      StoppedIs(Woken(ps, ps[k].parent.slot, ps[k].id), k);
    }
  }

  // --------------------------------------------------------------------------- such runs

  /** A table in which only the first four slots have been used. */
  predicate Four(ps: Table, a: Process, b: Process, c: Process, d: Process) {
    ps[0] == a && ps[1] == b && ps[2] == c && ps[3] == d && forall i | 4 <= i < PROCESSES_MAX :: !ps[i].initialized
  }

  /** A live process with children in the given slots. */
  function Member(id: nat, state: State, parent: Pointer, children: seq<Pointer>, pd: nat, eax: int): Process {
    Process(true, id, state, parent, if parent == Null then 0 else id, children, pd, eax, 0, map[])
  }

  function Nobody(): seq<Pointer> {
    Empty().children
  }

  /** The first free slot is i if it is free and those before are not. */
  lemma FreeSlotIs(ps: Table, i: nat)
    requires i < PROCESSES_MAX && !ps[i].initialized && forall j | 0 <= j < i :: ps[j].initialized
    ensures FreeSlot(ps, 0) == i
  {
    assert forall j: nat | j < i :: Live(ps, j);
    assert !Live(ps, i);
  }

  lemma OneEvent(ps: Table, spaces: set<nat>, e: Event, rest: seq<Event>, ps': Table, spaces': set<nat>)
    requires Enabled(ps, spaces, e) && Reaches(After(ps, spaces, e).0, After(ps, spaces, e).1, rest, ps', spaces')
    ensures Reaches(ps, spaces, [e] + rest, ps', spaces')
  {
    assert ([e] + rest)[1..] == rest;
  }

  /** Two forks, one below the other. */
  lemma TwoForks(ps: Table, spaces: set<nat>)
    requires ps == FirstProcess(0) && spaces == {0}
    ensures Enabled(ps, spaces, Fork(0, 1))
    ensures var (ps1, spaces1) := After(ps, spaces, Fork(0, 1));
            Enabled(ps1, spaces1, Fork(1, 2)) && spaces1 == {0, 1} &&
            var (ps2, spaces2) := After(ps1, spaces1, Fork(1, 2));
            spaces2 == {0, 1, 2} &&
            Four(ps2, Member(0, RUNNING, Null, Nobody()[1 := Slot(1)], 0, 1), Member(1, RUNNING, Slot(0), Nobody()[2 := Slot(2)], 1, 2),
                 Member(2, RUNNING, Slot(1), Nobody(), 2, 0), Empty())
  {
    assert forall i | 0 <= i < PROCESSES_MAX :: ps[i] == FirstSlot(i, 0);
    FreeSlotIs(ps, 1);
    var ps1 := Forked(ps, 0, 1, 1);
    assert ps1[1] == Member(1, RUNNING, Slot(0), Nobody(), 1, 0) && ps1[0] == Member(0, RUNNING, Null, Nobody()[1 := Slot(1)], 0, 1);
    FreeSlotIs(ps1, 2);
  }

  /** The first process exits, and its grandchild. */
  lemma ThenLost(ps: Table, spaces: set<nat>)
    requires Four(ps, Member(0, RUNNING, Null, Nobody()[1 := Slot(1)], 0, 1), Member(1, RUNNING, Slot(0), Nobody()[2 := Slot(2)], 1, 2),
                  Member(2, RUNNING, Slot(1), Nobody(), 2, 0), Empty())
    ensures Enabled(ps, spaces, Exit(0))
    ensures var (ps1, spaces1) := After(ps, spaces, Exit(0)); Enabled(ps1, spaces1, Exit(2)) && Lost(After(ps1, spaces1, Exit(2)).0, 2)
  {
    var ps1 := After(ps, spaces, Exit(0)).0;
    StoppedIs(ps, 0);
    assert Slot(1) == ps[0].children[1];
    assert !Live(ps1, 0) && !Live(ps1, 1) && ps1[2] == ps[2] && !Live(ps1, 3);
    var ps2 := ps1[2 := ps1[2].(state := ZOMBIE)];
    assert forall p: nat :: Live(ps2, p) <==> p == 2;
  }

  /** A run to a zombie that nobody reaps: the first process forks a child, this forks a grandchild,
      the first exits, and the grandchild exits. */
  lemma LostRun() returns (ps: Table, spaces: set<nat>)
    ensures Reaches(FirstProcess(0), {0}, [Fork(0, 1), Fork(1, 2), Exit(0), Exit(2)], ps, spaces) && Lost(ps, 2)
  {
    var ps0, spaces0: set<nat> := FirstProcess(0), {0};
    TwoForks(ps0, spaces0);
    hide FirstProcess, Four, After, Enabled, Lost;
    var (ps1, spaces1) := After(ps0, spaces0, Fork(0, 1));
    var (ps2, spaces2) := After(ps1, spaces1, Fork(1, 2));
    ThenLost(ps2, spaces2);
    var (ps3, spaces3) := After(ps2, spaces2, Exit(0));
    ps, spaces := After(ps3, spaces3, Exit(2)).0, After(ps3, spaces3, Exit(2)).1;
    OneEvent(ps3, spaces3, Exit(2), [], ps, spaces);
    OneEvent(ps2, spaces2, Exit(0), [Exit(2)], ps, spaces);
    OneEvent(ps1, spaces1, Fork(1, 2), [Exit(0), Exit(2)], ps, spaces);
    OneEvent(ps0, spaces0, Fork(0, 1), [Fork(1, 2), Exit(0), Exit(2)], ps, spaces);
    assert [Fork(0, 1)] + ([Fork(1, 2)] + ([Exit(0)] + ([Exit(2)] + []))) == [Fork(0, 1), Fork(1, 2), Exit(0), Exit(2)];
  }

  /** A third fork below, and the first process waits. */
  lemma ThenWaits(ps: Table, spaces: set<nat>)
    requires spaces == {0, 1, 2}
    requires Four(ps, Member(0, RUNNING, Null, Nobody()[1 := Slot(1)], 0, 1), Member(1, RUNNING, Slot(0), Nobody()[2 := Slot(2)], 1, 2),
                  Member(2, RUNNING, Slot(1), Nobody(), 2, 0), Empty())
    ensures Enabled(ps, spaces, Fork(2, 3))
    ensures var (ps1, spaces1) := After(ps, spaces, Fork(2, 3));
            Enabled(ps1, spaces1, Waitpid(0)) &&
            var (ps2, spaces2) := After(ps1, spaces1, Waitpid(0));
            spaces2 == {0, 1, 2, 3} &&
            Four(ps2, Member(0, BLOCKED_WAITPID, Null, Nobody()[1 := Slot(1)], 0, 1), Member(1, RUNNING, Slot(0), Nobody()[2 := Slot(2)], 1, 2),
                 Member(2, RUNNING, Slot(1), Nobody()[3 := Slot(3)], 2, 3), Member(3, RUNNING, Slot(2), Nobody(), 3, 0))
  {
    FreeSlotIs(ps, 3);
    var ps1 := Forked(ps, 2, 3, 3);
    assert FirstZombie(ps1, 0, 0) == MAX_CHILDREN;
  }

  /** The child exits: the first process goes on, and the child's grandchild is an orphan. */
  lemma ThenExits(ps: Table, spaces: set<nat>)
    requires spaces == {0, 1, 2, 3}
    requires Four(ps, Member(0, BLOCKED_WAITPID, Null, Nobody()[1 := Slot(1)], 0, 1), Member(1, RUNNING, Slot(0), Nobody()[2 := Slot(2)], 1, 2),
                  Member(2, RUNNING, Slot(1), Nobody()[3 := Slot(3)], 2, 3), Member(3, RUNNING, Slot(2), Nobody(), 3, 0))
    ensures Enabled(ps, spaces, Exit(1))
    ensures var (ps1, spaces1) := After(ps, spaces, Exit(1));
            spaces1 <= spaces && !ps1[1].initialized && !ps1[2].initialized &&
            Four(ps1, Member(0, RUNNING, Null, Nobody(), 0, 1), ps1[1], ps1[2], Member(3, RUNNING, Slot(2), Nobody(), 3, 0))
  {
    var ps0 := Woken(ps, 0, 1);
    StoppedIs(ps0, 1);
    assert Slot(2) == ps0[1].children[2] && Slot(3) !in ps0[1].children && Slot(0) !in ps0[1].children;
    assert Nobody()[1 := Slot(1)][1 := Null] == Nobody();
  }

  /** The first process forks two more children, into the free slots. */
  lemma ThenForks(ps: Table, spaces: set<nat>)
    requires spaces <= {0, 1, 2, 3} && !ps[1].initialized && !ps[2].initialized
    requires Four(ps, Member(0, RUNNING, Null, Nobody(), 0, 1), ps[1], ps[2], Member(3, RUNNING, Slot(2), Nobody(), 3, 0))
    ensures Enabled(ps, spaces, Fork(0, 4))
    ensures var (ps1, spaces1) := After(ps, spaces, Fork(0, 4));
            Enabled(ps1, spaces1, Fork(0, 5)) &&
            var (ps2, spaces2) := After(ps1, spaces1, Fork(0, 5));
            Four(ps2, Member(0, RUNNING, Null, Nobody()[1 := Slot(1)][2 := Slot(2)], 0, 2), Member(1, RUNNING, Slot(0), Nobody(), 4, 0),
                 Member(2, RUNNING, Slot(0), Nobody(), 5, 0), Member(3, RUNNING, Slot(2), Nobody(), 3, 0))
  {
    FreeSlotIs(ps, 1);
    FreeSlotIs(Forked(ps, 0, 1, 4), 2);
  }

  /** The second of them waits, although it has no child, and the orphan exits. */
  lemma ThenWakes(ps: Table, spaces: set<nat>)
    requires Four(ps, Member(0, RUNNING, Null, Nobody()[1 := Slot(1)][2 := Slot(2)], 0, 2), Member(1, RUNNING, Slot(0), Nobody(), 4, 0),
                  Member(2, RUNNING, Slot(0), Nobody(), 5, 0), Member(3, RUNNING, Slot(2), Nobody(), 3, 0))
    ensures Enabled(ps, spaces, Waitpid(2))
    ensures var (ps1, spaces1) := After(ps, spaces, Waitpid(2));
            Enabled(ps1, spaces1, Exit(3)) && Wakes(ps1, 3, 2) && !HasChild(ps1, 2, 3)
  {
    assert FirstZombie(ps, 2, 0) == MAX_CHILDREN;
    var ps1 := ps[2 := ps[2].(state := BLOCKED_WAITPID)];
    StoppedIs(Woken(ps1, 2, 3), 3);
    assert Slot(2) !in ps1[3].children;
  }

  /** A run in which the exit of process 3 wakes process 2, whose child it is not: the slot of its
      parent has been used again. */
  lemma StrangerRun() returns (ps: Table, spaces: set<nat>)
    ensures Reaches(FirstProcess(0), {0}, [Fork(0, 1), Fork(1, 2), Fork(2, 3), Waitpid(0), Exit(1), Fork(0, 4), Fork(0, 5), Waitpid(2)], ps, spaces)
    ensures Enabled(ps, spaces, Exit(3)) && Wakes(ps, 3, 2) && !HasChild(ps, 2, 3)
  {
    var ps0, spaces0: set<nat> := FirstProcess(0), {0};
    TwoForks(ps0, spaces0);
    hide FirstProcess, Four, After, Enabled, Wakes, HasChild;
    var (ps1, spaces1) := After(ps0, spaces0, Fork(0, 1));
    var (ps2, spaces2) := After(ps1, spaces1, Fork(1, 2));
    ThenWaits(ps2, spaces2);
    var (ps3, spaces3) := After(ps2, spaces2, Fork(2, 3));
    var (ps4, spaces4) := After(ps3, spaces3, Waitpid(0));
    ThenExits(ps4, spaces4);
    var (ps5, spaces5) := After(ps4, spaces4, Exit(1));
    ThenForks(ps5, spaces5);
    var (ps6, spaces6) := After(ps5, spaces5, Fork(0, 4));
    var (ps7, spaces7) := After(ps6, spaces6, Fork(0, 5));
    ThenWakes(ps7, spaces7);
    ps, spaces := After(ps7, spaces7, Waitpid(2)).0, After(ps7, spaces7, Waitpid(2)).1;
    OneEvent(ps7, spaces7, Waitpid(2), [], ps, spaces);
    OneEvent(ps6, spaces6, Fork(0, 5), [Waitpid(2)], ps, spaces);
    OneEvent(ps5, spaces5, Fork(0, 4), [Fork(0, 5), Waitpid(2)], ps, spaces);
    OneEvent(ps4, spaces4, Exit(1), [Fork(0, 4), Fork(0, 5), Waitpid(2)], ps, spaces);
    OneEvent(ps3, spaces3, Waitpid(0), [Exit(1), Fork(0, 4), Fork(0, 5), Waitpid(2)], ps, spaces);
    OneEvent(ps2, spaces2, Fork(2, 3), [Waitpid(0), Exit(1), Fork(0, 4), Fork(0, 5), Waitpid(2)], ps, spaces);
    OneEvent(ps1, spaces1, Fork(1, 2), [Fork(2, 3), Waitpid(0), Exit(1), Fork(0, 4), Fork(0, 5), Waitpid(2)], ps, spaces);
    OneEvent(ps0, spaces0, Fork(0, 1), [Fork(1, 2), Fork(2, 3), Waitpid(0), Exit(1), Fork(0, 4), Fork(0, 5), Waitpid(2)], ps, spaces);
  }
}
