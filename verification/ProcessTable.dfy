/** fork, waitpid and exit as changes of the process table of kernel/src/usermode.c. */
module ProcessTable {
  const PROCESSES_MAX: nat := 32
  const MAX_CHILDREN: nat := 32

  datatype State = RUNNING | ZOMBIE | BLOCKED_KEYBOARD | BLOCKED_WAITPID

  /** A process_t*: null, or the address of a slot of the table. */
  datatype Pointer = Null | Slot(slot: nat)

  /** eax is regs.eax, requested is blocked_regs.edx, and buf what is in the buffer at blocked_regs.ecx. */
  datatype Process = Process(initialized: bool, id: nat, state: State, parent: Pointer, indexInParent: nat,
                             children: seq<Pointer>, pd: nat, eax: int, requested: nat, buf: map<int, char>)

  type Table = ps: seq<Process> | |ps| == PROCESSES_MAX && forall i | 0 <= i < |ps| :: |ps[i].children| == MAX_CHILDREN
    witness seq(PROCESSES_MAX, i => Empty())

  function Empty(): Process {
    Process(false, 0, RUNNING, Null, 0, seq(MAX_CHILDREN, i => Null), 0, 0, 0, map[])
  }

  // -------------------------------------------------------------------------- invariant

  predicate Live(ps: Table, i: nat) {
    i < PROCESSES_MAX && ps[i].initialized
  }

  predicate HasChild(ps: Table, p: nat, k: nat) {
    Live(ps, p) && k < MAX_CHILDREN && ps[p].children[k] != Null
  }

  /** A child pointer names its own slot, whose process is live and has that parent. */
  ghost predicate ChildKnown(ps: Table, p: nat, k: nat) {
    HasChild(ps, p, k) ==> ps[p].children[k] == Slot(k) && Live(ps, k) && ps[k].parent == Slot(p)
  }

  /** No wake-up is lost: who waits has no zombie to wait for. */
  ghost predicate NoneMissed(ps: Table, p: nat, k: nat) {
    HasChild(ps, p, k) && ps[p].state == BLOCKED_WAITPID ==> ps[k].state != ZOMBIE
  }

  ghost predicate WellPlaced(ps: Table, i: nat) {
    Live(ps, i) ==>
      ps[i].id == i && (ps[i].state == BLOCKED_KEYBOARD ==> ps[i].requested > 0) &&
      (ps[i].parent.Slot? ==> ps[i].parent.slot < PROCESSES_MAX && ps[i].parent.slot != i && ps[i].indexInParent == i)
  }

  /** Live processes have address spaces of their own, and no other address space exists. */
  ghost predicate Spaces(ps: Table, spaces: set<nat>) {
    (forall i: nat, j: nat | Live(ps, i) && Live(ps, j) && i != j :: ps[i].pd != ps[j].pd) &&
    (forall i: nat | Live(ps, i) :: ps[i].pd in spaces) &&
    (forall d | d in spaces :: exists i: nat :: Live(ps, i) && ps[i].pd == d)
  }

  /** Every child is younger than its parent, for some ages. */
  ghost predicate Aged(ps: Table, age: seq<nat>) {
    |age| == PROCESSES_MAX && forall p: nat, k: nat | HasChild(ps, p, k) && k < PROCESSES_MAX :: age[p] < age[k]
  }

  /** The child entries form a forest. */
  ghost predicate Forest(ps: Table) {
    exists age: seq<nat> :: Aged(ps, age)
  }

  ghost predicate Inv(ps: Table, spaces: set<nat>) {
    (forall p, k :: ChildKnown(ps, p, k) && NoneMissed(ps, p, k)) && (forall i :: WellPlaced(ps, i)) && Spaces(ps, spaces) &&
    Forest(ps)
  }

  lemma ForestKept(ps: Table, ps': Table)
    requires Forest(ps) && forall p: nat, k: nat | HasChild(ps', p, k) :: HasChild(ps, p, k)
    ensures Forest(ps')
  {
    var age :| Aged(ps, age);
    assert Aged(ps', age);
  }

  // ------------------------------------------------------------------------ termination

  /** Process i is stopped when k terminates. */
  predicate Stops(ps: Table, k: nat, i: nat) {
    k < PROCESSES_MAX && (i == k || Slot(i) in ps[k].children)
  }

  function Stopped(ps: Table, k: nat, i: nat): (p: Process)
    requires i < PROCESSES_MAX && k < PROCESSES_MAX
    ensures |p.children| == MAX_CHILDREN
  {
    var p := if Stops(ps, k, i) then ps[i].(initialized := false) else ps[i];
    if ps[k].parent == Slot(i) && ps[k].indexInParent < MAX_CHILDREN then p.(children := p.children[ps[k].indexInParent := Null]) else p
  }

  /** k and its children are gone, and the parent of k does not know it any more. */
  function Terminated(ps: Table, k: nat): Table
    requires k < PROCESSES_MAX
  {
    seq(PROCESSES_MAX, i requires 0 <= i < PROCESSES_MAX => Stopped(ps, k, i))
  }

  /** The address spaces that go with k. */
  ghost function Spent(ps: Table, k: nat): set<nat> {
    set i | 0 <= i < PROCESSES_MAX && Stops(ps, k, i) :: ps[i].pd
  }

  lemma StopsChildren(ps: Table, spaces: set<nat>, k: nat, i: nat)
    requires Inv(ps, spaces) && Live(ps, k) && Stops(ps, k, i)
    ensures Live(ps, i) && (i != k ==> ps[k].children[i] == Slot(i) && ps[i].parent == Slot(k))
  {
    if i != k {
      var j: nat :| j < MAX_CHILDREN && ps[k].children[j] == Slot(i);
      assert ChildKnown(ps, k, j);
    }
  }

  lemma TerminationKeeps(ps: Table, spaces: set<nat>, k: nat)
    requires Inv(ps, spaces) && Live(ps, k)
    ensures Inv(Terminated(ps, k), spaces - Spent(ps, k))
    ensures forall i: nat :: Live(Terminated(ps, k), i) <==> Live(ps, i) && !Stops(ps, k, i)
  {
    var ps' := Terminated(ps, k);
    assert forall i | 0 <= i < PROCESSES_MAX :: ps'[i] == Stopped(ps, k, i);
    TerminatedLinks(ps, spaces, k, ps');
    TerminatedSpaces(ps, spaces, k, ps');
    ForestKept(ps, ps');
  }

  lemma TerminatedLinks(ps: Table, spaces: set<nat>, k: nat, ps': Table)
    requires Inv(ps, spaces) && Live(ps, k) && forall i | 0 <= i < PROCESSES_MAX :: ps'[i] == Stopped(ps, k, i)
    ensures forall p, j :: ChildKnown(ps', p, j) && NoneMissed(ps', p, j)
    ensures forall i :: WellPlaced(ps', i)
  {
    forall i ensures WellPlaced(ps', i) {
      assert WellPlaced(ps, i);
    }
    forall p, j ensures ChildKnown(ps', p, j) && NoneMissed(ps', p, j) {
      if HasChild(ps', p, j) {
        assert HasChild(ps, p, j) && ChildKnown(ps, p, j) && NoneMissed(ps, p, j);
        assert WellPlaced(ps, k);
        if Stops(ps, k, j) {
          StopsChildren(ps, spaces, k, j);
        }
      }
    }
  }

  lemma TerminatedSpaces(ps: Table, spaces: set<nat>, k: nat, ps': Table)
    requires Inv(ps, spaces) && Live(ps, k) && forall i | 0 <= i < PROCESSES_MAX :: ps'[i] == Stopped(ps, k, i)
    ensures Spaces(ps', spaces - Spent(ps, k))
  {
    assert forall i | 0 <= i < PROCESSES_MAX :: ps'[i].pd == ps[i].pd;
    assert forall i: nat :: Live(ps', i) <==> Live(ps, i) && !Stops(ps, k, i);
    hide Stopped, ChildKnown, NoneMissed, WellPlaced;
    forall i: nat | Live(ps', i) ensures ps'[i].pd in spaces - Spent(ps, k) {
      if ps[i].pd in Spent(ps, k) {
        var j: nat :| j < PROCESSES_MAX && Stops(ps, k, j) && ps[j].pd == ps[i].pd;
        StopsChildren(ps, spaces, k, j);
      }
    }
    forall d | d in spaces - Spent(ps, k) ensures exists i: nat :: Live(ps', i) && ps'[i].pd == d {
      var i: nat :| Live(ps, i) && ps[i].pd == d;
      assert !Stops(ps, k, i);
      assert Live(ps', i);
    }
  }

  // ------------------------------------------------------------------------------- exit

  function Woken(ps: Table, q: nat, id: nat): Table
    requires q < PROCESSES_MAX
  {
    ps[q := ps[q].(state := RUNNING, eax := id)]
  }

  /** handleWaitpidBlock: terminate at once if nobody will wait or the parent waits already, and
      otherwise stay as a zombie. */
  function Exited(ps: Table, k: nat): Table
    requires k < PROCESSES_MAX && (ps[k].parent.Slot? ==> ps[k].parent.slot < PROCESSES_MAX)
  {
    match ps[k].parent
    case Null => Terminated(ps, k)
    case Slot(q) =>
      if ps[q].state == BLOCKED_WAITPID then Terminated(Woken(ps, q, ps[k].id), k)
      else ps[k := ps[k].(state := ZOMBIE)]
  }

  ghost function ExitedSpaces(ps: Table, spaces: set<nat>, k: nat): set<nat>
    requires k < PROCESSES_MAX && (ps[k].parent.Slot? ==> ps[k].parent.slot < PROCESSES_MAX)
  {
    if ps[k].parent.Slot? && ps[ps[k].parent.slot].state != BLOCKED_WAITPID then spaces else spaces - Spent(ps, k)
  }

  /** Only the state of p, and what it finds in eax, change, and not to a state it must not be in. */
  lemma StateChangeKeeps(ps: Table, spaces: set<nat>, p: nat, q: Process)
    requires Inv(ps, spaces) && p < PROCESSES_MAX
    requires q == ps[p].(state := q.state, eax := q.eax, requested := q.requested, buf := q.buf)
    requires q.state == BLOCKED_KEYBOARD ==> q.requested > 0
    requires q.state == BLOCKED_WAITPID ==> forall k: nat | HasChild(ps, p, k) :: ps[k].state != ZOMBIE
    requires q.state == ZOMBIE && ps[p].initialized ==> forall o: nat | ps[p].parent == Slot(o) && o < PROCESSES_MAX :: ps[o].state != BLOCKED_WAITPID
    ensures Inv(ps[p := q], spaces)
  {
    var ps' := ps[p := q];
    forall i ensures WellPlaced(ps', i) {
      assert WellPlaced(ps, i);
    }
    forall o, k ensures ChildKnown(ps', o, k) && NoneMissed(ps', o, k) {
      assert ChildKnown(ps, o, k) && NoneMissed(ps, o, k);
      assert WellPlaced(ps, p);
    }
    SpacesKept(ps, ps', spaces);
    ForestKept(ps, ps');
  }

  lemma SpacesKept(ps: Table, ps': Table, spaces: set<nat>)
    requires Spaces(ps, spaces)
    requires forall i | 0 <= i < PROCESSES_MAX :: ps'[i].initialized == ps[i].initialized && ps'[i].pd == ps[i].pd
    ensures Spaces(ps', spaces)
  {
    assert forall i: nat :: Live(ps', i) <==> Live(ps, i);
    forall d | d in spaces ensures exists i: nat :: Live(ps', i) && ps'[i].pd == d {
      var i: nat :| Live(ps, i) && ps[i].pd == d;
      assert Live(ps', i);
    }
  }

  lemma ParentPlace(ps: Table, spaces: set<nat>, k: nat)
    requires Inv(ps, spaces) && Live(ps, k)
    ensures ps[k].parent.Slot? ==> ps[k].parent.slot < PROCESSES_MAX && ps[k].parent.slot != k
    ensures ps[k].id == k
  {
    assert WellPlaced(ps, k);
  }

  lemma SpentSame(ps: Table, ps': Table, k: nat)
    requires k < PROCESSES_MAX && ps'[k].children == ps[k].children
    requires forall i | 0 <= i < PROCESSES_MAX :: ps'[i].pd == ps[i].pd
    ensures Spent(ps', k) == Spent(ps, k)
  {
    assert forall i: nat :: Stops(ps', k, i) <==> Stops(ps, k, i);
    forall d ensures d in Spent(ps', k) <==> d in Spent(ps, k) {
      if d in Spent(ps', k) {
        var i: nat :| i < PROCESSES_MAX && Stops(ps', k, i) && ps'[i].pd == d;
        assert Stops(ps, k, i) && ps[i].pd == d;
      }
      if d in Spent(ps, k) {
        var i: nat :| i < PROCESSES_MAX && Stops(ps, k, i) && ps[i].pd == d;
        assert Stops(ps', k, i) && ps'[i].pd == d;
      }
    }
  }

  lemma WakingKeeps(ps: Table, spaces: set<nat>, q: nat, k: nat)
    requires Inv(ps, spaces) && Live(ps, k) && q < PROCESSES_MAX && q != k
    ensures Inv(Woken(ps, q, ps[k].id), spaces) && Live(Woken(ps, q, ps[k].id), k)
    ensures Spent(Woken(ps, q, ps[k].id), k) == Spent(ps, k)
  {
    StateChangeKeeps(ps, spaces, q, ps[q].(state := RUNNING, eax := ps[k].id));
    SpentSame(ps, Woken(ps, q, ps[k].id), k);
  }

  lemma ExitKeeps(ps: Table, spaces: set<nat>, k: nat)
    requires Inv(ps, spaces) && Live(ps, k)
    ensures ps[k].parent.Slot? ==> ps[k].parent.slot < PROCESSES_MAX
    ensures Inv(Exited(ps, k), ExitedSpaces(ps, spaces, k))
  {
    ParentPlace(ps, spaces, k);
    hide Inv, Terminated, Spent, Woken;
    if ps[k].parent == Null {
      TerminationKeeps(ps, spaces, k);
    } else {
      var q := ps[k].parent.slot;
      if ps[q].state == BLOCKED_WAITPID {
        WakingKeeps(ps, spaces, q, k);
        TerminationKeeps(Woken(ps, q, ps[k].id), spaces, k);
      } else {
        StateChangeKeeps(ps, spaces, k, ps[k].(state := ZOMBIE));
      }
    }
  }

  // ---------------------------------------------------------------------------- waitpid

  predicate ZombieChild(ps: Table, p: nat, k: nat) {
    p < PROCESSES_MAX && k < MAX_CHILDREN && ps[p].children[k].Slot? && ps[p].children[k].slot < PROCESSES_MAX &&
    ps[ps[p].children[k].slot].state == ZOMBIE
  }

  /** The first zombie child of p from index i on, MAX_CHILDREN if there is none. */
  function FirstZombie(ps: Table, p: nat, i: nat): (k: nat)
    requires i <= MAX_CHILDREN
    ensures i <= k <= MAX_CHILDREN && (k < MAX_CHILDREN ==> ZombieChild(ps, p, k))
    ensures forall j | i <= j < k :: !ZombieChild(ps, p, j)
    decreases MAX_CHILDREN - i
  {
    if i == MAX_CHILDREN || ZombieChild(ps, p, i) then i else FirstZombie(ps, p, i + 1)
  }

  /** handleWaitpid: reap the first zombie child, or wait for one. */
  function Waited(ps: Table, p: nat): Table
    requires p < PROCESSES_MAX
  {
    var k := FirstZombie(ps, p, 0);
    if k < MAX_CHILDREN then Terminated(ps, ps[p].children[k].slot) else ps[p := ps[p].(state := BLOCKED_WAITPID)]
  }

  ghost function WaitedSpaces(ps: Table, spaces: set<nat>, p: nat): set<nat>
    requires p < PROCESSES_MAX
  {
    var k := FirstZombie(ps, p, 0);
    if k < MAX_CHILDREN then spaces - Spent(ps, ps[p].children[k].slot) else spaces
  }

  lemma ZombieKnown(ps: Table, spaces: set<nat>, p: nat, k: nat)
    requires Inv(ps, spaces) && Live(ps, p)
    ensures ZombieChild(ps, p, k) <==> HasChild(ps, p, k) && ps[k].state == ZOMBIE
    ensures ZombieChild(ps, p, k) ==> ps[p].children[k] == Slot(k) && Live(ps, k)
  {
    assert ChildKnown(ps, p, k);
  }

  lemma WaitKeeps(ps: Table, spaces: set<nat>, p: nat)
    requires Inv(ps, spaces) && Live(ps, p)
    ensures Inv(Waited(ps, p), WaitedSpaces(ps, spaces, p))
  {
    var k := FirstZombie(ps, p, 0);
    hide Inv, Terminated, Spent, ZombieChild;
    if k < MAX_CHILDREN {
      ZombieKnown(ps, spaces, p, k);
      TerminationKeeps(ps, spaces, k);
    } else {
      forall j: nat | HasChild(ps, p, j) ensures ps[j].state != ZOMBIE {
        ZombieKnown(ps, spaces, p, j);
      }
      StateChangeKeeps(ps, spaces, p, ps[p].(state := BLOCKED_WAITPID));
    }
  }

  // ------------------------------------------------------------------------------- fork

  /** The first free slot from i on, PROCESSES_MAX if there is none. */
  function FreeSlot(ps: Table, i: nat): (k: nat)
    requires i <= PROCESSES_MAX
    ensures i <= k <= PROCESSES_MAX && (k < PROCESSES_MAX ==> !Live(ps, k))
    ensures forall j | i <= j < k :: Live(ps, j)
    decreases PROCESSES_MAX - i
  {
    if i == PROCESSES_MAX || !ps[i].initialized then i else FreeSlot(ps, i + 1)
  }

  /** A copy of p in slot c with the address space pd; p finds the child's id in eax, the child 0. */
  function Forked(ps: Table, p: nat, c: nat, pd: nat): Table
    requires p < PROCESSES_MAX && c < PROCESSES_MAX
  {
    ps[c := Process(true, c, RUNNING, Slot(p), c, Empty().children, pd, 0, 0, map[])]
      [p := ps[p].(eax := c, children := ps[p].children[c := Slot(c)])]
  }

  lemma ForkKeeps(ps: Table, spaces: set<nat>, p: nat, c: nat, pd: nat)
    requires Inv(ps, spaces) && Live(ps, p) && c < PROCESSES_MAX && !Live(ps, c) && pd !in spaces
    ensures Inv(Forked(ps, p, c, pd), spaces + {pd})
  {
    var ps' := Forked(ps, p, c, pd);
    ForkedSpaces(ps, spaces, p, c, pd);
    ForkedForest(ps, spaces, p, c, pd);
    forall i ensures WellPlaced(ps', i) {
      assert WellPlaced(ps, i);
    }
    forall o, k ensures ChildKnown(ps', o, k) && NoneMissed(ps', o, k) {
      assert ChildKnown(ps, o, k) && NoneMissed(ps, o, k);
    }
  }

  lemma ForkedForest(ps: Table, spaces: set<nat>, p: nat, c: nat, pd: nat)
    requires Inv(ps, spaces) && Live(ps, p) && c < PROCESSES_MAX && !Live(ps, c)
    ensures Forest(Forked(ps, p, c, pd))
  {
    var ps' := Forked(ps, p, c, pd);
    var age :| Aged(ps, age);
    var age' := age[c := age[p] + 1];
    forall o: nat, k: nat | HasChild(ps', o, k) && k < PROCESSES_MAX ensures age'[o] < age'[k] {
      assert ChildKnown(ps, o, k);
    }
    assert Aged(ps', age');
  }

  lemma ForkedSpaces(ps: Table, spaces: set<nat>, p: nat, c: nat, pd: nat)
    requires Inv(ps, spaces) && Live(ps, p) && c < PROCESSES_MAX && !Live(ps, c) && pd !in spaces
    ensures Spaces(Forked(ps, p, c, pd), spaces + {pd})
  {
    var ps' := Forked(ps, p, c, pd);
    hide WellPlaced, ChildKnown, NoneMissed, Forest;
    assert forall i: nat :: Live(ps', i) <==> Live(ps, i) || i == c;
    assert forall i: nat | Live(ps, i) :: ps'[i].pd == ps[i].pd;
    assert ps'[c].pd == pd;
    hide Forked;
    OneMoreSpace(ps, ps', spaces, c, pd);
  }

  lemma OneMoreSpace(ps: Table, ps': Table, spaces: set<nat>, c: nat, pd: nat)
    requires Spaces(ps, spaces) && c < PROCESSES_MAX && !Live(ps, c) && pd !in spaces
    requires (forall i: nat :: Live(ps', i) <==> Live(ps, i) || i == c) && ps'[c].pd == pd
    requires forall i: nat | Live(ps, i) :: ps'[i].pd == ps[i].pd
    ensures Spaces(ps', spaces + {pd})
  {
    assert Live(ps', c);
    forall d | d in spaces ensures exists i: nat :: Live(ps', i) && ps'[i].pd == d {
      var i: nat :| Live(ps, i) && ps[i].pd == d;
      assert Live(ps', i);
    }
  }

  /** What fork gives: a process in a slot that was free, the lowest one; the parent is told its id, the
      child 0; the child runs, is listed by its parent, and has the new address space. Nobody else
      changes. */
  lemma ForkAnswers(ps: Table, spaces: set<nat>, p: nat, pd: nat)
    requires Inv(ps, spaces) && Enabled(ps, spaces, Fork(p, pd))
    ensures var (ps', spaces') := After(ps, spaces, Fork(p, pd));
            exists c: nat :: c < PROCESSES_MAX && !Live(ps, c) && (forall i: nat | i < c :: Live(ps, i)) && Live(ps', c) &&
              ps'[p].eax == c && ps'[c].eax == 0 && ps'[c].id == c && ps'[c].state == RUNNING && ps'[p].state == RUNNING &&
              ps'[p].children[c] == Slot(c) && ps'[c].parent == Slot(p) && ps'[c].pd == pd &&
              (forall k: nat | k < MAX_CHILDREN :: ps'[c].children[k] == Null) &&
              forall i | 0 <= i < PROCESSES_MAX && i != c && i != p :: ps'[i] == ps[i]
  {
    FreeSlotFirst(ps, 0);
    var c := FreeSlot(ps, 0);
    assert Live(After(ps, spaces, Fork(p, pd)).0, c);
  }

  lemma {:induction false} FreeSlotFirst(ps: Table, from: nat)
    requires from <= PROCESSES_MAX && FreeSlot(ps, from) < PROCESSES_MAX
    ensures from <= FreeSlot(ps, from) && !Live(ps, FreeSlot(ps, from)) && forall i: nat | from <= i < FreeSlot(ps, from) :: Live(ps, i)
    decreases PROCESSES_MAX - from
  {
    if from < PROCESSES_MAX && ps[from].initialized {
      FreeSlotFirst(ps, from + 1);
    }
  }

  /** forkProcess's test for a free child entry never fails: nobody is its own child. */
  lemma RoomForChild(ps: Table, spaces: set<nat>, p: nat)
    requires Inv(ps, spaces) && Live(ps, p)
    ensures ps[p].children[p] == Null
  {
    assert ChildKnown(ps, p, p) && WellPlaced(ps, p);
  }

  // --------------------------------------------------------------------------- keyboard

  /** What handleKeyboardBlock does with the character c for one process. */
  function Typed(p: Process, c: char): Process {
    if p.initialized && p.state == BLOCKED_KEYBOARD then
      p.(requested := if p.requested > 0 then p.requested - 1 else 0xFFFF_FFFF, eax := p.eax + 1, buf := p.buf[p.eax := c],
         state := if p.requested == 1 then RUNNING else BLOCKED_KEYBOARD)
    else p
  }

  function TypedTo(ps: Table, n: nat, c: char): Table {
    seq(PROCESSES_MAX, i requires 0 <= i < PROCESSES_MAX => if i < n then Typed(ps[i], c) else ps[i])
  }

  lemma TypedOne(ps: Table, n: nat, c: char)
    requires n < PROCESSES_MAX
    ensures TypedTo(ps, n + 1, c) == TypedTo(ps, n, c)[n := Typed(ps[n], c)] && TypedTo(ps, n, c)[n] == ps[n]
    ensures TypedTo(ps, 0, c) == ps
  {
  }

  lemma {:induction false} TypingKeeps(ps: Table, spaces: set<nat>, n: nat, c: char)
    requires Inv(ps, spaces) && n <= PROCESSES_MAX
    ensures Inv(TypedTo(ps, n, c), spaces)
  {
    if n == 0 {
      TypedOne(ps, 0, c);
    } else {
      TypingKeeps(ps, spaces, n - 1, c);
      TypedOne(ps, n - 1, c);
      var before := TypedTo(ps, n - 1, c);
      hide TypedTo;
      assert before[n - 1 := before[n - 1]] == before;
      if ps[n - 1].initialized && ps[n - 1].state == BLOCKED_KEYBOARD {
        assert WellPlaced(before, n - 1);
        StateChangeKeeps(before, spaces, n - 1, Typed(ps[n - 1], c));
      }
    }
  }

  /** SYS_read with too little in the buffer: left characters are waited for. */
  function Reading(ps: Table, p: nat, left: nat): Table
    requires p < PROCESSES_MAX
  {
    ps[p := ps[p].(state := BLOCKED_KEYBOARD, requested := left, eax := 0, buf := map[])]
  }

  // ------------------------------------------------------------------------------- runs

  /** What can happen: system calls of a running process p, and key presses. */
  datatype Event = Fork(p: nat, pd: nat) | Exit(p: nat) | Waitpid(p: nat) | Read(p: nat, left: nat) | Key(c: char)

  ghost predicate Enabled(ps: Table, spaces: set<nat>, e: Event) {
    match e
    case Fork(p, pd) => Live(ps, p) && ps[p].state == RUNNING && pd !in spaces && FreeSlot(ps, 0) < PROCESSES_MAX
    case Exit(p) => Live(ps, p) && ps[p].state == RUNNING && (ps[p].parent.Slot? ==> ps[p].parent.slot < PROCESSES_MAX)
    case Waitpid(p) => Live(ps, p) && ps[p].state == RUNNING
    case Read(p, left) => Live(ps, p) && ps[p].state == RUNNING && left > 0
    case Key(_) => true
  }

  ghost function After(ps: Table, spaces: set<nat>, e: Event): (Table, set<nat>)
    requires Enabled(ps, spaces, e)
  {
    match e
    case Fork(p, pd) => (Forked(ps, p, FreeSlot(ps, 0), pd), spaces + {pd})
    case Exit(p) => (Exited(ps, p), ExitedSpaces(ps, spaces, p))
    case Waitpid(p) => (Waited(ps, p), WaitedSpaces(ps, spaces, p))
    case Read(p, left) => (Reading(ps, p, left), spaces)
    case Key(c) => (TypedTo(ps, PROCESSES_MAX, c), spaces)
  }

  lemma StepKeeps(ps: Table, spaces: set<nat>, e: Event)
    requires Inv(ps, spaces) && Enabled(ps, spaces, e)
    ensures Inv(After(ps, spaces, e).0, After(ps, spaces, e).1)
  {
    hide Inv, Forked, Exited, ExitedSpaces, Waited, WaitedSpaces, TypedTo;
    match e
    case Fork(p, pd) => ForkKeeps(ps, spaces, p, FreeSlot(ps, 0), pd);
    case Exit(p) => ExitKeeps(ps, spaces, p);
    case Waitpid(p) => WaitKeeps(ps, spaces, p);
    case Read(p, left) => StateChangeKeeps(ps, spaces, p, Reading(ps, p, left)[p]);
    case Key(c) => TypingKeeps(ps, spaces, PROCESSES_MAX, c);
  }

  /** (ps', spaces') can be reached from (ps, spaces) by the events es. */
  ghost predicate Reaches(ps: Table, spaces: set<nat>, es: seq<Event>, ps': Table, spaces': set<nat>)
    decreases |es|
  {
    if es == [] then ps' == ps && spaces' == spaces
    else Enabled(ps, spaces, es[0]) &&
         var (ps1, spaces1) := After(ps, spaces, es[0]);
         Reaches(ps1, spaces1, es[1..], ps', spaces')
  }

  /** Whatever the order of forks, exits, waits, reads and key presses. */
  lemma {:induction false} RunKeeps(ps: Table, spaces: set<nat>, es: seq<Event>, ps': Table, spaces': set<nat>)
    requires Inv(ps, spaces) && Reaches(ps, spaces, es, ps', spaces')
    ensures Inv(ps', spaces')
    decreases |es|
  {
    if es != [] {
      hide Inv, After;
      StepKeeps(ps, spaces, es[0]);
      var (ps1, spaces1) := After(ps, spaces, es[0]);
      RunKeeps(ps1, spaces1, es[1..], ps', spaces');
    }
  }

  /** In every run from the first process on: a waiting process has no zombie child, a child entry
      leads to the live process of that slot and back, and address spaces are those of the live
      processes, one each: no process is freed twice, and none is forgotten. */
  lemma EveryRun(pd: nat, es: seq<Event>, ps: Table, spaces: set<nat>, p: nat, k: nat)
    requires Reaches(FirstProcess(pd), {pd}, es, ps, spaces) && Live(ps, p)
    ensures HasChild(ps, p, k) ==> ps[p].children[k] == Slot(k) && Live(ps, k) && ps[k].parent == Slot(p)
    ensures HasChild(ps, p, k) && ps[p].state == BLOCKED_WAITPID ==> ps[k].state != ZOMBIE
    ensures Live(ps, k) && k != p ==> ps[k].pd != ps[p].pd
    ensures HasChild(ps, p, k) ==> !HasChild(ps, k, p)
    ensures forall d :: d in spaces <==> exists i: nat :: Live(ps, i) && ps[i].pd == d
  {
    FirstProcessKeeps(pd);
    RunKeeps(FirstProcess(pd), {pd}, es, ps, spaces);
    assert ChildKnown(ps, p, k) && NoneMissed(ps, p, k);
    var age :| Aged(ps, age);
  }

  /** The table with one process, in slot 0 and without a parent. */
  function FirstProcess(pd: nat): Table {
    seq(PROCESSES_MAX, i => FirstSlot(i, pd))
  }

  function FirstSlot(i: int, pd: nat): (p: Process)
    ensures |p.children| == MAX_CHILDREN
  {
    if i == 0 then Empty().(initialized := true, pd := pd) else Empty()
  }

  lemma FirstProcessKeeps(pd: nat)
    ensures Inv(FirstProcess(pd), {pd})
  {
    var ps := FirstProcess(pd);
    assert forall i | 0 <= i < PROCESSES_MAX :: ps[i] == FirstSlot(i, pd);
    assert Live(ps, 0) && forall i: nat :: Live(ps, i) <==> i == 0;
    assert forall p: nat, k: nat :: !HasChild(ps, p, k);
    assert Aged(ps, seq(PROCESSES_MAX, i => 0));
  }

  // ------------------------------------------------------------------------- rendezvous

  /** A running parent with a running child, and no zombie. */
  ghost predicate Family(ps: Table, p: nat, k: nat) {
    HasChild(ps, p, k) && k < PROCESSES_MAX && ps[p].state == RUNNING && ps[k].state == RUNNING && FirstZombie(ps, p, 0) == MAX_CHILDREN
  }

  /** What holds after child k has exited and p has waited for it: k is gone and forgotten, and p
      runs. */
  ghost predicate Reaped(ps: Table, ps': Table, p: nat, k: nat) {
    k < PROCESSES_MAX && Live(ps', p) && ps'[p].state == RUNNING && ps'[p].children == ps[p].children[k := Null] &&
    forall i: nat :: Live(ps', i) <==> Live(ps, i) && !Stops(ps, k, i)
  }

  /** p is not among the children of its child k. */
  lemma NotOwnGrandparent(ps: Table, spaces: set<nat>, p: nat, k: nat)
    requires Inv(ps, spaces) && HasChild(ps, p, k)
    ensures !Stops(ps, k, p)
  {
    assert ChildKnown(ps, p, k) && WellPlaced(ps, k);
    var age :| Aged(ps, age);
    assert HasChild(ps, k, p) ==> false;
    NoChildNoStop(ps, spaces, k, p);
  }

  lemma NoChildNoStop(ps: Table, spaces: set<nat>, k: nat, p: nat)
    requires Inv(ps, spaces) && Live(ps, k) && !HasChild(ps, k, p) && k != p
    ensures !Stops(ps, k, p)
  {
    if Stops(ps, k, p) {
      StopsChildren(ps, spaces, k, p);
    }
  }

  lemma FamilyFacts(ps: Table, spaces: set<nat>, p: nat, k: nat)
    requires Inv(ps, spaces) && Family(ps, p, k)
    ensures Live(ps, k) && ps[k].parent == Slot(p) && p != k && ps[k].id == k && ps[k].indexInParent == k && !Stops(ps, k, p)
  {
    assert ChildKnown(ps, p, k) && WellPlaced(ps, k);
    NotOwnGrandparent(ps, spaces, p, k);
  }

  /** The parent waits first: the exit of the child wakes it up with the child's id. */
  lemma WaitThenExit(ps: Table, spaces: set<nat>, p: nat, k: nat)
    requires Inv(ps, spaces) && Family(ps, p, k)
    ensures Live(ps, k) && ps[k].parent == Slot(p) == Waited(ps, p)[k].parent
    ensures Reaped(ps, Exited(Waited(ps, p), k), p, k) && Exited(Waited(ps, p), k)[p].eax == k
  {
    FamilyFacts(ps, spaces, p, k);
    hide Inv, Spent, Stopped, FirstZombie;
    var ps1 := Woken(Waited(ps, p), p, k);
    assert ps1[p].children == ps[p].children && ps1[k] == ps[k] && forall i: nat :: Stops(ps1, k, i) <==> Stops(ps, k, i);
    TerminationIs(ps1, k, p);
  }

  /** The child exits first: the parent finds the zombie and does not wait. It is not told the child's
      id: eax stays as it was. */
  lemma ExitThenWait(ps: Table, spaces: set<nat>, p: nat, k: nat)
    requires Inv(ps, spaces) && Family(ps, p, k)
    ensures Live(ps, k) && ps[k].parent == Slot(p) && p < PROCESSES_MAX
    ensures Reaped(ps, Waited(Exited(ps, k), p), p, k) && Waited(Exited(ps, k), p)[p].eax == ps[p].eax
  {
    FamilyFacts(ps, spaces, p, k);
    hide Inv, Spent, Stopped, ZombieChild, Stops, FirstZombie, Terminated;
    var ps1 := ps[k := ps[k].(state := ZOMBIE)];
    forall j: nat | j < MAX_CHILDREN ensures ZombieChild(ps1, p, j) <==> j == k {
      OnlyZombie(ps, spaces, p, k, j);
    }
    FirstIs(ps1, p, k);
    ChildSlot(ps, spaces, p, k);
    ZombieReaped(ps, ps1, p, k);
  }

  lemma ZombieReaped(ps: Table, ps1: Table, p: nat, k: nat)
    requires k < PROCESSES_MAX && p < PROCESSES_MAX && k != p && ps1 == ps[k := ps[k].(state := ZOMBIE)] && FirstZombie(ps1, p, 0) == k
    requires ps[k].parent == Slot(p) && ps[k].indexInParent == k && !Stops(ps, k, p) && ps[p].children[k] == Slot(k)
    requires Live(ps, p) && ps[p].state == RUNNING
    ensures Reaped(ps, Waited(Exited(ps, k), p), p, k) && Waited(Exited(ps, k), p)[p].eax == ps[p].eax
  {
    assert forall i: nat :: Stops(ps1, k, i) <==> Stops(ps, k, i);
    TerminationIs(ps1, k, p);
    hide Stopped, Terminated, FirstZombie, Stops;
  }

  lemma OnlyZombie(ps: Table, spaces: set<nat>, p: nat, k: nat, j: nat)
    requires Inv(ps, spaces) && Family(ps, p, k) && j < MAX_CHILDREN
    ensures ZombieChild(ps[k := ps[k].(state := ZOMBIE)], p, j) <==> j == k
  {
    assert ChildKnown(ps, p, j) && ChildKnown(ps, p, k) && WellPlaced(ps, k);
    assert !ZombieChild(ps, p, j);
  }

  lemma FirstIs(ps: Table, p: nat, k: nat)
    requires k < MAX_CHILDREN && forall j: nat | j < MAX_CHILDREN :: ZombieChild(ps, p, j) <==> j == k
    ensures FirstZombie(ps, p, 0) == k
  {
    assert ZombieChild(ps, p, k);
  }

  lemma ChildSlot(ps: Table, spaces: set<nat>, p: nat, k: nat)
    requires Inv(ps, spaces) && HasChild(ps, p, k)
    ensures ps[p].children[k] == Slot(k)
  {
    assert ChildKnown(ps, p, k);
  }

  lemma TerminationIs(ps: Table, k: nat, p: nat)
    requires k < PROCESSES_MAX && p < PROCESSES_MAX && ps[k].parent == Slot(p) && ps[k].indexInParent == k && !Stops(ps, k, p)
    ensures forall i: nat :: Live(Terminated(ps, k), i) <==> Live(ps, i) && !Stops(ps, k, i)
    ensures Terminated(ps, k)[p] == ps[p].(children := ps[p].children[k := Null])
  {
    assert forall i | 0 <= i < PROCESSES_MAX :: Terminated(ps, k)[i] == Stopped(ps, k, i);
  }
}
