/** The round-robin choice of kernel/src/usermode.c (findNextProcess), and why it is fair. */
module Scheduling {
  import opened ProcessTable

  predicate Runnable(ps: Table, i: nat) {
    i < PROCESSES_MAX && ps[i].initialized && ps[i].state == RUNNING
  }

  /** The slot d places after cur, going round. */
  function SlotAfter(cur: nat, d: nat): (i: nat)
    requires cur < PROCESSES_MAX && d <= PROCESSES_MAX
    ensures i < PROCESSES_MAX && i == (cur + d) % PROCESSES_MAX
  {
    if cur + d < PROCESSES_MAX then cur + d else cur + d - PROCESSES_MAX
  }

  /** How far t lies after cur, going round; the whole way for cur itself. */
  function Distance(cur: nat, t: nat): (d: nat)
    requires cur < PROCESSES_MAX && t < PROCESSES_MAX
    ensures 1 <= d <= PROCESSES_MAX && SlotAfter(cur, d) == t
  {
    if t > cur then t - cur else t + PROCESSES_MAX - cur
  }

  /** next is the choice after cur: the nearest runnable slot, and cur itself if there is no other. */
  ghost predicate IsNext(ps: Table, cur: nat, next: nat) {
    cur < PROCESSES_MAX && next < PROCESSES_MAX &&
    (next != cur ==> Runnable(ps, next)) &&
    forall d: nat | 1 <= d < Distance(cur, next) :: !Runnable(ps, SlotAfter(cur, d))
  }

  /** There is only one choice. */
  lemma NextUnique(ps: Table, cur: nat, n: nat, m: nat)
    requires IsNext(ps, cur, n) && IsNext(ps, cur, m)
    ensures n == m
  {
    assert SlotAfter(cur, Distance(cur, n)) == n && SlotAfter(cur, Distance(cur, m)) == m;
  }

  /** Who has looked at all other slots in vain knows that nobody else is runnable. */
  lemma OnlyCurrent(ps: Table, cur: nat, j: nat)
    requires cur < PROCESSES_MAX && forall d: nat | 1 <= d < PROCESSES_MAX :: !Runnable(ps, SlotAfter(cur, d))
    ensures Runnable(ps, j) ==> j == cur
  {
    if j < PROCESSES_MAX {
      assert SlotAfter(cur, Distance(cur, j)) == j;
    }
  }

  /** A runnable process that is not chosen has come closer. */
  lemma Closer(ps: Table, cur: nat, next: nat, t: nat)
    requires IsNext(ps, cur, next) && Runnable(ps, t) && next != t
    ensures Distance(next, t) < Distance(cur, t)
  {
    assert SlotAfter(cur, Distance(cur, t)) == t;
    assert Distance(cur, next) < Distance(cur, t);
  }

  /** cur[i] is the current slot after i switches, tables[i] the table at switch i; between two
      switches anything may have happened to the other processes. From the last slot findNextProcess
      looks behind the table before it begins at slot 0: no process is taken to be found there. */
  ghost predicate Switches(tables: seq<Table>, cur: seq<nat>) {
    |cur| == |tables| + 1 && (forall i | 0 <= i < |cur| :: cur[i] < PROCESSES_MAX) &&
    forall i | 0 <= i < |tables| :: IsNext(tables[i], cur[i], cur[i + 1])
  }

  /** Nobody who stays runnable starves: t is chosen within Distance, so at most PROCESSES_MAX,
      switches, if nothing behind the table is taken for a process. */
  lemma {:induction false} NoStarvation(tables: seq<Table>, cur: seq<nat>, t: nat) returns (i: nat)
    requires Switches(tables, cur) && t < PROCESSES_MAX && |tables| >= Distance(cur[0], t)
    requires forall i | 0 <= i < |tables| :: Runnable(tables[i], t)
    ensures 1 <= i <= Distance(cur[0], t) <= PROCESSES_MAX && cur[i] == t
    decreases |tables|
  {
    if cur[1] == t {
      i := 1;
    } else {
      assert IsNext(tables[0], cur[0], cur[1]);
      Closer(tables[0], cur[0], cur[1], t);
      i := NoStarvation(tables[1..], cur[1..], t);
      i := i + 1;
    }
  }
}
