/** The process table of kernel/src/usermode.c with the functions that change it in place. */
module Processes {
  import opened ProcessTable
  import opened Scheduling

  class ProcessControl {
    const processes: array<Process>
    var currentProcessID: nat
    ghost var spaces: set<nat>          // the address spaces that exist

    ghost predicate Shaped()
      reads this, processes
    {
      processes.Length == PROCESSES_MAX && forall i | 0 <= i < PROCESSES_MAX :: |processes[i].children| == MAX_CHILDREN
    }

    ghost function Contents(): (ps: Table)
      reads this, processes
      requires Shaped()
    {
      processes[..]
    }

    ghost predicate Valid()
      reads this, processes
    {
      Shaped() && Inv(Contents(), spaces)
    }

    /** One process, without a parent. */
    constructor (pd: nat)
      ensures Valid() && fresh(processes) && Contents() == FirstProcess(pd) && spaces == {pd} && currentProcessID == 0
    {
      processes := new Process[PROCESSES_MAX](i => FirstSlot(i, pd));
      currentProcessID := 0;
      spaces := {pd};
      new;
      FirstProcessKeeps(pd);
      assert processes[..] == FirstProcess(pd);
    }

    /** freeProcessPagedirectory: only for an address space that is still there. */
    ghost method FreeSpace(pd: nat)
      requires pd in spaces
      modifies this`spaces
      ensures spaces == old(spaces) - {pd}
    {
      spaces := spaces - {pd};
    }

    /** terminateProcess: the process and its children go, each with its address space. */
    method TerminateProcess(k: nat)
      requires Valid() && Live(Contents(), k)
      modifies this`spaces, processes
      ensures Valid() && Contents() == Terminated(old(Contents()), k) && spaces == old(spaces) - Spent(old(Contents()), k)
    {
      ghost var ps, all := Contents(), spaces;
      hide Inv, Stopped, Spent, Shrinking, Terminated;
      TerminationKeeps(ps, all, k);
      Detach(k);
      for i := 0 to MAX_CHILDREN
        invariant Shrinking(ps, all, k, i, processes[..], spaces)
      {
        StopChild(k, i, ps, all);
      }
      ShrinkEnd(ps, all, k, processes[..], spaces);
      FreeSpace(processes[k].pd);
    }

    /** The loop of terminateProcess, for child entry i. */
    method StopChild(k: nat, i: nat, ghost ps: Table, ghost all: set<nat>)
      requires Inv(ps, all) && Live(ps, k) && i < MAX_CHILDREN && Shrinking(ps, all, k, i, processes[..], spaces)
      modifies this`spaces, processes
      ensures Shrinking(ps, all, k, i + 1, processes[..], spaces)
    {
      hide Inv, Shrinking;
      ShrinkStep(ps, all, k, i, processes[..], spaces);
      if processes[k].children[i].Slot? {
        var child := processes[k].children[i].slot;
        ghost var next := processes[..][child := processes[child].(initialized := false)];
        processes[child] := processes[child].(initialized := false);
        FreeSpace(processes[child].pd);
        assert processes[..] == next;
      }
    }

    /** The beginning of terminateProcess: the process is not live any more, and its parent forgets it. */
    method Detach(k: nat)
      requires Valid() && Live(Contents(), k)
      modifies processes
      ensures Shrinking(old(Contents()), spaces, k, 0, processes[..], spaces)
    {
      ghost var ps := Contents();
      hide Inv, Shrinking;
      ParentIndex(ps, spaces, k);
      processes[k] := processes[k].(initialized := false);
      if processes[k].parent.Slot? {
        var q := processes[k].parent.slot;
        processes[q] := processes[q].(children := processes[q].children[processes[k].indexInParent := Null]);
      }
      ShrinkStart(ps, spaces, k, processes[..], spaces);
    }

    /** handleWaitpid: the first zombie child is reaped; without one the process waits. */
    method HandleWaitpid(p: nat)
      requires Valid() && Live(Contents(), p)
      modifies this`spaces, processes
      ensures Valid() && Contents() == Waited(old(Contents()), p) && spaces == WaitedSpaces(old(Contents()), old(spaces), p)
    {
      ghost var ps := Contents();
      hide Inv, Terminated, Spent, ZombieChild;
      WaitKeeps(ps, spaces, p);
      for i := 0 to MAX_CHILDREN
        invariant Valid() && Contents() == ps && spaces == old(spaces)
        invariant FirstZombie(ps, p, 0) == FirstZombie(ps, p, i)
      {
        ChildInTable(ps, spaces, p, i);
        if processes[p].children[i] != Null && processes[processes[p].children[i].slot].state == ZOMBIE {
          TerminateProcess(processes[p].children[i].slot);
          return;
        }
      }
      processes[p] := processes[p].(state := BLOCKED_WAITPID);
      assert processes[..] == ps[p := ps[p].(state := BLOCKED_WAITPID)];
    }

    /** handleWaitpidBlock, which SYS_exit calls. */
    method HandleWaitpidBlock(k: nat)
      requires Valid() && Live(Contents(), k)
      modifies this`spaces, processes
      ensures old(processes[k]).parent.Slot? ==> old(processes[k]).parent.slot < PROCESSES_MAX
      ensures Valid() && Contents() == Exited(old(Contents()), k) && spaces == ExitedSpaces(old(Contents()), old(spaces), k)
    {
      ghost var ps := Contents();
      hide Inv, Terminated, Spent;
      ExitKeeps(ps, spaces, k);
      ParentPlace(ps, spaces, k);
      if processes[k].parent == Null {
        TerminateProcess(k);
        return;
      }
      var q := processes[k].parent.slot;
      if processes[q].state == BLOCKED_WAITPID {
        WakingKeeps(ps, spaces, q, k);
        processes[q] := processes[q].(state := RUNNING, eax := processes[k].id);
        assert processes[..] == Woken(ps, q, k);
        TerminateProcess(k);
      } else {
        processes[k] := processes[k].(state := ZOMBIE);
        assert processes[..] == ps[k := ps[k].(state := ZOMBIE)];
      }
    }

    /** forkProcess, as far as the table is concerned; pd is the address space that has been copied.
        ok is false where the source stops for good. The error of a full child table never occurs. */
    method ForkProcess(parent: nat, pd: nat) returns (ok: bool)
      requires Valid() && Live(Contents(), parent) && pd !in spaces
      modifies this`spaces, processes
      ensures ok <==> FreeSlot(old(Contents()), 0) < PROCESSES_MAX
      ensures ok ==> Valid() && Contents() == Forked(old(Contents()), parent, FreeSlot(old(Contents()), 0), pd) && spaces == old(spaces) + {pd}
      ensures !ok ==> Valid() && Contents() == old(Contents()) && spaces == old(spaces)
    {
      ghost var ps := Contents();
      hide Inv, FreeSlot, Forked;
      RoomForChild(ps, spaces, parent);
      var index := 0;
      while index < MAX_CHILDREN && processes[parent].children[index] != Null
        invariant processes[..] == ps && spaces == old(spaces)
        invariant index <= MAX_CHILDREN && forall j | 0 <= j < index :: ps[parent].children[j] != Null
      {
        index := index + 1;
      }
      if index == MAX_CHILDREN {
        assert false;
      }
      index := FindFree();
      if index == PROCESSES_MAX {
        return false;
      }
      ForkKeeps(ps, spaces, parent, index, pd);
      AddChild(parent, index, pd);
      spaces := spaces + {pd};
      ok := true;
    }

    /** The second search of forkProcess. */
    method FindFree() returns (index: nat)
      requires Shaped()
      ensures index == FreeSlot(Contents(), 0)
    {
      index := 0;
      while index < PROCESSES_MAX && processes[index].initialized
        invariant index <= PROCESSES_MAX && FreeSlot(Contents(), 0) == FreeSlot(Contents(), index)
      {
        index := index + 1;
      }
    }

    /** The assignments of forkProcess to the two processes. */
    method AddChild(parent: nat, index: nat, pd: nat)
      requires Shaped() && Live(Contents(), parent) && index < PROCESSES_MAX && !Live(Contents(), index)
      modifies processes
      ensures Shaped() && Contents() == Forked(old(Contents()), parent, index, pd)
    {
      ghost var ps := Contents();
      processes[index] := Process(true, index, RUNNING, Null, 0, seq(MAX_CHILDREN, i => Null), pd, 0, 0, map[]);
      processes[index] := processes[index].(parent := Slot(parent), indexInParent := index);
      processes[parent] := processes[parent].(children := processes[parent].children[index := Slot(index)]);
      processes[parent] := processes[parent].(eax := processes[index].id);
      processes[index] := processes[index].(eax := 0);
      assert processes[..] == Forked(ps, parent, index, pd);
    }

    /** handleKeyboardBlock: a character for every process that waits for one. */
    method HandleKeyboardBlock(c: char)
      requires Valid()
      modifies processes
      ensures Valid()
      ensures Contents() == if currentProcessID < PROCESSES_MAX && Live(old(Contents()), currentProcessID)
                          then TypedTo(old(Contents()), PROCESSES_MAX, c) else old(Contents())
    {
      ghost var ps := Contents();
      hide Inv, TypedTo, Typed;
      if currentProcessID >= PROCESSES_MAX || !processes[currentProcessID].initialized {
        return;
      }
      TypedOne(ps, 0, c);
      TypingKeeps(ps, spaces, PROCESSES_MAX, c);
      for i := 0 to PROCESSES_MAX
        invariant Shaped() && processes[..] == TypedTo(ps, i, c)
      {
        TypedOne(ps, i, c);
        TypeTo(i, c);
      }
    }

    /** The loop of handleKeyboardBlock, for slot i. */
    method TypeTo(i: nat, c: char)
      requires Shaped() && i < PROCESSES_MAX
      modifies processes
      ensures Shaped() && processes[..] == old(processes[..])[i := Typed(old(processes[i]), c)]
    {
      if processes[i].initialized && processes[i].state == BLOCKED_KEYBOARD {
        processes[i] := processes[i].(buf := processes[i].buf[processes[i].eax := c]);
        var requested := if processes[i].requested > 0 then processes[i].requested - 1 else 0xFFFF_FFFF;
        processes[i] := processes[i].(requested := requested);
        processes[i] := processes[i].(eax := processes[i].eax + 1);
        if requested == 0 {
          processes[i] := processes[i].(state := RUNNING);
        }
      }
    }

    /** findNextProcess, from any slot but the last one. ok is false if the kernel stops because there
        is no process to run at all. */
    method FindNextProcess() returns (ok: bool, next: nat)
      requires Shaped() && currentProcessID < PROCESSES_MAX - 1
      ensures ok ==> IsNext(Contents(), currentProcessID, next) && Live(Contents(), next)
      ensures ok <==> Live(Contents(), currentProcessID) || exists i: nat :: Runnable(Contents(), i)
    {
      var cur := currentProcessID;
      ghost var ps := Contents();
      var i, found := cur + 1, false;
      ghost var d: nat := 1;
      while true
        invariant 1 <= d <= PROCESSES_MAX && i < PROCESSES_MAX && i == SlotAfter(cur, d) && (d < PROCESSES_MAX <==> i != cur)
        invariant d < PROCESSES_MAX
        invariant forall e: nat | 1 <= e < d :: !Runnable(ps, SlotAfter(cur, e))
        decreases PROCESSES_MAX - d
      {
        if processes[i].initialized && processes[i].state == RUNNING {
          assert Distance(cur, i) == d;
          return true, i;
        }
        i := i + 1;
        if i >= PROCESSES_MAX {
          i := 0;
        }
        d := d + 1;
        if i == cur {
          break;
        }
      }
      next := cur;
      ok := processes[cur].initialized;
      forall j: nat ensures Runnable(ps, j) ==> j == cur {
        OnlyCurrent(ps, cur, j);
      }
    }

    /** switchProcess. */
    method SwitchProcess() returns (ok: bool)
      requires Shaped() && currentProcessID < PROCESSES_MAX - 1
      modifies this`currentProcessID
      ensures ok ==> IsNext(Contents(), old(currentProcessID), currentProcessID)
      ensures !ok ==> currentProcessID == old(currentProcessID)
    {
      var next;
      ok, next := FindNextProcess();
      if ok {
        currentProcessID := next;
      }
    }
  }

  lemma ParentIndex(ps: Table, spaces: set<nat>, k: nat)
    requires Inv(ps, spaces) && Live(ps, k)
    ensures ps[k].parent.Slot? ==> ps[k].parent.slot < PROCESSES_MAX && ps[k].parent.slot != k && ps[k].indexInParent == k
  {
    assert WellPlaced(ps, k);
  }

  lemma ChildInTable(ps: Table, spaces: set<nat>, p: nat, k: nat)
    requires Inv(ps, spaces) && Live(ps, p) && k < MAX_CHILDREN
    ensures ps[p].children[k] != Null ==> ps[p].children[k] == Slot(k) && Live(ps, k)
    ensures ZombieChild(ps, p, k) <==> ps[p].children[k] != Null && ps[k].state == ZOMBIE
  {
    assert ChildKnown(ps, p, k);
  }

  // -------------------------------------------------------------- the loop of terminateProcess

  /** k and its first n children have been stopped, and their address spaces but k's freed. */
  ghost predicate Shrinking(ps: Table, all: set<nat>, k: nat, n: nat, ps': seq<Process>, spaces: set<nat>) {
    |ps'| == PROCESSES_MAX && k < PROCESSES_MAX && n <= MAX_CHILDREN &&
    (forall i | 0 <= i < PROCESSES_MAX :: ps'[i] == if i < n || i == k || !Stops(ps, k, i) then Stopped(ps, k, i) else Stopped(ps, k, i).(initialized := true)) &&
    (forall d :: d in spaces <==> d in all && !exists i: nat :: i < n && i != k && Stops(ps, k, i) && ps[i].pd == d)
  }

  lemma ShrinkStart(ps: Table, all: set<nat>, k: nat, ps': seq<Process>, spaces: set<nat>)
    requires Inv(ps, all) && Live(ps, k) && |ps'| == PROCESSES_MAX && spaces == all
    requires forall i | 0 <= i < PROCESSES_MAX ::
               ps'[i] == var p := if i == k then ps[i].(initialized := false) else ps[i];
                         if ps[k].parent == Slot(i) then p.(children := p.children[k := Null]) else p
    ensures Shrinking(ps, all, k, 0, ps', spaces)
  {
    assert WellPlaced(ps, k);
    forall i | 0 <= i < PROCESSES_MAX && Stops(ps, k, i) ensures Live(ps, i) {
      StopsChildren(ps, all, k, i);
    }
  }

  /** What iteration n finds. */
  lemma ShrinkStep(ps: Table, all: set<nat>, k: nat, n: nat, ps': seq<Process>, spaces: set<nat>)
    requires Inv(ps, all) && Live(ps, k) && n < MAX_CHILDREN && Shrinking(ps, all, k, n, ps', spaces)
    ensures |ps'| == PROCESSES_MAX && |ps'[k].children| == MAX_CHILDREN
    ensures ps'[k].children[n].Slot? ==>
              ps'[k].children[n].slot == n && ps'[n].pd in spaces &&
              Shrinking(ps, all, k, n + 1, ps'[n := ps'[n].(initialized := false)], spaces - {ps'[n].pd})
    ensures !ps'[k].children[n].Slot? ==> Shrinking(ps, all, k, n + 1, ps', spaces)
  {
    assert ChildKnown(ps, k, n) && WellPlaced(ps, k);
    assert ps'[k].children == ps[k].children;
    if ps[k].children[n].Slot? {
      assert ps[k].children[n] == Slot(n) && Stops(ps, k, n);
      forall i: nat | i < n && Stops(ps, k, i) ensures ps[i].pd != ps[n].pd {
        StopsChildren(ps, all, k, i);
      }
    } else {
      NotStopped(ps, all, k, n);
    }
  }

  lemma NotStopped(ps: Table, all: set<nat>, k: nat, n: nat)
    requires Inv(ps, all) && Live(ps, k) && n < MAX_CHILDREN && ps[k].children[n] == Null
    ensures Stops(ps, k, n) ==> n == k
  {
    if Stops(ps, k, n) {
      StopsChildren(ps, all, k, n);
    }
  }

  lemma ShrinkEnd(ps: Table, all: set<nat>, k: nat, ps': seq<Process>, spaces: set<nat>)
    requires Inv(ps, all) && Live(ps, k) && Shrinking(ps, all, k, MAX_CHILDREN, ps', spaces)
    ensures |ps'| == PROCESSES_MAX && ps'[k].pd in spaces && ps' == Terminated(ps, k) && spaces - {ps'[k].pd} == all - Spent(ps, k)
  {
    forall i: nat | i < MAX_CHILDREN && i != k && Stops(ps, k, i) ensures ps[i].pd != ps[k].pd {
      StopsChildren(ps, all, k, i);
    }
    assert Stops(ps, k, k);
    forall d ensures d in spaces - {ps'[k].pd} <==> d in all - Spent(ps, k) {
      if d in Spent(ps, k) {
        var i: nat :| i < PROCESSES_MAX && Stops(ps, k, i) && ps[i].pd == d;
      }
    }
  }
}
