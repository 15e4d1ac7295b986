/** What a process gets that reads from the keyboard: the keys pressed after it has begun to wait, in
    order, as many as it has asked for; whatever the other processes do meanwhile.
 */
module Keyboard {
  import opened ProcessTable

  /** The characters of the key presses among the events. */
  function Keys(es: seq<Event>): seq<char> {
    if es == [] then [] else (if es[0].Key? then [es[0].c] else []) + Keys(es[1..])
  }

  /** p is there all along. */
  ghost predicate Survives(ps: Table, spaces: set<nat>, es: seq<Event>, p: nat)
    decreases |es|
  {
    Live(ps, p) && (es != [] ==> Enabled(ps, spaces, es[0]) && Survives(After(ps, spaces, es[0]).0, After(ps, spaces, es[0]).1, es[1..], p))
  }

  /** p waits for left characters more, and has got those in got. */
  ghost predicate Waits(ps: Table, p: nat, left: nat, got: seq<char>) {
    Live(ps, p) && ps[p].state == BLOCKED_KEYBOARD && ps[p].requested == left && Has(ps, p, got)
  }

  /** The characters got are in the buffer of p, and it is told how many. */
  ghost predicate Has(ps: Table, p: nat, got: seq<char>) {
    p < PROCESSES_MAX && ps[p].eax == |got| && forall i | 0 <= i < |got| :: i in ps[p].buf && ps[p].buf[i] == got[i]
  }

  /** A key goes to everyone who waits for keys, and to nobody else. */
  lemma KeyGoesTo(ps: Table, p: nat, c: char)
    requires p < PROCESSES_MAX
    ensures !(Live(ps, p) && ps[p].state == BLOCKED_KEYBOARD) ==> TypedTo(ps, PROCESSES_MAX, c)[p] == ps[p]
    ensures forall left: nat, got: seq<char> | Waits(ps, p, left, got) && left > 1 ::
              Waits(TypedTo(ps, PROCESSES_MAX, c), p, left - 1, got + [c])
    ensures forall got: seq<char> | Waits(ps, p, 1, got) ::
              Live(TypedTo(ps, PROCESSES_MAX, c), p) && TypedTo(ps, PROCESSES_MAX, c)[p].state == RUNNING &&
              Has(TypedTo(ps, PROCESSES_MAX, c), p, got + [c])
  {
  }

  /** What other processes do to one that waits for keys: they stop it, or leave it waiting. */
  lemma OthersLeave(ps: Table, spaces: set<nat>, e: Event, p: nat, left: nat, got: seq<char>)
    requires Waits(ps, p, left, got) && Enabled(ps, spaces, e) && !e.Key? && Live(After(ps, spaces, e).0, p)
    ensures Waits(After(ps, spaces, e).0, p, left, got)
  {
    match e
    case Fork(q, pd) => NotTheFree(ps, p, 0);
    case Exit(q) =>
    case Waitpid(q) =>
    case Read(q, n) =>
  }

  lemma {:induction false} NotTheFree(ps: Table, p: nat, c: nat)
    requires Live(ps, p) && c <= PROCESSES_MAX
    ensures FreeSlot(ps, c) != p
    decreases PROCESSES_MAX - c
  {
    if c < PROCESSES_MAX && ps[c].initialized {
      NotTheFree(ps, p, c + 1);
    }
  }

  /** However keys and other events mix: with fewer keys than are asked for, p goes on waiting for the
      rest; with the last one it runs again. In its buffer are exactly the keys that were pressed. */
  lemma {:induction false} KeysArrive(ps: Table, spaces: set<nat>, es: seq<Event>, ps': Table, spaces': set<nat>, p: nat, left: nat, got: seq<char>)
    requires Waits(ps, p, left, got) && left > 0 && Reaches(ps, spaces, es, ps', spaces') && Survives(ps, spaces, es, p)
    ensures |Keys(es)| < left ==> Waits(ps', p, left - |Keys(es)|, got + Keys(es))
    ensures |Keys(es)| == left && es != [] && es[|es| - 1].Key? ==>
              Live(ps', p) && ps'[p].state == RUNNING && Has(ps', p, got + Keys(es))
    decreases |es|
  {
    hide Waits, Has, After, TypedTo;
    if es == [] {
      assert got + Keys(es) == got;
    } else {
      var e, rest := es[0], es[1..];
      var (ps1, spaces1) := After(ps, spaces, e);
      assert Live(ps1, p);
      if !e.Key? {
        OthersLeave(ps, spaces, e, p, left, got);
        assert Keys(es) == Keys(rest);
        KeysArrive(ps1, spaces1, rest, ps', spaces', p, left, got);
        assert rest != [] ==> rest[|rest| - 1] == es[|es| - 1];
      } else {
        KeyAfter(ps, spaces, e, p);
        assert (got + [e.c]) + Keys(rest) == got + Keys(es);
        if left > 1 {
          KeysArrive(ps1, spaces1, rest, ps', spaces', p, left - 1, got + [e.c]);
          assert rest != [] ==> rest[|rest| - 1] == es[|es| - 1];
        } else if |Keys(es)| == left && es[|es| - 1].Key? {
          if rest != [] {
            LastKey(rest);
          }
          assert got + [e.c] == got + Keys(es);
        }
      }
    }
  }

  lemma KeyAfter(ps: Table, spaces: set<nat>, e: Event, p: nat)
    requires e.Key? && Live(ps, p)
    ensures forall left: nat, got: seq<char> | Waits(ps, p, left, got) && left > 1 :: Waits(After(ps, spaces, e).0, p, left - 1, got + [e.c])
    ensures forall got: seq<char> | Waits(ps, p, 1, got) ::
              Live(After(ps, spaces, e).0, p) && After(ps, spaces, e).0[p].state == RUNNING && Has(After(ps, spaces, e).0, p, got + [e.c])
  {
    KeyGoesTo(ps, p, e.c);
    hide Waits, Has, TypedTo;
  }

  /** Events without keys do not end in a key. */
  lemma {:induction false} LastKey(es: seq<Event>)
    requires Keys(es) == [] && es != []
    ensures !es[|es| - 1].Key?
  {
    if |es| > 1 {
      LastKey(es[1..]);
    }
  }

  /** A read of n characters: nothing but the keys that follow decides what is read. */
  lemma ReadGets(ps: Table, spaces: set<nat>, es: seq<Event>, ps': Table, spaces': set<nat>, p: nat, n: nat)
    requires Enabled(ps, spaces, Read(p, n)) && Reaches(After(ps, spaces, Read(p, n)).0, spaces, es, ps', spaces')
    requires Survives(After(ps, spaces, Read(p, n)).0, spaces, es, p)
    ensures |Keys(es)| < n ==> ps'[p].state == BLOCKED_KEYBOARD && ps'[p].requested == n - |Keys(es)| && Has(ps', p, Keys(es))
    ensures |Keys(es)| == n && es != [] && es[|es| - 1].Key? ==> ps'[p].state == RUNNING && Has(ps', p, Keys(es))
  {
    var ps1 := After(ps, spaces, Read(p, n)).0;
    assert Waits(ps1, p, n, []);
    KeysArrive(ps1, spaces, es, ps', spaces', p, n, []);
    assert [] + Keys(es) == Keys(es);
  }
}
