/**
 The sweep as a state machine over what the remote holds. A crash keeps only the closed packs, so
 safety is a statement about them; the invariant explains why every removal is allowed.
 */
module GcState {
  import opened Bytes
  import opened BPack

  type Name = nat                 // pack names; only freshness matters
  datatype Pack = Pack(es: seq<Entry>, size: nat)
  type Packs = map<Name, Pack>

  /** Whether a stored value really is the chunk its key names. */
  type Genuine = Entry -> bool

  /**
   `start`: the packs listed when the sweep began. `visited`: the marked keys. `packs`: the closed
   packs the remote holds now. `moved`: keys taken care of. `queue`: packs to remove after the next
   close. `done`: skipped packs and new packs already closed. `pending`: the values in the pack being
   written, which a crash would lose.
   */
  datatype Sweep = Sweep(start: Packs, visited: set<Key>, packs: Packs, moved: set<Key>,
                         queue: set<Name>, done: set<Name>, pending: seq<Entry>)

  /** Some closed pack holds a genuine value for `k`. */
  ghost predicate Held(good: Genuine, packs: Packs, k: Key) {
    exists n, e :: n in packs && e in packs[n].es && e.key == k && good(e)
  }

  /** Nothing marked has been lost. */
  ghost predicate Safe(good: Genuine, start: Packs, visited: set<Key>, packs: Packs) {
    forall k | k in visited && Held(good, start, k) :: Held(good, packs, k)
  }

  /** Values that belong in the result: marked, moved, genuine, one per key. */
  ghost predicate Clean(good: Genuine, s: Sweep, es: seq<Entry>) {
    Distinct(es) && forall e <- es :: e.key in s.visited && e.key in s.moved && good(e)
  }

  /** The marked keys of a pack are all taken care of. */
  ghost predicate Covered(s: Sweep, n: Name)
    requires n in s.start
  {
    Keys(s.start[n].es) * s.visited <= s.moved
  }

  ghost predicate Names(s: Sweep) {
    && s.done <= s.packs.Keys && s.packs.Keys <= s.start.Keys + s.done
    && s.queue <= s.start.Keys && s.queue !! s.done
    && forall n | n in s.start && n in s.packs :: s.packs[n] == s.start[n]
  }

  /** Result packs and the open pack are clean, and no two of them share a key. */
  ghost predicate Results(good: Genuine, s: Sweep)
    requires s.done <= s.packs.Keys
  {
    && Clean(good, s, s.pending)
    && (forall n <- s.done :: Clean(good, s, s.packs[n].es))
    && (forall n <- s.done :: Keys(s.packs[n].es) !! Keys(s.pending))
    && (forall n, m | n in s.done && m in s.done && n != m :: Keys(s.packs[n].es) !! Keys(s.packs[m].es))
  }

  /** Every moved key is in a result pack or in the open one. */
  ghost predicate Placed(s: Sweep)
    requires s.done <= s.packs.Keys
  {
    forall k <- s.moved :: k in Keys(s.pending) || exists n <- s.done :: k in Keys(s.packs[n].es)
  }

  /** What the packs already removed held is in closed packs, not in the open one. */
  ghost predicate Removed(s: Sweep) {
    && (forall n <- s.queue :: n in s.start && Covered(s, n))
    && (forall n <- s.start :: n !in s.packs ==> Covered(s, n) && Keys(s.start[n].es) * s.visited !! Keys(s.pending))
  }

  ghost predicate Inv(good: Genuine, s: Sweep) {
    Names(s) && Results(good, s) && Placed(s) && Removed(s)
  }

  // ---------------------------------------------------------------- safety

  lemma InvSafe(good: Genuine, s: Sweep)
    requires Inv(good, s)
    ensures Safe(good, s.start, s.visited, s.packs)
  {
    forall k | k in s.visited && Held(good, s.start, k) ensures Held(good, s.packs, k) {
      var n, e :| n in s.start && e in s.start[n].es && e.key == k && good(e);
      if n in s.packs {
        assert e in s.packs[n].es;
      } else {
        assert k in Keys(s.start[n].es) * s.visited;
        var m :| m in s.done && k in Keys(s.packs[m].es);
        var e' :| e' in s.packs[m].es && e'.key == k;
        assert good(e');
      }
    }
  }

  // ---------------------------------------------------------------- steps

  lemma InvStart(good: Genuine, start: Packs, visited: set<Key>)
    ensures Inv(good, Sweep(start, visited, start, {}, {}, {}, []))
  {
  }

  lemma CleanLater(good: Genuine, s: Sweep, t: Sweep, es: seq<Entry>)
    requires Clean(good, s, es) && s.visited == t.visited && s.moved <= t.moved
    ensures Clean(good, t, es) && Keys(es) <= s.moved
  {
    hide Distinct;
  }

  lemma CleanNew(good: Genuine, t: Sweep, es: seq<Entry>)
    requires Distinct(es) && forall e <- es :: e.key in t.visited && good(e)
    requires Keys(es) <= t.moved
    ensures Clean(good, t, es)
  {
    hide Distinct;
    forall e <- es ensures e.key in Keys(es) { }
  }

  lemma NoKeys(good: Genuine, t: Sweep)
    ensures Clean(good, t, []) && Keys([]) == {}
  {
  }

  lemma KeysApart(es: seq<Entry>, moved: set<Key>)
    requires forall e <- es :: e.key !in moved
    ensures Keys(es) !! moved
  {
  }

  /** Copy a value into the open pack. */
  lemma InvPut(good: Genuine, s: Sweep, e: Entry)
    requires Inv(good, s) && e.key in s.visited && e.key !in s.moved && good(e)
    ensures Inv(good, s.(pending := s.pending + [e], moved := s.moved + {e.key}))
  {
    var t := s.(pending := s.pending + [e], moved := s.moved + {e.key});
    KeysSnoc(s.pending, e);
    assert Clean(good, t, t.pending) by {
      forall i | 0 <= i < |s.pending| ensures s.pending[i].key != e.key { assert s.pending[i] in s.pending; }
    }
    forall n <- t.done ensures Keys(t.packs[n].es) !! Keys(t.pending) && Clean(good, t, t.packs[n].es) {
      assert Clean(good, s, s.packs[n].es);
    }
    forall k <- t.moved ensures k in Keys(t.pending) || exists n <- t.done :: k in Keys(t.packs[n].es) {
      if k in s.moved && k !in Keys(s.pending) { var n :| n in s.done && k in Keys(s.packs[n].es); }
    }
  }

  /** Skip a full pack whose keys are all marked and not yet moved: it becomes a result. */
  lemma InvSkip(good: Genuine, s: Sweep, n: Name)
    requires Inv(good, s) && n in s.packs && n in s.start && n !in s.queue && Distinct(s.start[n].es)
    requires forall e <- s.start[n].es :: e.key in s.visited && e.key !in s.moved && good(e)
    ensures Inv(good, s.(done := s.done + {n}, moved := s.moved + Keys(s.start[n].es)))
  {
    hide Clean, Distinct, Keys;
    var es := s.start[n].es;
    var t := s.(done := s.done + {n}, moved := s.moved + Keys(es));
    KeysApart(es, s.moved);
    CleanNew(good, t, es);
    CleanLater(good, s, t, s.pending);
    forall m <- t.done ensures Clean(good, t, t.packs[m].es) && (m in s.done ==> Keys(s.packs[m].es) <= s.moved) {
      if m in s.done { CleanLater(good, s, t, s.packs[m].es); }
    }
    forall k <- t.moved ensures k in Keys(t.pending) || exists m <- t.done :: k in Keys(t.packs[m].es) {
      if k in Keys(es) {
        assert n in t.done;
      } else if k !in Keys(s.pending) {
        var m :| m in s.done && k in Keys(s.packs[m].es);
        assert m in t.done;
      }
    }
  }

  /** The open pack is closed under a new name. */
  lemma InvClose(good: Genuine, s: Sweep, n: Name, size: nat)
    requires Inv(good, s) && n !in s.packs && n !in s.start
    ensures Inv(good, s.(packs := s.packs[n := Pack(s.pending, size)], done := s.done + {n}, pending := []))
  {
    hide Clean, Distinct, Keys;
    var t := s.(packs := s.packs[n := Pack(s.pending, size)], done := s.done + {n}, pending := []);
    NoKeys(good, t);
    CleanLater(good, s, t, s.pending);
    forall m <- t.done ensures Clean(good, t, t.packs[m].es) {
      if m != n { CleanLater(good, s, t, s.packs[m].es); }
    }
    forall k <- t.moved ensures k in Keys(t.pending) || exists m <- t.done :: k in Keys(t.packs[m].es) {
      if k in Keys(s.pending) {
        assert n in t.done && t.packs[n].es == s.pending;
      } else {
        var m :| m in s.done && k in Keys(s.packs[m].es);
        assert m in t.done && t.packs[m] == s.packs[m];
      }
    }
  }

  /** Remove a queued pack while no pack is open. */
  lemma InvRemove(good: Genuine, s: Sweep, n: Name)
    requires Inv(good, s) && n in s.queue && s.pending == []
    ensures Inv(good, s.(packs := s.packs - {n}))
  {
    var t := s.(packs := s.packs - {n});
    forall m <- t.done ensures m in t.packs && t.packs[m] == s.packs[m] && Clean(good, t, t.packs[m].es) {
      assert Clean(good, s, s.packs[m].es);
    }
    forall k <- t.moved ensures k in Keys(t.pending) || exists m <- t.done :: k in Keys(t.packs[m].es) {
      var m :| m in s.done && k in Keys(s.packs[m].es);
    }
  }

  /** All queued packs are gone. */
  lemma InvDrained(good: Genuine, s: Sweep)
    requires Inv(good, s)
    ensures Inv(good, s.(queue := {}))
  {
    var t := s.(queue := {});
    forall m <- t.done ensures Clean(good, t, t.packs[m].es) { assert Clean(good, s, s.packs[m].es); }
  }

  /** A pack all of whose marked keys have been moved may be removed after the next close. */
  lemma InvQueue(good: Genuine, s: Sweep, n: Name)
    requires Inv(good, s) && n in s.start && n !in s.done && Covered(s, n)
    ensures Inv(good, s.(queue := s.queue + {n}))
  {
    var t := s.(queue := s.queue + {n});
    forall m <- t.done ensures Clean(good, t, t.packs[m].es) { assert Clean(good, s, s.packs[m].es); }
  }

  // ---------------------------------------------------------------- the result

  /** Every marked key that was there is in exactly one pack, once, and nothing unmarked is left. */
  ghost predicate Collected(good: Genuine, start: Packs, visited: set<Key>, packs: Packs) {
    && (forall n <- packs :: Distinct(packs[n].es) && forall e <- packs[n].es :: e.key in visited && good(e))
    && (forall n, m | n in packs && m in packs && n != m :: Keys(packs[n].es) !! Keys(packs[m].es))
    && (forall n <- start :: forall e <- start[n].es ::
          e.key in visited ==> exists m <- packs :: e.key in Keys(packs[m].es))
  }

  lemma InvFinal(good: Genuine, s: Sweep)
    requires Inv(good, s) && s.pending == [] && s.packs.Keys == s.done
    requires forall n <- s.start :: Covered(s, n)
    ensures Collected(good, s.start, s.visited, s.packs)
  {
    forall n <- s.packs ensures Clean(good, s, s.packs[n].es) { }
    forall n, e | n in s.start && e in s.start[n].es && e.key in s.visited
      ensures exists m <- s.packs :: e.key in Keys(s.packs[m].es)
    {
      assert Covered(s, n) && e.key in Keys(s.start[n].es) * s.visited;
      var m :| m in s.done && e.key in Keys(s.packs[m].es);
      assert m in s.packs;
    }
  }
}
