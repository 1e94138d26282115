/**
 * The abstract behaviour of the tuner's memory (include/tuner_memory.h):
 * what `TunerMemory::addConfiguration` does to the stored configurations
 * and to the incumbent marker, written as functions on values, and the
 * properties those functions guarantee.
 */
module MemorySpec {
  import opened Values
  import opened Wrappers

  /** The parameter-name to value map of a configuration: its identity. */
  type Assignment = map<string, Value>

  /** One evaluated configuration, as handed to `addConfiguration`. */
  datatype Submission = Submission(assignment: Assignment, objective: real)

  /**
   * The state of a memory: the objective stored for each assignment (the
   * set holds at most one configuration per assignment, so a map keyed by
   * the assignment is the set), and the key of the incumbent, `None` for the
   * `end()` iterator.
   */
  datatype Store = Store(entries: map<Assignment, real>, best: Option<Assignment>)

  /** A freshly constructed memory: nothing stored, best is `end()`. */
  const Empty: Store := Store(map[], None)

  /** `k` is stored and its objective is no larger than any stored objective. */
  ghost predicate IsIncumbent(entries: map<Assignment, real>, k: Assignment)
  {
    k in entries && forall j :: j in entries ==> entries[k] <= entries[j]
  }

  /** The memory's invariant: best is absent iff nothing is stored, and otherwise names a minimum. */
  ghost predicate Inv(s: Store)
  {
    (s.best.None? <==> s.entries == map[]) &&
    (s.best.Some? ==> IsIncumbent(s.entries, s.best.value))
  }

  /** `k` is stored with the minimum of `o` and of its objective in `before`, if it had one. */
  ghost predicate HoldsMinimum(entries: map<Assignment, real>, before: map<Assignment, real>, k: Assignment, o: real)
  {
    k in entries &&
    entries[k] <= o &&
    (k in before ==> entries[k] <= before[k]) &&
    (entries[k] == o || (k in before && entries[k] == before[k]))
  }

  /**
   * The effect of `addConfiguration` with an evaluated configuration: insert
   * it if its assignment is new; otherwise replace the stored entry when the
   * new objective is strictly lower. Then the incumbent moves to the added
   * key if there was none or the new objective is strictly lower than the
   * incumbent's (read after the update, as the source does).
   */
  function Insert(s: Store, c: Submission): (r: Store)
    requires s.best.Some? ==> s.best.value in s.entries
    ensures r.entries.Keys == s.entries.Keys + {c.assignment}
    ensures HoldsMinimum(r.entries, s.entries, c.assignment, c.objective)
    ensures forall j :: j in s.entries && j != c.assignment ==> r.entries[j] == s.entries[j]
    ensures s.best.None? || c.objective < s.entries[s.best.value] ==> r.best == Some(c.assignment)
    ensures s.best.Some? && c.objective >= s.entries[s.best.value] ==> r.best == s.best
    ensures r.best.Some? && r.best.value in r.entries
  {
    var k := c.assignment;
    var entries :=
      if k !in s.entries then s.entries[k := c.objective]
      else if c.objective < s.entries[k] then (s.entries - {k})[k := c.objective]
      else s.entries;
    var best :=
      if s.best.None? || c.objective < entries[s.best.value] then Some(k) else s.best;
    Store(entries, best)
  }

  /** Every addition keeps the invariant. */
  lemma InsertPreservesInv(s: Store, c: Submission)
    requires Inv(s)
    ensures Inv(Insert(s, c))
  {
  }

  /**
   * A duplicate whose objective is not strictly lower than the stored one
   * leaves the memory as it was: neither the entry nor the incumbent changes.
   */
  lemma DuplicateNoBetterIsNoOp(s: Store, c: Submission)
    requires Inv(s)
    requires c.assignment in s.entries && s.entries[c.assignment] <= c.objective
    ensures Insert(s, c) == s
  {
  }

  /** The memory after submitting `h` in order to a fresh one. */
  function Replay(h: seq<Submission>): (s: Store)
    ensures s.best.Some? ==> s.best.value in s.entries
    ensures h != [] ==> s.best.Some?
  {
    if h == [] then Empty else Insert(Replay(h[..|h| - 1]), h[|h| - 1])
  }

  /** Whatever was submitted, the memory satisfies its invariant. */
  lemma {:induction false} ReplayInv(h: seq<Submission>)
    ensures Inv(Replay(h))
  {
    if h != [] {
      ReplayInv(h[..|h| - 1]);
      InsertPreservesInv(Replay(h[..|h| - 1]), h[|h| - 1]);
    }
  }

  /**
   * A key is stored iff it was submitted, and its stored objective is the
   * minimum of the objectives submitted for it: one of them, and no larger
   * than any of them.
   */
  lemma {:induction false} ReplayHoldsMinimum(h: seq<Submission>, k: Assignment)
    ensures k in Replay(h).entries <==> exists i :: 0 <= i < |h| && h[i].assignment == k
    ensures k in Replay(h).entries ==>
      (exists i :: 0 <= i < |h| && h[i].assignment == k && h[i].objective == Replay(h).entries[k]) &&
      (forall i :: 0 <= i < |h| && h[i].assignment == k ==> Replay(h).entries[k] <= h[i].objective)
  {
    if h != [] {
      var p, x := h[..|h| - 1], h[|h| - 1];
      ReplayHoldsMinimum(p, k);
      assert forall i :: 0 <= i < |p| ==> h[i] == p[i];
      if k == x.assignment {
        assert h[|h| - 1].assignment == k;
        if k in Replay(p).entries && Replay(h).entries[k] == Replay(p).entries[k] {
          var i :| 0 <= i < |p| && p[i].assignment == k && p[i].objective == Replay(p).entries[k];
          assert h[i].assignment == k && h[i].objective == Replay(h).entries[k];
        }
      } else if k in Replay(p).entries {
        var i :| 0 <= i < |p| && p[i].assignment == k && p[i].objective == Replay(p).entries[k];
        assert h[i].assignment == k && h[i].objective == Replay(h).entries[k];
      }
    }
  }

  /** The same, for every key at once. */
  lemma ReplayEntriesAreMinima(h: seq<Submission>)
    ensures forall k :: k in Replay(h).entries <==> exists i :: 0 <= i < |h| && h[i].assignment == k
    ensures forall k :: k in Replay(h).entries ==>
      exists i :: 0 <= i < |h| && h[i].assignment == k && h[i].objective == Replay(h).entries[k]
    ensures forall k :: k in Replay(h).entries ==>
      forall i :: 0 <= i < |h| && h[i].assignment == k ==> Replay(h).entries[k] <= h[i].objective
  {
    forall k
      ensures k in Replay(h).entries <==> exists i :: 0 <= i < |h| && h[i].assignment == k
      ensures k in Replay(h).entries ==>
        exists i :: 0 <= i < |h| && h[i].assignment == k && h[i].objective == Replay(h).entries[k]
      ensures k in Replay(h).entries ==>
        forall i :: 0 <= i < |h| && h[i].assignment == k ==> Replay(h).entries[k] <= h[i].objective
    {
      ReplayHoldsMinimum(h, k);
    }
  }

  /**
   * `h[i]` is the first submission that reaches the overall minimum
   * objective: nothing submitted is lower, and everything before it is
   * strictly higher.
   */
  ghost predicate IsFirstMinimum(h: seq<Submission>, i: int)
  {
    0 <= i < |h| &&
    (forall j :: 0 <= j < |h| ==> h[i].objective <= h[j].objective) &&
    (forall j :: 0 <= j < i ==> h[i].objective < h[j].objective)
  }

  /**
   * The tie-break rule: the incumbent is the assignment of the first
   * submission that reached the overall minimum, and its stored objective is
   * that minimum. Later ties never move it.
   */
  lemma {:induction false} ReplayBestIsFirstMinimum(h: seq<Submission>)
    requires h != []
    ensures Replay(h).best.Some?
    ensures exists i ::
      (IsFirstMinimum(h, i) && Replay(h).best.value == h[i].assignment &&
       Replay(h).entries[h[i].assignment] == h[i].objective)
  {
    var p, x := h[..|h| - 1], h[|h| - 1];
    if p == [] {
      assert IsFirstMinimum(h, 0);
    } else {
      ReplayBestIsFirstMinimum(p);
      var i :| IsFirstMinimum(p, i) && Replay(p).best.value == p[i].assignment &&
        Replay(p).entries[p[i].assignment] == p[i].objective;
      ReplayInv(p);
      assert forall j :: 0 <= j < |p| ==> h[j] == p[j];
      if x.objective < p[i].objective {
        assert IsFirstMinimum(h, |h| - 1);
      } else {
        assert IsFirstMinimum(h, i);
      }
    }
  }

  /** The incumbent's stored objective is no larger than any objective ever submitted. */
  lemma ReplayBestIsGlobalMinimum(h: seq<Submission>)
    ensures Replay(h).best.Some? ==>
      forall i :: 0 <= i < |h| ==> Replay(h).entries[Replay(h).best.value] <= h[i].objective
  {
    if h != [] {
      ReplayBestIsFirstMinimum(h);
    }
  }
}
