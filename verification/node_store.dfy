/**
 * `TunerMemory::addConfiguration` as written (include/tuner_memory.h:120-140),
 * with the `std::unordered_set` modelled as nodes in numbered slots and the
 * best marker as an iterator, that is, a slot number or `end()`. `erase`
 * destroys a node; a later `insert` of the same assignment makes a new node
 * in a new slot. This is the model in which the incumbent iterator can be
 * left pointing at a destroyed node.
 */
module NodeStoreAsWritten {
  import opened Values
  import opened MemorySpec
  import opened Wrappers

  /** A `const_iterator` into the set: `end()` or the slot of a node. */
  datatype Iterator = End | At(slot: nat)

  /**
   * The live nodes by slot, the hash index from an assignment to the slot of
   * its node, the next free slot, and the best iterator.
   */
  datatype NodeSet = NodeSet(
    live: map<nat, Submission>,
    index: map<Assignment, nat>,
    nextSlot: nat,
    best: Iterator)

  /** What one call does: it finishes, or it dereferences an iterator to a destroyed node. */
  datatype Step = Done(after: NodeSet) | DereferencedErased(slot: nat)

  /** `TunerMemory()`: no nodes, best is `end()`. */
  const Fresh: NodeSet := NodeSet(map[], map[], 0, End)

  /**
   * The slots in use are below `nextSlot`, the index points at live nodes
   * holding its key, and every live node is the one its key is indexed to.
   */
  ghost predicate WellFormed(s: NodeSet)
  {
    (forall i :: i in s.live ==> i < s.nextSlot) &&
    (forall k :: k in s.index ==> s.index[k] in s.live && s.live[s.index[k]].assignment == k) &&
    (forall i :: i in s.live ==> s.live[i].assignment in s.index && s.index[s.live[i].assignment] == i)
  }

  /** The best iterator is `end()` or points at a live node. */
  ghost predicate BestLive(s: NodeSet)
  {
    s.best.At? ==> s.best.slot in s.live
  }

  /** The keyed view of a node set: the objective per assignment, and the best node's assignment. */
  ghost function Abstract(s: NodeSet): (r: Store)
    requires WellFormed(s) && BestLive(s)
    ensures r.best.Some? ==> r.best.value in r.entries
  {
    Store(Entries(s), if s.best.End? then None else Some(s.live[s.best.slot].assignment))
  }

  /** `unordered_set::insert`: the set after it, the iterator it returns, and whether it inserted. */
  function InsertNode(s: NodeSet, c: Submission): (NodeSet, Iterator, bool)
  {
    if c.assignment in s.index then (s, At(s.index[c.assignment]), false)
    else
      (NodeSet(s.live[s.nextSlot := c], s.index[c.assignment := s.nextSlot], s.nextSlot + 1, s.best),
       At(s.nextSlot), true)
  }

  /** `unordered_set::erase(it)`: destroys the node of `k`; other iterators are left as they are. */
  function EraseNode(s: NodeSet, k: Assignment): NodeSet
    requires k in s.index
  {
    NodeSet(s.live - {s.index[k]}, s.index - {k}, s.nextSlot, s.best)
  }

  /**
   * Lines 125-134: insert `c`; if its assignment was already there and `c`
   * is strictly better, erase that node and insert `c` again. Returns the
   * set and the iterator `it` as they are on reaching line 137.
   */
  function InsertOrReplace(s: NodeSet, c: Submission): (NodeSet, Iterator)
  {
    var (s1, it, inserted) := InsertNode(s, c);
    if !inserted && it.slot in s1.live && c.objective < s1.live[it.slot].objective then
      var erased := EraseNode(s1, c.assignment);
      var (s3, newIt, _) := InsertNode(erased, c);
      (s3, newIt)
    else (s1, it)
  }

  /** Lines 125-139 for an evaluated configuration `c`. */
  function AddAsWritten(s: NodeSet, c: Submission): Step
  {
    var (s2, it) := InsertOrReplace(s, c);
    if s2.best == End then Done(s2.(best := it))
    else if s2.best.slot !in s2.live then DereferencedErased(s2.best.slot)
    else if c.objective < s2.live[s2.best.slot].objective then Done(s2.(best := it))
    else Done(s2)
  }

  /** The objective per assignment held by a well-formed node set. */
  ghost function Entries(s: NodeSet): map<Assignment, real>
    requires WellFormed(s)
  {
    map k | k in s.index :: s.live[s.index[k]].objective
  }

  /** The node in slot `i` of `s`, if any, is still live in `s2` and unchanged. */
  ghost predicate Survives(s: NodeSet, s2: NodeSet, i: nat)
  {
    i in s.live ==> i in s2.live && s2.live[i] == s.live[i]
  }

  /** `insert` of a new assignment adds one node in a fresh slot and one entry. */
  lemma InsertNewNode(s: NodeSet, c: Submission)
    requires WellFormed(s) && c.assignment !in s.index
    ensures WellFormed(InsertNode(s, c).0)
    ensures Entries(InsertNode(s, c).0) == Entries(s)[c.assignment := c.objective]
    ensures forall i :: Survives(s, InsertNode(s, c).0, i)
  {
    var s1 := InsertNode(s, c).0;
    assert forall i :: i in s.live ==> s.live[i].assignment != c.assignment;
    var e, e1 := Entries(s), Entries(s1);
    forall j | j in e1
      ensures j in e[c.assignment := c.objective] && e1[j] == e[c.assignment := c.objective][j]
    {
      if j != c.assignment {
        assert s1.index[j] == s.index[j] != s.nextSlot;
      }
    }
  }

  /** `erase` of an assignment's node removes that node and that entry only. */
  lemma EraseOneNode(s: NodeSet, k: Assignment)
    requires WellFormed(s) && k in s.index
    ensures WellFormed(EraseNode(s, k)) && k !in EraseNode(s, k).index
    ensures Entries(EraseNode(s, k)) == Entries(s) - {k}
    ensures forall i :: i in s.live && s.live[i].assignment != k ==> Survives(s, EraseNode(s, k), i)
  {
    var erased := EraseNode(s, k);
    assert forall i :: i in erased.live ==> erased.live[i].assignment != k;
  }

  /**
   * Lines 125-134 keep the node set well formed, leave the best iterator
   * alone, return the iterator of `c`'s node, and hold the objectives the
   * keyed model holds after `Insert`. Every node not erased survives as it was.
   */
  lemma InsertOrReplaceAgreesOnEntries(s: NodeSet, c: Submission)
    requires WellFormed(s)
    ensures var (s2, it) := InsertOrReplace(s, c);
      WellFormed(s2) && s2.best == s.best &&
      c.assignment in s2.index && it == At(s2.index[c.assignment]) &&
      Entries(s2) == Insert(Store(Entries(s), None), c).entries &&
      (forall i :: i in s.live && (s.live[i].assignment != c.assignment || c.objective >= s.live[i].objective) ==>
         Survives(s, s2, i))
  {
    var k := c.assignment;
    var s2 := InsertOrReplace(s, c).0;
    var e := Entries(s);
    if k !in s.index {
      InsertNewNode(s, c);
      assert s2 == InsertNode(s, c).0;
      assert Entries(s2) == e[k := c.objective];
    } else if c.objective < s.live[s.index[k]].objective {
      var erased := EraseNode(s, k);
      EraseOneNode(s, k);
      InsertNewNode(erased, c);
      assert s2 == InsertNode(erased, c).0;
      assert Entries(s2) == (e - {k})[k := c.objective];
    } else {
      assert s2 == s;
    }
  }

  /**
   * Outside the undefined-behaviour case (the best iterator pointing at the
   * node that gets erased), the code as written does what the keyed model
   * does: the same objective per assignment and the same best assignment,
   * and its node set stays well formed with a live best.
   */
  lemma AddAsWrittenAgreesWithInsert(s: NodeSet, c: Submission)
    requires WellFormed(s) && BestLive(s)
    requires !(c.assignment in s.index && s.best == At(s.index[c.assignment]) &&
               c.objective < s.live[s.index[c.assignment]].objective)
    ensures AddAsWritten(s, c).Done?
    ensures WellFormed(AddAsWritten(s, c).after) && BestLive(AddAsWritten(s, c).after)
    ensures Abstract(AddAsWritten(s, c).after) == Insert(Abstract(s), c)
  {
    InsertOrReplaceAgreesOnEntries(s, c);
    var (s2, it) := InsertOrReplace(s, c);
    var a := Abstract(s);
    if s.best.At? {
      var b := s.best.slot;
      assert s.live[b].assignment != c.assignment || c.objective >= s.live[b].objective;
      assert b in s2.live && s2.live[b] == s.live[b];
      assert a.entries[a.best.value] == s.live[b].objective;
    }
    var r := AddAsWritten(s, c).after;
    assert Entries(r) == Entries(s2);
    assert Abstract(r).entries == Insert(a, c).entries;
  }

  /**
   * Whenever the incumbent's own assignment comes back with a strictly lower
   * objective, line 130 destroys the node the best iterator points at, and
   * line 137 then reads the objective through that iterator.
   */
  lemma ReplacingIncumbentDereferencesErasedNode(s: NodeSet, c: Submission)
    requires WellFormed(s)
    requires c.assignment in s.index && s.best == At(s.index[c.assignment])
    requires c.objective < s.live[s.index[c.assignment]].objective
    ensures AddAsWritten(s, c) == DereferencedErased(s.index[c.assignment])
  {
  }

  /** Concretely: add `(m, 10.0)` to a fresh memory, then `(m, 3.0)`. */
  lemma ImprovedDuplicateDereferencesErasedNode(m: Assignment)
    ensures AddAsWritten(Fresh, Submission(m, 10.0)).Done?
    ensures AddAsWritten(AddAsWritten(Fresh, Submission(m, 10.0)).after, Submission(m, 3.0))
      == DereferencedErased(0)
  {
    var s1 := AddAsWritten(Fresh, Submission(m, 10.0)).after;
    ReplacingIncumbentDereferencesErasedNode(s1, Submission(m, 3.0));
  }

  /**
   * With the best marker kept as a key instead, the same two calls leave
   * `m` stored with 3.0 and the marker on `m`.
   */
  lemma ImprovedDuplicateWithKeyedBest(m: Assignment)
    ensures Replay([Submission(m, 10.0), Submission(m, 3.0)]) == Store(map[m := 3.0], Some(m))
  {
    var h := [Submission(m, 10.0), Submission(m, 3.0)];
    assert h[..1] == [Submission(m, 10.0)];
    assert h[..1][..0] == [];
    assert Replay(h[..1]) == Store(map[m := 10.0], Some(m));
  }
}
