/**
 * The tuner's memory as the source writes it (include/tuner_memory.h):
 * a `Configuration` object whose objective is set at most once, and a
 * `TunerMemory` object that stores evaluated configurations, one per
 * assignment, and keeps the key of the best one.
 */
module Memory {
  import opened Values
  import opened Wrappers
  import opened MemorySpec

  /** The two `std::runtime_error`s the source throws. */
  datatype Error = AlreadyEvaluated | UnevaluatedConfiguration

  /**
   * `std::map<std::string, Value>::operator==`: the same number of entries
   * and, entry by entry, equal keys and values (the keys are kept sorted, so
   * this is: the same keys, and `Value::operator==` on each of their values).
   */
  predicate AssignmentEquals(a: Assignment, b: Assignment)
  {
    a.Keys == b.Keys && forall k :: k in a ==> a[k].Equals(b[k])
  }

  /** Map equality with `Value::operator==` on the values is plain equality of the maps. */
  lemma AssignmentEqualsIff(a: Assignment, b: Assignment)
    ensures AssignmentEquals(a, b) <==> a == b
  {
  }

  /** A configuration: a fixed assignment, and an objective that is set once. */
  class Configuration {
    const assignment: Assignment
    var objective: real
    var evaluated: bool

    /** `Configuration(map)`: not evaluated; its objective is unspecified. */
    constructor (assignment: Assignment)
      ensures GetConfiguration() == assignment && !IsEvaluated()
    {
      this.assignment := assignment;
      this.objective := 0.0;
      this.evaluated := false;
    }

    /** `Configuration(map, objective)`: evaluated with exactly that objective. */
    constructor WithObjective(assignment: Assignment, objective: real)
      ensures GetConfiguration() == assignment && IsEvaluated() && GetObjective() == objective
    {
      this.assignment := assignment;
      this.objective := objective;
      this.evaluated := true;
    }

    /** `getConfiguration`. */
    function GetConfiguration(): Assignment
    {
      assignment
    }

    /** `getObjective`: meaningful only once evaluated. */
    function GetObjective(): real
      reads this
    {
      objective
    }

    /** `isEvaluated`. */
    function IsEvaluated(): bool
      reads this
    {
      evaluated
    }

    /**
     * `setObjective`: on an unevaluated configuration, stores the objective
     * and marks it evaluated; on an evaluated one, fails and changes nothing.
     */
    method SetObjective(objective: real) returns (r: Outcome<Error>)
      modifies this
      ensures r == if old(evaluated) then Fail(AlreadyEvaluated) else Pass
      ensures evaluated
      ensures this.objective == if old(evaluated) then old(this.objective) else objective
    {
      if evaluated {
        return Fail(AlreadyEvaluated);
      }
      this.objective := objective;
      evaluated := true;
      r := Pass;
    }

    /** `operator==`: compares the assignments only, never the objective or the flag. */
    function Equals(other: Configuration): (r: bool)
      ensures r <==> assignment == other.assignment
    {
      AssignmentEqualsIff(assignment, other.assignment);
      AssignmentEquals(assignment, other.assignment)
    }
  }

  /**
   * A configuration built from a map alone equals one built from the same
   * map with any objective, and differs from one built from another map.
   */
  method EqualityIgnoresEvaluation(m: Assignment, m': Assignment, objective: real)
    returns (same: bool, different: bool)
    ensures same
    ensures different <==> m != m'
  {
    var plain := new Configuration(m);
    var scored := new Configuration.WithObjective(m, objective);
    var other := new Configuration.WithObjective(m', objective);
    same := plain.Equals(scored) && scored.Equals(plain);
    different := !plain.Equals(other);
  }

  /** The memory of the tuner: every evaluated configuration seen, and the best one. */
  class TunerMemory {
    /** The stored configurations: the objective kept for each assignment. */
    var configurations: map<Assignment, real>
    /** The key of the best configuration; `None` plays the part of `end()`. */
    var best: Option<Assignment>
    /** Every evaluated configuration accepted so far, in order. */
    ghost var submitted: seq<Submission>

    ghost predicate Valid()
      reads this
    {
      Store(configurations, best) == Replay(submitted) &&
      Inv(Store(configurations, best))
    }

    /** `TunerMemory()`: empty, best is `end()`. */
    constructor ()
      ensures Valid()
      ensures configurations == map[] && best == None && submitted == []
    {
      configurations := map[];
      best := None;
      submitted := [];
    }

    /**
     * `addConfiguration`: refuses an unevaluated configuration and changes
     * nothing; otherwise inserts it, or replaces the stored entry with the
     * same assignment when the new objective is strictly lower, and moves
     * the best marker on a strictly lower objective.
     */
    method AddConfiguration(config: Configuration) returns (r: Outcome<Error>)
      requires Valid()
      modifies this
      ensures Valid()
      ensures r == if config.evaluated then Pass else Fail(UnevaluatedConfiguration)
      ensures !config.evaluated ==>
        configurations == old(configurations) && best == old(best) && submitted == old(submitted)
      ensures config.evaluated ==>
        var c := Submission(config.assignment, config.objective);
        submitted == old(submitted) + [c] &&
        Store(configurations, best) == Insert(old(Store(configurations, best)), c)
    {
      if !config.IsEvaluated() {
        return Fail(UnevaluatedConfiguration);
      }
      ghost var before := Store(configurations, best);
      var key := config.GetConfiguration();
      var objective := config.GetObjective();
      var inserted := key !in configurations;
      if !inserted {
        if objective < configurations[key] {
          configurations := configurations - {key};
          configurations := configurations[key := objective];
        }
      } else {
        configurations := configurations[key := objective];
      }
      if best.None? || objective < configurations[best.value] {
        best := Some(key);
      }
      ghost var c := Submission(key, objective);
      assert Store(configurations, best) == Insert(before, c);
      InsertPreservesInv(before, c);
      submitted := submitted + [c];
      assert submitted[..|submitted| - 1] == old(submitted);
      r := Pass;
    }

    /**
     * `getConfigurations`: every accepted assignment is stored, nothing else
     * is, and each is stored with the minimum objective submitted for it.
     */
    function GetConfigurations(): (m: map<Assignment, real>)
      reads this
      requires Valid()
      ensures forall k :: k in m <==> exists i :: 0 <= i < |submitted| && submitted[i].assignment == k
      ensures forall k :: k in m ==>
        exists i :: 0 <= i < |submitted| && submitted[i].assignment == k && submitted[i].objective == m[k]
      ensures forall k :: k in m ==>
        forall i :: 0 <= i < |submitted| && submitted[i].assignment == k ==> m[k] <= submitted[i].objective
    {
      ReplayEntriesAreMinima(submitted);
      configurations
    }

    /**
     * `getBestConfiguration`: nothing when the memory is empty; otherwise a
     * stored configuration whose objective is no larger than any stored
     * objective, and no larger than anything ever submitted.
     */
    function GetBestConfiguration(): (r: Option<Submission>)
      reads this
      requires Valid()
      ensures r.None? <==> configurations == map[]
      ensures r.Some? ==> Some(r.value.assignment) == best
      ensures r.Some? ==>
        r.value.assignment in configurations &&
        configurations[r.value.assignment] == r.value.objective &&
        (forall k :: k in configurations ==> r.value.objective <= configurations[k]) &&
        (forall i :: 0 <= i < |submitted| ==> r.value.objective <= submitted[i].objective)
    {
      ReplayBestIsGlobalMinimum(submitted);
      match best
      case None => None
      case Some(k) => Some(Submission(k, configurations[k]))
    }
  }

  /**
   * Adding `(m, 10.0)`, `(m, 3.0)` and `(m, 10.0)` again keeps one entry for
   * `m`, with the better objective 3.0, and that entry is the best.
   */
  method KeepsBetterDuplicate(m: Assignment) returns (stored: map<Assignment, real>, best: Option<Submission>)
    ensures stored == map[m := 3.0]
    ensures best == Some(Submission(m, 3.0))
  {
    var memory := new TunerMemory();
    var worse := new Configuration.WithObjective(m, 10.0);
    var better := new Configuration.WithObjective(m, 3.0);
    var r := memory.AddConfiguration(worse);
    assert memory.configurations == map[m := 10.0] && memory.best == Some(m);
    r := memory.AddConfiguration(better);
    assert memory.configurations == map[m := 3.0] && memory.best == Some(m);
    r := memory.AddConfiguration(worse);
    assert memory.configurations == map[m := 3.0] && memory.best == Some(m);
    stored := memory.GetConfigurations();
    best := memory.GetBestConfiguration();
  }

  /**
   * A configuration whose objective was never set is refused, the memory
   * stays empty and has no best; once its objective is set it is accepted.
   */
  method RejectsUnevaluated(m: Assignment, objective: real)
    returns (refused: Outcome<Error>, emptyAfter: bool, first: Outcome<Error>, accepted: Outcome<Error>)
    ensures refused == Fail(UnevaluatedConfiguration) && emptyAfter
    ensures first == Pass && accepted == Pass
  {
    var memory := new TunerMemory();
    var config := new Configuration(m);
    refused := memory.AddConfiguration(config);
    emptyAfter := memory.GetConfigurations() == map[] && memory.GetBestConfiguration() == None;
    first := config.SetObjective(objective);
    accepted := memory.AddConfiguration(config);
  }
}
