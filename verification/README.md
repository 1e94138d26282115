# MPILS tuner memory, modelled in Dafny

This project models the configuration memory of the MPILS tuner (Multi-Phase Iterated Local
Search) and the value model under it:

- `Values` (`values.dfy`), from `include/parameter.h`. A `Value` is an immutable wrapper around a
  variant of 32-bit int, double or string. Its equality is that of `std::variant`: same active
  alternative, then equal payload. A `Parameter` is a name, a sequence of possible values and a
  default value. The constructor does no validation.
- `Memory` (`memory.dfy`), from `include/tuner_memory.h`, in the source's imperative form.
  - A `Configuration` object has a fixed assignment (parameter name to `Value`). Its objective
    can be set once, with `SetObjective`. Equality compares the assignments only.
  - A `TunerMemory` object stores evaluated configurations. It keeps at most one entry per
    assignment, and the lowest objective submitted for that assignment.
  - `TunerMemory` also tracks the incumbent, the stored entry with the lowest objective. The
    best marker moves only on a strictly lower objective, so on a tie the earlier best stays.
- `MemorySpec` (`memory_spec.dfy`) holds the same behaviour as functions on values, with the
  proofs about it.
  - `Insert` is one `addConfiguration` call. `Replay` is a sequence of calls on a fresh memory.
  - The invariant: best is absent iff nothing is stored, and otherwise it names a minimum.
  - Each stored objective is the minimum submitted for its assignment.
  - The incumbent is the first submission that reached the overall minimum.
  - `TunerMemory.AddConfiguration` is proved to change its fields exactly as `Insert` does.
    Its object invariant `Valid()` ties the fields to `Replay` of every configuration accepted
    so far.
- `NodeStoreAsWritten` (`node_store.dfy`) models the source's `std::unordered_set` and its best
  iterator as written (`AddAsWritten`). It proves that this agrees with `MemorySpec.Insert` except
  when the best iterator is the node being erased, which is the finding below.
- `Wrappers` (`wrappers.dfy`) holds `Option` and `Outcome`.

The best marker is modelled as a key, not an iterator. The source throws
`std::runtime_error`; here the error comes back as `Fail(AlreadyEvaluated)` or
`Fail(UnevaluatedConfiguration)`, and state is left unchanged.

Points where the model follows the code closely:

- `Value` has exactly the three alternatives of include/parameter.h:33 (int, double, string).
  Its only modelled accessor, `getValue` (include/parameter.h:64), returns the variant; `getString`
  (include/parameter.h:70) has no body in the source and is left out.
- The evaluation state is a mutable objective plus a flag, as at include/tuner_memory.h:35-36.
  The model has the same two fields (`objective`, `evaluated`).
- Ties for the best: the code keeps the earlier incumbent (strict `<` at
  include/tuner_memory.h:137). `ReplayBestIsFirstMinimum` proves this rule.

## Model

| member | source | states |
|---|---|---|
| `Values.TerminatedPrefix` | include/parameter.h:58 | the string copied from a NUL-terminated buffer is exactly the characters before its first NUL |
| `Values.ConstructorsStoreMatchingAlternative` | include/parameter.h:40-64 | the int, double and string constructors store the matching alternative (index 0, 1, 2) with the argument as payload, and `getValue` returns it unchanged |
| `Values.CStringMatchesString` | include/parameter.h:52-58 | a C-string holding `s` before its terminator gives the same (and an equal) value as `std::string(s)`, whatever follows the terminator |
| `Values.EqualsIffSameVariant` | include/parameter.h:77-79 | value equality, defined as `std::variant` equality (index, then payload), holds iff the stored variants are identical |
| `Values.EqualsReflexiveSymmetric` | include/parameter.h:77-79 | value equality is reflexive and symmetric |
| `Values.AlternativesNeverEqual` | include/parameter.h:33-58 | values of different alternatives are never equal, in either order; int 1, double 1.0 and string "1" are pairwise unequal |
| `Values.ParameterGettersReturnArguments` | include/parameter.h:98-123 | `getName`, `getValues` and `getDefaultValue` return the constructor's arguments, with the values' order and duplicates preserved |
| `Values.ParameterAcceptsAnyDomain` | include/parameter.h:98-105 | the constructor accepts an empty list of values and a default that is not among them |
| `Memory.AssignmentEqualsIff` | include/tuner_memory.h:78-80 | `std::map` equality with `Value::operator==` on the values holds iff the two maps are equal |
| `Memory.Configuration.constructor` | include/tuner_memory.h:43 | a configuration built from a map holds that map and is not evaluated |
| `Memory.Configuration.WithObjective` | include/tuner_memory.h:50-53 | a configuration built with an objective holds the map, is evaluated and returns exactly that objective |
| `Memory.Configuration.SetObjective` | include/tuner_memory.h:69-75 | when not yet evaluated, stores the objective and sets the flag; when already evaluated, fails with `AlreadyEvaluated` and keeps the first objective |
| `Memory.Configuration.Equals` | include/tuner_memory.h:78-80 | true iff the two assignments are equal; it reads neither objective nor flag |
| `Memory.EqualityIgnoresEvaluation` | include/tuner_memory.h:43-80 | an unevaluated configuration equals an evaluated one built from the same map, and differs from one built from another map |
| `Memory.TunerMemory.constructor` | include/tuner_memory.h:110 | a new memory is empty and has no best |
| `Memory.TunerMemory.AddConfiguration` | include/tuner_memory.h:120-140 | refuses an unevaluated configuration and changes nothing; otherwise updates the store exactly as `Insert` does and keeps the invariant |
| `Memory.TunerMemory.GetConfigurations` | include/tuner_memory.h:143-145 | exactly the accepted assignments are stored, each with the minimum objective submitted for it: one of those submitted, and no larger than any of them |
| `Memory.TunerMemory.GetBestConfiguration` | include/tuner_memory.h:148-153 | nothing iff the memory is empty; otherwise the entry the best marker names, a stored entry whose objective is at most every stored and every submitted objective |
| `Memory.KeepsBetterDuplicate` | include/tuner_memory.h:116-139 | adding `(m, 10)`, `(m, 3)`, `(m, 10)` leaves one entry for `m` with 3, and that entry is the best |
| `Memory.RejectsUnevaluated` | include/tuner_memory.h:121-123 | adding a configuration whose objective was never set fails and leaves the memory empty without a best; `setObjective` on it then succeeds, and the add is accepted |
| `MemorySpec.Insert` | include/tuner_memory.h:120-140 | the added key is stored with the minimum of its old and new objective; no other key changes; best moves to the key iff there was none or the new objective is strictly below the best's |
| `MemorySpec.InsertPreservesInv` | include/tuner_memory.h:137-139 | every add keeps the invariant: best absent iff the store is empty, otherwise a member whose objective is at most every member's |
| `MemorySpec.DuplicateNoBetterIsNoOp` | include/tuner_memory.h:128-129 | a duplicate whose objective is not strictly lower leaves entries and best unchanged |
| `MemorySpec.Replay` | include/tuner_memory.h:110-140 | after any non-empty run of adds the best is present and names a stored key |
| `MemorySpec.ReplayInv` | include/tuner_memory.h:110-153 | every reachable memory satisfies the invariant |
| `MemorySpec.ReplayHoldsMinimum` | include/tuner_memory.h:125-134 | a key is stored iff it was submitted, and its stored objective is one of those submitted for it and at most all of them |
| `MemorySpec.ReplayEntriesAreMinima` | include/tuner_memory.h:125-134 | for every key at once: stored iff submitted, and stored with one of its submitted objectives that is at most all of them |
| `MemorySpec.ReplayBestIsFirstMinimum` | include/tuner_memory.h:137-139 | the best is the assignment of the first submission reaching the overall minimum objective, stored with that minimum; later ties do not move it |
| `MemorySpec.ReplayBestIsGlobalMinimum` | include/tuner_memory.h:137-139 | the best's stored objective is at most every objective ever submitted |
| `NodeStoreAsWritten.InsertNewNode` | include/tuner_memory.h:125 | `insert` of a new assignment keeps the node set well formed, adds exactly that entry, and leaves every existing node as it was |
| `NodeStoreAsWritten.EraseOneNode` | include/tuner_memory.h:130 | `erase` removes exactly the entry of the erased assignment and keeps every other node as it was |
| `NodeStoreAsWritten.InsertOrReplaceAgreesOnEntries` | include/tuner_memory.h:125-134 | as written, insert-or-erase-and-reinsert leaves the best iterator alone, returns the iterator of the added node, and holds the same objective per assignment as `MemorySpec.Insert` |
| `NodeStoreAsWritten.AddAsWrittenAgreesWithInsert` | include/tuner_memory.h:125-139 | whenever the best iterator is not the node erased at :130, the code as written finishes and agrees with `MemorySpec.Insert` on every entry and on the best assignment |
| `NodeStoreAsWritten.ReplacingIncumbentDereferencesErasedNode` | include/tuner_memory.h:129-137 | as written, improving the incumbent's own assignment erases the node the best iterator points at, and line 137 then dereferences it |
| `NodeStoreAsWritten.ImprovedDuplicateDereferencesErasedNode` | include/tuner_memory.h:125-139 | concretely: adding `(m, 10)` then `(m, 3)` to a new memory dereferences the erased node |
| `NodeStoreAsWritten.ImprovedDuplicateWithKeyedBest` | include/tuner_memory.h:125-139 | with the best kept as a key, the same two adds leave `m` stored with 3 and named as best |

## Findings

| source | as written | input that shows it | evidently intended | confidence | as-written member | corrected member |
|---|---|---|---|---|---|---|
| include/tuner_memory.h:130-137 | `erase(it)` destroys the stored node even when `best_configuration_` points at it; line 137 then reads `best_configuration_->getObjective()` through the now-invalid iterator (undefined behaviour) | `addConfiguration` of `(m, 10.0)` then of `(m, 3.0)` on a new memory | the best marker follows the refreshed entry for `m` | high (not executed) | `NodeStoreAsWritten.ReplacingIncumbentDereferencesErasedNode` (over `NodeStoreAsWritten.AddAsWritten`) | `MemorySpec.InsertPreservesInv` (best kept as a key; `Memory.TunerMemory.AddConfiguration` uses it) |

## Left out

- include/logger.h: console and stream output with wall-clock timestamps; pure I/O.
- src/main.cpp: a console demo. It calls a five-argument `Parameter` constructor that include/parameter.h does not declare.
- src/parameter.cpp: defines a `Parameter` constructor over fields that include/parameter.h does not have. The model follows the header's three-argument constructor.
- include/configuration.h: an empty class with private fields only, and no operations.
- `Value::getString`: its definition is not part of this model (only its declaration exists).
- `Configuration::HashFunction`: not modelled. The set is modelled as a map keyed by assignment equality. This assumes the hash agrees with `Value::operator==`: equal values must render to the same text in `getString`, whose definition is not part of this model (doubles 0.0 and -0.0, for one, are equal).
- Floating point: objectives and double payloads are reals. NaN (for which `<` at include/tuner_memory.h:129 and :137 is always false, and a double `Value` is unequal to itself) and the infinities are not modelled.
- Rehashing and bucket layout of `std::unordered_set`. A rehash during `insert` at include/tuner_memory.h:125 or :131 also invalidates the best iterator; the finding models only the erase at :130.
- `Memory.Configuration.constructor`: the source leaves `objective_` uninitialised. The model stores 0.0 but promises nothing about it, so `getObjective` on an unevaluated configuration is unspecified in the model too.
- `Memory.TunerMemory.GetConfigurations`: the source returns a `const` reference to the live `std::unordered_set` of stored configurations. The model returns the stored objective per assignment as a map, a snapshot taken at the call. So it does not capture that a reference the caller keeps shows later adds.
- `Memory.TunerMemory.GetBestConfiguration`: the source returns a pointer into the set's node for the best configuration. The model returns a copy of that entry, taken at the call. So it does not capture that a kept pointer sees later changes, or that it dangles once an improving add of the best's own assignment erases its node at include/tuner_memory.h:130.
- Copying: `addConfiguration` copies the configuration into the set. The model stores the assignment and objective as values, so later changes to the caller's object cannot reach the memory.
