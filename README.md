# Causal models for fault finding: a Dafny model

The system keeps a causal model of a device: a set of parts, each listing
the parts it causes to fail and the parts it is caused to fail by. Two
services run on top of it:

- root-cause candidates: given indicator parts observed working and parts
  observed failing, keep the parts that can cause every failing indicator
  and none of the working ones;
- check plans: given a connectivity matrix (`m[i][j] == 1` when part `i`
  can make part `j` fail), order the parts to check breadth-first from a
  broken part towards its causes. For several broken parts, cut the first
  plan down to the parts every plan holds.

The Dafny project has six modules:

| file | module | what it holds |
|---|---|---|
| `common.dfy` | `Common` | `Option`, `Distinct`, `Elements`, and `AnyOrder`: a set listed in an unspecified order |
| `reachability.dfy` | `Reachability` | walks over an edge set, and the lemma that a closed set holds everything reachable |
| `causal_model_spec.dfy` | `CausalModelSpec` | the model as a value (`Graph`), the building operations as functions, and their lemmas; "can cause" as reachability; the candidate predicate |
| `causal_graph_structure.dfy` | `CausalGraphStructure` | the class `CausalModel`, updated in place, with every method proved against `CausalModelSpec` |
| `causal_algorithms.dfy` | `CausalAlgorithms` | single-part planning as written, single-part planning without repeats, multi-part planning |
| `causal_model_fixture.dfy` | `CausalModelFixture` | the eight-part lamp circuit built at module level, and the query run on it |

**How the model works**

- Parts are identified by their string ids. The part objects' `causes` and
  `caused_by` lists are two maps from a part's id to the ids in its list.
  `Valid` is the invariant the building operations keep:
  - ids are unique;
  - lists have no repeats;
  - every listed id is a part;
  - the two maps mirror each other.

  While `Valid` holds, comparing part objects, as the source does, is the
  same as comparing their ids.
- "x can cause f" (`CanCause`) means `f` reaches `x` along caused-by links,
  in zero or more steps.
- In the matrix algorithms, "x is a suspect of b" (`Suspect`) means the
  same, with the matrix columns as the links.

## Model

| member | source | states |
|---|---|---|
| CausalModelSpec.AddUnique | causal_graph_structure.py:9-21 | The result lists `x` and exactly the old members besides. It extends the old list by at most one element. A list without repeats stays without repeats. |
| CausalModelSpec.AddUniqueIdempotent | causal_graph_structure.py:9-21 | Adding the same id a second time changes nothing. |
| CausalModelSpec.AddAll | causal_graph_structure.py:38-41 | Creating each id of a list in turn: the old list is a prefix of the result, the result holds exactly the old ids and the new ones, and it has no repeats if the old list had none. |
| CausalModelSpec.EmptyValid | causal_graph_structure.py:24-25 | A new, empty model satisfies the invariant. |
| CausalModelSpec.EnsurePartFacts | causal_graph_structure.py:28-29 | Creating a missing part appends its id once and gives it two empty lists. No existing list and no link changes. |
| CausalModelSpec.EnsurePartValid | causal_graph_structure.py:28-29 | Creating a part keeps the invariant. |
| CausalModelSpec.LinkCauseFacts | causal_graph_structure.py:40-44 | One add_part_causes step adds exactly the link p causes c (in p's causes list) and its mirror (in c's caused-by list). The part list gains c at most once. |
| CausalModelSpec.LinkCauseValid | causal_graph_structure.py:40-44 | That step keeps the invariant. |
| CausalModelSpec.LinkCausedByFacts | causal_graph_structure.py:49-53 | One add_part_caused_bys step adds exactly the link b causes p and its mirror. The part list gains b at most once. |
| CausalModelSpec.LinkCausedByValid | causal_graph_structure.py:49-53 | That step keeps the invariant. |
| CausalModelSpec.AddCausesFacts | causal_graph_structure.py:37-44 | add_part_causes adds exactly the links from p to each id of the list, in both maps, and nothing else. The part list becomes `AddAll` of the ids. |
| CausalModelSpec.AddCausesValid | causal_graph_structure.py:37-44 | add_part_causes keeps the invariant. |
| CausalModelSpec.AddCausedBysFacts | causal_graph_structure.py:46-53 | add_part_caused_bys adds exactly the links from each id of the list to p, in both maps, and nothing else. |
| CausalModelSpec.AddCausedBysValid | causal_graph_structure.py:46-53 | add_part_caused_bys keeps the invariant. |
| CausalModelSpec.AddFullEdges | causal_graph_structure.py:27-32 | After add_part_full, y is in x's causes list iff it was before, or x is the part and y is one of its declared effects, or y is the part and x is one of its declared causes. The caused-by lists change in the mirror image. |
| CausalModelSpec.AddFullParts | causal_graph_structure.py:27-32 | add_part_full keeps the old part list as a prefix. It appends the part, then its effects, then its causes, each new id once. |
| CausalModelSpec.AddFullValid | causal_graph_structure.py:27-32 | add_part_full keeps the invariant. |
| CausalModelSpec.CanCauseThrough | causal_graph_structure.py:63-70 | If c is in f's caused-by list and x can cause c, then x can cause f. |
| CausalModelSpec.CauseClosedListComplete | causal_graph_structure.py:55-71 | A list that holds f and every caused-by entry of its members holds every part that can cause f. |
| CausalModelSpec.NoObservationAllCandidates | causal_graph_structure.py:75-78 | With no observation, the candidates are exactly the parts. |
| CausalModelSpec.CandidatesMonotone | causal_graph_structure.py:73-101 | Observing more working or failing indicators never adds a candidate. |
| CausalModelSpec.CandidatesNextFailing | causal_graph_structure.py:81-88 | Taking one more failing indicator into account keeps exactly the candidates that can cause it. |
| CausalModelSpec.CandidatesNextWorking | causal_graph_structure.py:91-99 | Taking one more working indicator into account drops exactly the candidates that can cause it. |
| Common.AnyOrder | causal_algorithms.py:82-85 | Lists each element of the set exactly once, in an order the model does not fix. It stands for the random sibling order here and for `list(set(...))` at causal_graph_structure.py:88 and :99. |
| CausalGraphStructure.Contains | causal_graph_structure.py:64-68 | The exclusion scan finds `x` iff the list holds it. |
| CausalGraphStructure.CausalModel.constructor | causal_graph_structure.py:24-25 | The new model is empty and valid. |
| CausalGraphStructure.CausalModel.AddCausedBy | causal_graph_structure.py:9-14 | Only the part's caused-by list changes: it becomes `AddUnique` of the old list and the cause. |
| CausalGraphStructure.CausalModel.AddCause | causal_graph_structure.py:16-21 | Only the part's causes list changes: it becomes `AddUnique` of the old list and the effect. |
| CausalGraphStructure.CausalModel.FindPart | causal_graph_structure.py:105-110 | The result is nothing iff no part has the id. Otherwise it is the first position holding the id. |
| CausalGraphStructure.CausalModel.AddNewPartEmpty | causal_graph_structure.py:34-35 | The id is appended to the part list with two empty lists. Nothing else changes. |
| CausalGraphStructure.CausalModel.CreateIfMissing | causal_graph_structure.py:28-29 | The new state is `EnsurePart` of the old: the part exists afterwards, and the old part list is a prefix. |
| CausalGraphStructure.CausalModel.LinkOneCause | causal_graph_structure.py:40-44 | The new state is `LinkCause` of the old state. |
| CausalGraphStructure.CausalModel.AddPartCauses | causal_graph_structure.py:37-44 | The new state is `AddCauses` of the old state and the ids, whose effect `AddCausesFacts` states. A valid model stays valid. |
| CausalGraphStructure.CausalModel.LinkOneCausedBy | causal_graph_structure.py:49-53 | The new state is `LinkCausedBy` of the old state. |
| CausalGraphStructure.CausalModel.AddPartCausedBys | causal_graph_structure.py:46-53 | The new state is `AddCausedBys` of the old state and the ids. A valid model stays valid. |
| CausalGraphStructure.CausalModel.AddPartFull | causal_graph_structure.py:27-32 | The new state is `AddFull` of the old state, and the invariant holds. |
| CausalGraphStructure.CausalModel.FindAllCausesForPart | causal_graph_structure.py:55-71 | The result is the accumulator followed by the part and then only parts that can cause it. It has no repeats, and the new tail is closed under caused-by links. From an empty accumulator the result holds exactly the parts that can cause the part. |
| CausalGraphStructure.CausalModel.KeepCausesOf | causal_graph_structure.py:81-88 | One failing indicator: the new candidate list has no repeats and holds exactly the old candidates that can cause the indicator. |
| CausalGraphStructure.CausalModel.DropCausesOf | causal_graph_structure.py:91-99 | One working indicator: the new candidate list has no repeats and holds exactly the old candidates that cannot cause it. |
| CausalGraphStructure.CausalModel.FindPointsOfFailure | causal_graph_structure.py:73-101 | The result has no repeats. It holds exactly the parts that can cause every failing indicator and none of the working ones. With no observation it is the part list itself. |
| CausalGraphStructure.ClosureGrows | causal_graph_structure.py:69-70 | After the recursive call for a cause c, the accumulated tail still holds only parts that can cause the target, and stays closed. |
| CausalAlgorithms.SuspectFacts | causal_algorithms.py:71-75 | The broken part is its own suspect, and every suspect is a part index. |
| CausalAlgorithms.SuspectStep | causal_algorithms.py:77 | A direct cause of a suspect is a suspect. |
| CausalAlgorithms.CauseClosedHoldsSuspects | causal_algorithms.py:73-86 | A list holding the broken part and every direct cause of its members holds every suspect. |
| CausalAlgorithms.QueuedAfterSuspects | causal_algorithms.py:77-85 | Checking a suspect queues only suspects of the broken part that are not yet planned. Every direct cause of the checked part is either planned or queued, so none is lost. |
| CausalAlgorithms.PlanStep | causal_algorithms.py:73-85 | One iteration keeps plan and queue made of suspects. Every direct cause of a planned part stays planned or queued. |
| CausalAlgorithms.GeneratePlan | causal_algorithms.py:55-87 | The plan as written starts with the broken part and holds only part indices. A part is in the plan iff it is a suspect. The loop terminates although parts may be queued twice. |
| CausalAlgorithms.QueuedAfterRequeues | causal_algorithms.py:79-85 | A 4-part matrix where part 3 is queued after part 1 and again after part 2, though there are only 4 suspects. |
| CausalAlgorithms.GeneratePlanDistinct | causal_algorithms.py:55-87 | The corrected plan starts with the broken part, has no repeats and holds exactly the suspects. Its length is the number of suspects. |
| CausalAlgorithms.KeepFacts | causal_algorithms.py:94-96 | What survives the cut is exactly the members of the path that are in the kept set. A path without repeats stays without repeats. |
| CausalAlgorithms.KeepKeep | causal_algorithms.py:92-96 | Cutting by one plan and then another equals one cut by the intersection. |
| CausalAlgorithms.KeepAll | causal_algorithms.py:90-91 | A cut that keeps every member changes nothing. |
| CausalAlgorithms.KeepCounts | causal_algorithms.py:94-96 | Per part, the cut is all or nothing: a kept part keeps every occurrence, any other part loses all of them. |
| CausalAlgorithms.RemoveFirstAt | causal_algorithms.py:96 | `list.remove` drops the first occurrence and keeps the rest in order. |
| CausalAlgorithms.KeepOnlyIn | causal_algorithms.py:94-96 | The inner loop over a copy of the path leaves exactly `Keep` of the path by the new plan's members, order preserved. |
| CausalAlgorithms.KeepOnlyStep | causal_algorithms.py:94-96 | One inner iteration keeps the processed prefix cut and the rest untouched. |
| CausalAlgorithms.CommonSuspectsOne | causal_algorithms.py:90 | For one broken part, the common suspects are its suspects. |
| CausalAlgorithms.CommonSuspectsNext | causal_algorithms.py:92-93 | One more broken part intersects the common suspects with its suspects. |
| CausalAlgorithms.PlanMultipleStart | causal_algorithms.py:90-91 | Before the loop, the first plan is its own cut by the common suspects of the first part. |
| CausalAlgorithms.PlanMultipleStep | causal_algorithms.py:92-96 | Cutting by the next part's plan is cutting the first plan by the common suspects of one more part. |
| CausalAlgorithms.PlanMultipleDone | causal_algorithms.py:98 | The final path holds exactly the common suspects. With one broken part it is the first plan. |
| CausalAlgorithms.CutToCommon | causal_algorithms.py:92-96 | The outer loop leaves the first plan cut down to the common suspects of all broken parts. |
| CausalAlgorithms.GeneratePlanMultiple | causal_algorithms.py:89-98 | The path is the first part's plan, with its order kept, cut to the parts that are suspects of every broken part. It holds exactly those, and is the first plan when one part is broken. |
| CausalModelFixture.BuildValid | causal_graph_structure.py:121-129 | A model built from empty by add_part_full calls satisfies the invariant. |
| CausalModelFixture.BuildParts | causal_graph_structure.py:121-129 | Its parts are exactly the ids the calls name. |
| CausalModelFixture.BuildCausedBy | causal_graph_structure.py:121-129 | Its caused-by lists hold exactly the cause relations some call declares. |
| CausalModelFixture.CircuitBuilt | causal_graph_structure.py:121-129 | The lamp circuit has 8 parts and exactly its 9 declared cause relations. |
| CausalModelFixture.CausesOfL1 | causal_graph_structure.py:131 | In the circuit, exactly L1, i1, R1, i3 and R3 can make L1 fail. |
| CausalModelFixture.CausesOfL2 | causal_graph_structure.py:121-129 | In the circuit, exactly L2, i2, R2, i3 and R3 can make L2 fail. |
| CausalModelFixture.CircuitLampQuery | causal_graph_structure.py:132 | With L2 working and L1 failing, the candidates are exactly R1, L1 and i1. |
| CausalModelFixture.LampQuery | causal_graph_structure.py:121-132 | The same, stated for the model value the eight calls build. |
| CausalModelFixture.BuildModel | causal_graph_structure.py:121-129 | A new `CausalModel` followed by one `AddPartFull` call per declaration, in order, ends valid and in the state `Build` describes. |
| CausalModelFixture.LampScript | causal_graph_structure.py:121-132 | The script run through the class: it builds the circuit and then calls `FindPointsOfFailure` with L2 working and L1 failing. The result is R1, L1 and i1, each once. |

## Left out

- generate_observables_from_failure (causal_algorithms.py:100-104) is a stub. It returns an empty list for any input, so there is nothing to model or prove.
- The module-level scripts are not modelled: the numpy circuit matrices, the plotting with networkx and matplotlib, and the printed calls in causal_algorithms.py:106-120 and causal_graph_structure.py:133-147. Only the lamp circuit and its query (causal_graph_structure.py:121-132) are modelled.
- instruction_efficiency.py is not part of this model. Neither is the commented-out `init_from_matrix`.
- CausalAlgorithms.GeneratePlanMultiple: requires at least one broken part. On an empty list the source raises IndexError at `broken_parts[0]` (causal_algorithms.py:90).
- CausalGraphStructure.CausalModel.FindPart: returns the position of the part rather than the part object, since parts are identified by their ids.
- CausalGraphStructure.CausalModel.FindAllCausesForPart: requires the queried id to be a part. For an unknown id the source's find_part returns False, and the next line fails on `False.caused_by`.
- CausalGraphStructure.CausalModel.FindPointsOfFailure: requires every indicator id to be a part, for the same reason.
- CausalGraphStructure.CausalModel.FindPointsOfFailure: states the contents of the result and that it has no repeats, but not its order. The source builds it with `list(set(...))`, whose order Python does not fix.
- CausalGraphStructure.CausalModel.FindAllCausesForPart: the source appends to one list shared by all recursive calls. The model passes that list in and returns it.
- CausalGraphStructure.CausalModel.AddNewPartEmpty: requires the id to be new. Every caller in the source checks find_part first, and a duplicate id would break the id uniqueness every other operation relies on.
- CausalGraphStructure.CausalModel.AddCause and AddCausedBy: require the part to exist, since the source calls them on an existing part object.
- CausalAlgorithms.GeneratePlan: does not state the breadth-first order (each part after the part it was queued from), only which parts the plan holds and that it starts with the broken part.
- The sibling order (`random.choice` at causal_algorithms.py:83) and the order of `list(set(...))` are modelled by `Common.AnyOrder`. It lists a set in an order the model does not fix. Randomness itself is not modelled.
- The matrix is a square `seq<seq<int>>` compared with `== 1`. numpy float entries, non-square matrices and negative or out-of-range indices (numpy's wrap-around indexing) are not modelled.

## Findings

| source | as written | input that shows it | evidently intended | confidence | as-written member | corrected member |
|---|---|---|---|---|---|---|
| causal_algorithms.py:79-85 | Before queueing the causes of the checked part, only parts already in the plan are removed. A cause still waiting in the queue is queued again and later checked twice. | Matrix with parts 1 and 2 causing 0 and part 3 causing 1 and 2 (`[[0,0,0,0],[1,0,0,0],[1,0,0,0],[0,1,1,0]]`), broken part 0. After checking 1, part 3 is queued. After checking 2, part 3 is still waiting and is queued again, so the plan checks 3 twice. | Each suspect is checked once, so the plan's length is the number of suspects. | not executed | CausalAlgorithms.QueuedAfterRequeues | CausalAlgorithms.GeneratePlanDistinct |

`GeneratePlanMultiple` calls the planner as written, as the source does. Its
contract holds with repeats too: `Keep` removes every occurrence of a part
that is not kept (`KeepCounts`).
