/**
 * The string-keyed causal model, updated in place. Parts are identified by
 * their ids (ids are unique, see `CausalModelSpec`); the adjacency lists that
 * each part object keeps are held here as two maps from a part's id to the
 * ids in its list. Every state change is proved against the value-level
 * specification in `CausalModelSpec`.
 */
module CausalGraphStructure {
  import opened Common
  import opened Reachability
  import opened CausalModelSpec

  /** The `for ... in list: if ... == x` scan of the source: whether `x` is listed. */
  method Contains(list: seq<Id>, x: Id) returns (b: bool)
    ensures b <==> x in list
  {
    b := false;
    var e := 0;
    while e < |list|
      invariant 0 <= e <= |list|
      invariant b <==> x in list[..e]
    {
      if list[e] == x {
        b := true;
      }
      e := e + 1;
    }
    assert list[..e] == list;
  }

  class CausalModel {
    /** Part ids in insertion order. */
    var parts: seq<Id>
    /** For each part, the ids of the parts it causes. */
    var causes: Adjacency
    /** For each part, the ids of the parts it is caused by. */
    var causedBy: Adjacency

    function Abs(): Graph
      reads this
    {
      Graph(parts, causes, causedBy)
    }

    ghost predicate Valid()
      reads this
    {
      CausalModelSpec.Valid(Abs())
    }

    constructor ()
      ensures Abs() == Empty && Valid()
    {
      parts := [];
      causes := map[];
      causedBy := map[];
      EmptyValid();
    }

    /** CausalPart.add_caused_by on part `part`: scan its list, append if absent. */
    method AddCausedBy(part: Id, cause: Id)
      requires part in causedBy
      modifies this
      ensures causedBy == old(causedBy)[part := AddUnique(old(causedBy)[part], cause)]
      ensures parts == old(parts) && causes == old(causes)
    {
      var list := causedBy[part];
      var i := 0;
      while i < |list|
        invariant 0 <= i <= |list|
        invariant cause !in list[..i]
      {
        if list[i] == cause {
          assert causedBy[part := list] == causedBy;
          return;
        }
        i := i + 1;
      }
      assert list[..i] == list;
      causedBy := causedBy[part := list + [cause]];
    }

    /** CausalPart.add_cause on part `part`: scan its list, append if absent. */
    method AddCause(part: Id, effect: Id)
      requires part in causes
      modifies this
      ensures causes == old(causes)[part := AddUnique(old(causes)[part], effect)]
      ensures parts == old(parts) && causedBy == old(causedBy)
    {
      var list := causes[part];
      var i := 0;
      while i < |list|
        invariant 0 <= i <= |list|
        invariant effect !in list[..i]
      {
        if list[i] == effect {
          assert causes[part := list] == causes;
          return;
        }
        i := i + 1;
      }
      assert list[..i] == list;
      causes := causes[part := list + [effect]];
    }

    /** find_part: the position of the part with this id, or nothing. */
    method FindPart(id: Id) returns (r: Option<nat>)
      ensures r.None? <==> id !in parts
      ensures r.Some? ==> r.value < |parts| && parts[r.value] == id && id !in parts[..r.value]
    {
      var i := 0;
      while i < |parts|
        invariant 0 <= i <= |parts|
        invariant id !in parts[..i]
      {
        if parts[i] == id {
          return Some(i);
        }
        i := i + 1;
      }
      assert parts[..i] == parts;
      return None;
    }

    /** add_new_part_empty: append a part with no edges. */
    method AddNewPartEmpty(id: Id)
      requires id !in parts
      modifies this
      ensures parts == old(parts) + [id]
      ensures causes == old(causes)[id := []] && causedBy == old(causedBy)[id := []]
    {
      parts := parts + [id];
      causes := causes[id := []];
      causedBy := causedBy[id := []];
    }

    /** The `if not find_part(id): add_new_part_empty(...)` guard used by every creation. */
    method CreateIfMissing(id: Id)
      requires WellKeyed(Abs())
      modifies this
      ensures Abs() == EnsurePart(old(Abs()), id)
      ensures WellKeyed(Abs()) && id in parts && old(parts) <= parts
    {
      EnsurePartFacts(Abs(), id);
      var found := FindPart(id);
      if found.None? {
        AddNewPartEmpty(id);
      }
    }

    /** One iteration of add_part_causes: `id` becomes something `part` causes. */
    method LinkOneCause(part: Id, id: Id)
      requires WellKeyed(Abs()) && part in parts
      modifies this
      ensures Abs() == LinkCause(old(Abs()), part, id)
      ensures WellKeyed(Abs()) && part in parts
    {
      LinkCauseFacts(Abs(), part, id);
      CreateIfMissing(id);
      // the part found by id is the part `id` itself
      AddCause(part, id);
      AddCausedBy(id, part);
    }

    /** add_part_causes: every id of `ids` becomes something `part` causes. */
    method AddPartCauses(part: Id, ids: seq<Id>)
      requires WellKeyed(Abs()) && part in parts
      modifies this
      ensures Abs() == AddCauses(old(Abs()), part, ids)
      ensures WellKeyed(Abs()) && part in parts
      ensures old(Valid()) ==> Valid()
    {
      ghost var g0 := Abs();
      if Valid() {
        AddCausesValid(g0, part, ids);
      }
      var i := 0;
      while i < |ids|
        invariant 0 <= i <= |ids|
        invariant Abs() == AddCauses(g0, part, ids[..i])
        invariant WellKeyed(Abs()) && part in parts
      {
        LinkOneCause(part, ids[i]);
        AddCausesNext(g0, part, ids, i);
        i := i + 1;
      }
      assert ids[..i] == ids;
    }

    /** One iteration of add_part_caused_bys: `id` becomes a cause of `part`. */
    method LinkOneCausedBy(part: Id, id: Id)
      requires WellKeyed(Abs()) && part in parts
      modifies this
      ensures Abs() == LinkCausedBy(old(Abs()), part, id)
      ensures WellKeyed(Abs()) && part in parts
    {
      LinkCausedByFacts(Abs(), part, id);
      CreateIfMissing(id);
      AddCausedBy(part, id);
      AddCause(id, part);
    }

    /** add_part_caused_bys: every id of `ids` becomes a cause of `part`. */
    method AddPartCausedBys(part: Id, ids: seq<Id>)
      requires WellKeyed(Abs()) && part in parts
      modifies this
      ensures Abs() == AddCausedBys(old(Abs()), part, ids)
      ensures WellKeyed(Abs()) && part in parts
      ensures old(Valid()) ==> Valid()
    {
      ghost var g0 := Abs();
      if Valid() {
        AddCausedBysValid(g0, part, ids);
      }
      var i := 0;
      while i < |ids|
        invariant 0 <= i <= |ids|
        invariant Abs() == AddCausedBys(g0, part, ids[..i])
        invariant WellKeyed(Abs()) && part in parts
      {
        LinkOneCausedBy(part, ids[i]);
        AddCausedBysNext(g0, part, ids, i);
        i := i + 1;
      }
      assert ids[..i] == ids;
    }

    /**
     * add_part_full: create `part` if needed, then link the parts it causes,
     * then the parts it is caused by.
     */
    method AddPartFull(part: Id, causedByIds: seq<Id>, causesIds: seq<Id>)
      requires Valid()
      modifies this
      ensures Abs() == AddFull(old(Abs()), part, causedByIds, causesIds) && Valid()
    {
      CreateIfMissing(part);
      AddPartCauses(part, causesIds);
      AddPartCausedBys(part, causedByIds);
      AddFullValid(old(Abs()), part, causedByIds, causesIds);
    }

    /** The parts not yet in the accumulator: shrinks with every recursive call. */
    ghost function Unvisited(acc: seq<Id>): set<Id>
      reads this
    {
      set x | x in parts && x !in acc
    }

    /**
     * find_all_causes_for_part: depth-first walk over the caused-by lists that
     * appends `id` and then, recursively, each cause not yet accumulated. The
     * source threads one shared list through the recursion; here the list is
     * passed in and the extended list returned.
     */
    method FindAllCausesForPart(id: Id, acc: seq<Id>) returns (r: seq<Id>)
      requires Valid()
      requires id in parts && id !in acc
      requires Distinct(acc) && forall x :: x in acc ==> x in parts
      ensures acc <= r && |acc| < |r| && r[|acc|] == id
      ensures Distinct(r) && forall x :: x in r ==> x in parts
      ensures forall k :: |acc| <= k < |r| ==> CanCause(Abs(), r[k], id)
      ensures forall k, c :: |acc| <= k < |r| && Has(causedBy, r[k], c) ==> c in r
      ensures acc == [] ==> forall x :: x in r <==> CanCause(Abs(), x, id)
      decreases Unvisited(acc)
    {
      r := acc + [id];
      ReachesRefl(CauseEdges(Abs()), id);
      var preds := causedBy[id];
      var j := 0;
      while j < |preds|
        invariant 0 <= j <= |preds|
        invariant acc <= r && |acc| < |r| && r[|acc|] == id
        invariant Distinct(r) && forall x :: x in r ==> x in parts
        invariant forall k :: |acc| <= k < |r| ==> CanCause(Abs(), r[k], id)
        invariant forall k, c :: |acc| < k < |r| && Has(causedBy, r[k], c) ==> c in r
        invariant forall i :: 0 <= i < j ==> preds[i] in r
      {
        var c := preds[j];
        var excluded := Contains(r, c);
        if !excluded {
          assert Has(causes, c, id);
          assert Unvisited(r) < Unvisited(acc) by {
            assert forall x :: x in acc ==> x in r;
            assert id in Unvisited(acc) && id !in Unvisited(r);
          }
          var before := r;
          r := FindAllCausesForPart(c, r);
          ClosureGrows(Abs(), id, c, acc, before, r);
        }
        j := j + 1;
      }
      if acc == [] {
        CauseClosedListComplete(Abs(), r, id);
      }
    }

    /**
     * One pass of the first loop of find_points_of_failure_from_observerables:
     * keep the candidates in the cause-closure of the failing indicator `f`.
     */
    method KeepCausesOf(r: seq<Id>, f: Id) returns (r': seq<Id>)
      requires Valid() && f in parts
      ensures Distinct(r')
      ensures forall x :: x in r' <==> x in r && CanCause(Abs(), x, f)
    {
      var closure := FindAllCausesForPart(f, []);
      r' := AnyOrder(Elements(closure) * Elements(r));
    }

    /**
     * One pass of the second loop of find_points_of_failure_from_observerables:
     * drop the candidates in the cause-closure of the working indicator `w`.
     */
    method DropCausesOf(r: seq<Id>, w: Id) returns (r': seq<Id>)
      requires Valid() && w in parts
      ensures Distinct(r')
      ensures forall x :: x in r' <==> x in r && !CanCause(Abs(), x, w)
    {
      var closure := FindAllCausesForPart(w, []);
      r' := AnyOrder(Elements(r) - Elements(closure));
    }

    /**
     * find_points_of_failure_from_observerables: start from every part id,
     * keep those in the cause-closure of each failing indicator, then drop
     * those in the cause-closure of any working indicator.
     */
    method FindPointsOfFailure(working: seq<Id>, failing: seq<Id>) returns (r: seq<Id>)
      requires Valid()
      requires forall x :: x in working ==> x in parts
      requires forall x :: x in failing ==> x in parts
      ensures Distinct(r)
      ensures forall x :: x in r <==> IsCandidate(Abs(), working, failing, x)
      ensures working == [] && failing == [] ==> r == parts
    {
      r := parts;
      var i := 0;
      while i < |failing|
        invariant 0 <= i <= |failing|
        invariant Distinct(r)
        invariant forall x :: x in r <==> IsCandidate(Abs(), [], failing[..i], x)
        invariant i == 0 ==> r == parts
      {
        r := KeepCausesOf(r, failing[i]);
        forall x
          ensures x in r <==> IsCandidate(Abs(), [], failing[..i + 1], x)
        {
          CandidatesNextFailing(Abs(), [], failing, i, x);
        }
        i := i + 1;
      }
      assert failing[..i] == failing;
      var j := 0;
      while j < |working|
        invariant 0 <= j <= |working|
        invariant Distinct(r)
        invariant forall x :: x in r <==> IsCandidate(Abs(), working[..j], failing, x)
        invariant failing == [] && j == 0 ==> r == parts
      {
        r := DropCausesOf(r, working[j]);
        forall x
          ensures x in r <==> IsCandidate(Abs(), working[..j + 1], failing, x)
        {
          CandidatesNextWorking(Abs(), working, failing, j, x);
        }
        j := j + 1;
      }
      assert working[..j] == working;
    }
  }

  /**
   * After the recursive call on `c`, a cause of `id`, the closure built so far
   * still holds only parts that can cause `id`, and stays closed past `acc`.
   */
  lemma ClosureGrows(g: Graph, id: Id, c: Id, acc: seq<Id>, before: seq<Id>, r: seq<Id>)
    requires Has(g.causedBy, id, c)
    requires acc <= before && before <= r
    requires forall k :: |acc| <= k < |before| ==> CanCause(g, before[k], id)
    requires forall k, c' :: |acc| < k < |before| && Has(g.causedBy, before[k], c') ==> c' in before
    requires forall k :: |before| <= k < |r| ==> CanCause(g, r[k], c)
    requires forall k, c' :: |before| <= k < |r| && Has(g.causedBy, r[k], c') ==> c' in r
    ensures forall k :: |acc| <= k < |r| ==> CanCause(g, r[k], id)
    ensures forall k, c' :: |acc| < k < |r| && Has(g.causedBy, r[k], c') ==> c' in r
  {
    forall k | |acc| <= k < |r|
      ensures CanCause(g, r[k], id)
    {
      if k >= |before| {
        CanCauseThrough(g, id, c, r[k]);
      } else {
        assert r[k] == before[k];
      }
    }
    forall k, c' | |acc| < k < |r| && Has(g.causedBy, r[k], c')
      ensures c' in r
    {
      if k < |before| {
        assert r[k] == before[k];
        assert c' in before;
        assert before == r[..|before|];
      }
    }
  }
}
