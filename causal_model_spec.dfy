/**
 * The causal model as a value. A part is represented by its id: every part
 * is created behind a lookup by id, so ids are unique and an id names exactly
 * one part. `causes[x]` is the list of parts x can make fail and
 * `causedBy[x]` the list of parts that can make x fail, both in the order in
 * which the edges were declared.
 *
 * The functions here are the specification of the in-place operations of
 * `CausalGraphStructure.CausalModel`; the lemmas state what the source
 * promises about them.
 */
module CausalModelSpec {
  import opened Common
  import opened Reachability

  type Id = string
  type Adjacency = map<Id, seq<Id>>

  datatype Graph = Graph(parts: seq<Id>, causes: Adjacency, causedBy: Adjacency)

  const Empty: Graph := Graph([], map[], map[])

  /** `y` is listed in `adj[x]`. */
  predicate Has(adj: Adjacency, x: Id, y: Id) {
    x in adj && y in adj[x]
  }

  /** Every part, and only a part, owns both adjacency lists. */
  ghost predicate WellKeyed(g: Graph) {
    (forall x :: x in g.causes <==> x in g.parts)
    && (forall x :: x in g.causedBy <==> x in g.parts)
  }

  /**
   * The invariant the building operations keep: ids unique, no list holds a
   * duplicate, every listed id is a part, and the two lists are mirror images.
   */
  ghost predicate Valid(g: Graph) {
    WellKeyed(g)
    && Distinct(g.parts)
    && (forall x :: x in g.causes ==> Distinct(g.causes[x]))
    && (forall x :: x in g.causedBy ==> Distinct(g.causedBy[x]))
    && (forall x, y :: Has(g.causes, x, y) ==> y in g.parts)
    && (forall x, y :: Has(g.causes, x, y) <==> Has(g.causedBy, y, x))
  }

  lemma EmptyValid()
    ensures Valid(Empty)
  {
  }

  // ---------------------------------------------------------------------------
  // Duplicate-suppressing append (CausalPart.add_cause / add_caused_by)

  /** Append `x` unless it is already listed. */
  function AddUnique(list: seq<Id>, x: Id): (r: seq<Id>)
    ensures x in r
    ensures forall y :: y in r <==> y in list || y == x
    ensures list <= r && |r| <= |list| + 1
    ensures Distinct(list) ==> Distinct(r)
  {
    if x in list then list else list + [x]
  }

  /** A second identical append changes nothing. */
  lemma AddUniqueIdempotent(list: seq<Id>, x: Id)
    ensures AddUnique(AddUnique(list, x), x) == AddUnique(list, x)
  {
  }

  /** `AddUnique` applied to each of `xs` in turn. */
  function AddAll(list: seq<Id>, xs: seq<Id>): (r: seq<Id>)
    ensures forall y :: y in r <==> y in list || y in xs
    ensures list <= r
    ensures Distinct(list) ==> Distinct(r)
    decreases |xs|
  {
    if xs == [] then list else AddUnique(AddAll(list, xs[..|xs| - 1]), xs[|xs| - 1])
  }

  lemma {:induction false} AddAllConcat(list: seq<Id>, xs: seq<Id>, ys: seq<Id>)
    ensures AddAll(AddAll(list, xs), ys) == AddAll(list, xs + ys)
    decreases |ys|
  {
    if ys == [] {
      assert xs + ys == xs;
    } else {
      var init := ys[..|ys| - 1];
      AddAllConcat(list, xs, init);
      assert (xs + ys)[..|xs + ys| - 1] == xs + init;
    }
  }

  // ---------------------------------------------------------------------------
  // Building the graph (CausalModel.add_part_full and its helpers)

  /** The list `adj` holds for `x`; a part always has one (see `WellKeyed`). */
  function Lookup(adj: Adjacency, x: Id): seq<Id> {
    if x in adj then adj[x] else []
  }

  /** Create `id` as a part with no edges unless it already exists. */
  function EnsurePart(g: Graph, id: Id): Graph {
    if id in g.parts then g
    else Graph(g.parts + [id], g.causes[id := []], g.causedBy[id := []])
  }

  /** One iteration of add_part_causes: `c` joins p's causes, `p` joins c's caused-by list. */
  function LinkCause(g: Graph, p: Id, c: Id): Graph {
    var h := EnsurePart(g, c);
    Graph(h.parts,
          h.causes[p := AddUnique(Lookup(h.causes, p), c)],
          h.causedBy[c := AddUnique(Lookup(h.causedBy, c), p)])
  }

  /**
   * One iteration of add_part_caused_bys: `b` joins p's caused-by list and `p`
   * joins b's causes. These are exactly the two list updates of linking `p`
   * as something `b` causes, once `b` exists.
   */
  function LinkCausedBy(g: Graph, p: Id, b: Id): Graph {
    LinkCause(EnsurePart(g, b), b, p)
  }

  /** add_part_causes: link every id of `cs` as something `p` causes, in order. */
  function AddCauses(g: Graph, p: Id, cs: seq<Id>): Graph
    decreases |cs|
  {
    if cs == [] then g
    else LinkCause(AddCauses(g, p, cs[..|cs| - 1]), p, cs[|cs| - 1])
  }

  /** add_part_caused_bys: link every id of `cbs` as a cause of `p`, in order. */
  function AddCausedBys(g: Graph, p: Id, cbs: seq<Id>): Graph
    decreases |cbs|
  {
    if cbs == [] then g
    else LinkCausedBy(AddCausedBys(g, p, cbs[..|cbs| - 1]), p, cbs[|cbs| - 1])
  }

  /** The fold over a prefix one longer is one more link. */
  lemma AddCausesNext(g: Graph, p: Id, cs: seq<Id>, i: nat)
    requires i < |cs|
    ensures AddCauses(g, p, cs[..i + 1]) == LinkCause(AddCauses(g, p, cs[..i]), p, cs[i])
  {
    assert cs[..i + 1][..i] == cs[..i];
  }

  lemma AddCausedBysNext(g: Graph, p: Id, cbs: seq<Id>, i: nat)
    requires i < |cbs|
    ensures AddCausedBys(g, p, cbs[..i + 1]) == LinkCausedBy(AddCausedBys(g, p, cbs[..i]), p, cbs[i])
  {
    assert cbs[..i + 1][..i] == cbs[..i];
  }

  /**
   * add_part_full: declare `p` together with the parts it is caused by and
   * the parts it causes; unknown ids are created as empty parts.
   */
  function AddFull(g: Graph, p: Id, cbs: seq<Id>, cs: seq<Id>): Graph {
    AddCausedBys(AddCauses(EnsurePart(g, p), p, cs), p, cbs)
  }

  /**
   * Creating a part appends its id once, gives it two empty lists and changes
   * no existing list.
   */
  lemma EnsurePartFacts(g: Graph, id: Id)
    requires WellKeyed(g)
    ensures var r := EnsurePart(g, id);
      WellKeyed(r) && r.parts == AddUnique(g.parts, id)
      && (id !in g.parts ==> r.causes[id] == [] && r.causedBy[id] == [])
      && (forall x :: x in g.causes ==> r.causes[x] == g.causes[x])
      && (forall x :: x in g.causedBy ==> r.causedBy[x] == g.causedBy[x])
      && (forall x, y :: Has(r.causes, x, y) <==> Has(g.causes, x, y))
      && (forall x, y :: Has(r.causedBy, x, y) <==> Has(g.causedBy, x, y))
  {
  }

  lemma EnsurePartValid(g: Graph, id: Id)
    requires Valid(g)
    ensures Valid(EnsurePart(g, id))
  {
    EnsurePartFacts(g, id);
  }

  /** Linking adds the edge p -> c, in both directions, and nothing else. */
  lemma LinkCauseFacts(g: Graph, p: Id, c: Id)
    requires WellKeyed(g) && p in g.parts
    ensures var r := LinkCause(g, p, c);
      WellKeyed(r) && r.parts == AddUnique(g.parts, c)
      && (forall x, y :: Has(r.causes, x, y) <==> Has(g.causes, x, y) || (x == p && y == c))
      && (forall x, y :: Has(r.causedBy, x, y) <==> Has(g.causedBy, x, y) || (x == c && y == p))
  {
    EnsurePartFacts(g, c);
  }

  /** Linking two existing parts keeps the graph valid. */
  lemma LinkExistingValid(g: Graph, p: Id, c: Id)
    requires Valid(g) && p in g.parts && c in g.parts
    ensures Valid(LinkCause(g, p, c))
  {
    var causes' := g.causes[p := AddUnique(g.causes[p], c)];
    var causedBy' := g.causedBy[c := AddUnique(g.causedBy[c], p)];
    assert LinkCause(g, p, c) == Graph(g.parts, causes', causedBy');
    forall x | x in causes'
      ensures Distinct(causes'[x])
    {
      if x != p { assert causes'[x] == g.causes[x]; }
    }
    forall x | x in causedBy'
      ensures Distinct(causedBy'[x])
    {
      if x != c { assert causedBy'[x] == g.causedBy[x]; }
    }
    forall x, y
      ensures Has(causes', x, y) <==> Has(g.causes, x, y) || (x == p && y == c)
      ensures Has(causedBy', x, y) <==> Has(g.causedBy, x, y) || (x == c && y == p)
    {
    }
  }

  /** Linking one cause keeps ids unique, lists duplicate-free and edges mirrored. */
  lemma LinkCauseValid(g: Graph, p: Id, c: Id)
    requires Valid(g) && p in g.parts
    ensures Valid(LinkCause(g, p, c))
  {
    var h := EnsurePart(g, c);
    EnsurePartValid(g, c);
    EnsurePartFacts(g, c);
    assert LinkCause(g, p, c) == LinkCause(h, p, c);
    LinkExistingValid(h, p, c);
  }

  lemma LinkCausedByFacts(g: Graph, p: Id, b: Id)
    requires WellKeyed(g) && p in g.parts
    ensures var r := LinkCausedBy(g, p, b);
      WellKeyed(r) && r.parts == AddUnique(g.parts, b)
      && (forall x, y :: Has(r.causedBy, x, y) <==> Has(g.causedBy, x, y) || (x == p && y == b))
      && (forall x, y :: Has(r.causes, x, y) <==> Has(g.causes, x, y) || (x == b && y == p))
  {
    EnsurePartFacts(g, b);
    LinkCauseFacts(EnsurePart(g, b), b, p);
  }

  lemma LinkCausedByValid(g: Graph, p: Id, b: Id)
    requires Valid(g) && p in g.parts
    ensures Valid(LinkCausedBy(g, p, b))
  {
    EnsurePartValid(g, b);
    EnsurePartFacts(g, b);
    LinkCauseValid(EnsurePart(g, b), b, p);
  }

  /** add_part_causes adds exactly the edges p -> c for c in `cs`, both ways. */
  lemma {:induction false} AddCausesFacts(g: Graph, p: Id, cs: seq<Id>)
    requires WellKeyed(g) && p in g.parts
    ensures var r := AddCauses(g, p, cs);
      WellKeyed(r) && r.parts == AddAll(g.parts, cs)
      && (forall x, y :: Has(r.causes, x, y) <==> Has(g.causes, x, y) || (x == p && y in cs))
      && (forall x, y :: Has(r.causedBy, x, y) <==> Has(g.causedBy, x, y) || (y == p && x in cs))
    decreases |cs|
  {
    if cs != [] {
      var init, last := cs[..|cs| - 1], cs[|cs| - 1];
      var prev := AddCauses(g, p, init);
      var r := AddCauses(g, p, cs);
      assert r == LinkCause(prev, p, last);
      AddCausesFacts(g, p, init);
      LinkCauseFacts(prev, p, last);
      forall x, y
        ensures Has(r.causes, x, y) <==> Has(g.causes, x, y) || (x == p && y in cs)
        ensures Has(r.causedBy, x, y) <==> Has(g.causedBy, x, y) || (y == p && x in cs)
      {
        assert Has(r.causes, x, y) <==> Has(prev.causes, x, y) || (x == p && y == last);
        assert Has(r.causedBy, x, y) <==> Has(prev.causedBy, x, y) || (x == last && y == p);
        assert Has(prev.causes, x, y) <==> Has(g.causes, x, y) || (x == p && y in init);
        assert Has(prev.causedBy, x, y) <==> Has(g.causedBy, x, y) || (y == p && x in init);
      }
    }
  }

  lemma {:induction false} AddCausesValid(g: Graph, p: Id, cs: seq<Id>)
    requires Valid(g) && p in g.parts
    ensures Valid(AddCauses(g, p, cs))
    decreases |cs|
  {
    if cs != [] {
      var init := cs[..|cs| - 1];
      AddCausesValid(g, p, init);
      AddCausesFacts(g, p, init);
      LinkCauseValid(AddCauses(g, p, init), p, cs[|cs| - 1]);
    }
  }

  /** add_part_caused_bys adds exactly the edges b -> p for b in `cbs`, both ways. */
  lemma {:induction false} AddCausedBysFacts(g: Graph, p: Id, cbs: seq<Id>)
    requires WellKeyed(g) && p in g.parts
    ensures var r := AddCausedBys(g, p, cbs);
      WellKeyed(r) && r.parts == AddAll(g.parts, cbs)
      && (forall x, y :: Has(r.causedBy, x, y) <==> Has(g.causedBy, x, y) || (x == p && y in cbs))
      && (forall x, y :: Has(r.causes, x, y) <==> Has(g.causes, x, y) || (y == p && x in cbs))
    decreases |cbs|
  {
    if cbs != [] {
      var init, last := cbs[..|cbs| - 1], cbs[|cbs| - 1];
      var prev := AddCausedBys(g, p, init);
      var r := AddCausedBys(g, p, cbs);
      assert r == LinkCausedBy(prev, p, last);
      AddCausedBysFacts(g, p, init);
      LinkCausedByFacts(prev, p, last);
      forall x, y
        ensures Has(r.causedBy, x, y) <==> Has(g.causedBy, x, y) || (x == p && y in cbs)
        ensures Has(r.causes, x, y) <==> Has(g.causes, x, y) || (y == p && x in cbs)
      {
        assert Has(r.causedBy, x, y) <==> Has(prev.causedBy, x, y) || (x == p && y == last);
        assert Has(r.causes, x, y) <==> Has(prev.causes, x, y) || (x == last && y == p);
        assert Has(prev.causedBy, x, y) <==> Has(g.causedBy, x, y) || (x == p && y in init);
        assert Has(prev.causes, x, y) <==> Has(g.causes, x, y) || (y == p && x in init);
      }
    }
  }

  lemma {:induction false} AddCausedBysValid(g: Graph, p: Id, cbs: seq<Id>)
    requires Valid(g) && p in g.parts
    ensures Valid(AddCausedBys(g, p, cbs))
    decreases |cbs|
  {
    if cbs != [] {
      var init := cbs[..|cbs| - 1];
      AddCausedBysValid(g, p, init);
      AddCausedBysFacts(g, p, init);
      LinkCausedByValid(AddCausedBys(g, p, init), p, cbs[|cbs| - 1]);
    }
  }

  /**
   * add_part_full adds exactly the declared edges, each in both directions:
   * p -> c for every c it causes and b -> p for every b it is caused by.
   */
  lemma AddFullEdges(g: Graph, p: Id, cbs: seq<Id>, cs: seq<Id>)
    requires WellKeyed(g)
    ensures var r := AddFull(g, p, cbs, cs);
      (forall x, y :: Has(r.causes, x, y) <==>
           Has(g.causes, x, y) || (x == p && y in cs) || (y == p && x in cbs))
      && (forall x, y :: Has(r.causedBy, x, y) <==>
           Has(g.causedBy, x, y) || (x == p && y in cbs) || (y == p && x in cs))
  {
    var h := EnsurePart(g, p);
    var k := AddCauses(h, p, cs);
    var r := AddFull(g, p, cbs, cs);
    assert r == AddCausedBys(k, p, cbs);
    EnsurePartFacts(g, p);
    AddCausesFacts(h, p, cs);
    AddCausedBysFacts(k, p, cbs);
    forall x, y
      ensures Has(r.causes, x, y) <==>
        Has(g.causes, x, y) || (x == p && y in cs) || (y == p && x in cbs)
      ensures Has(r.causedBy, x, y) <==>
        Has(g.causedBy, x, y) || (x == p && y in cbs) || (y == p && x in cs)
    {
      assert Has(r.causes, x, y) <==> Has(k.causes, x, y) || (y == p && x in cbs);
      assert Has(r.causedBy, x, y) <==> Has(k.causedBy, x, y) || (x == p && y in cbs);
      assert Has(k.causes, x, y) <==> Has(h.causes, x, y) || (x == p && y in cs);
      assert Has(k.causedBy, x, y) <==> Has(h.causedBy, x, y) || (y == p && x in cs);
    }
  }

  /** add_part_full keeps ids unique, lists duplicate-free and edges mirrored. */
  lemma AddFullValid(g: Graph, p: Id, cbs: seq<Id>, cs: seq<Id>)
    requires Valid(g)
    ensures Valid(AddFull(g, p, cbs, cs))
  {
    var h := EnsurePart(g, p);
    EnsurePartValid(g, p);
    EnsurePartFacts(g, p);
    AddCausesValid(h, p, cs);
    AddCausesFacts(h, p, cs);
    AddCausedBysValid(AddCauses(h, p, cs), p, cbs);
  }

  /**
   * New parts are appended in first-mention order: `p`, then the ids it
   * causes, then the ids it is caused by, each only if not yet a part.
   */
  lemma AddFullParts(g: Graph, p: Id, cbs: seq<Id>, cs: seq<Id>)
    requires WellKeyed(g)
    ensures var r := AddFull(g, p, cbs, cs);
      WellKeyed(r)
      && r.parts == AddAll(g.parts, [p] + cs + cbs)
      && g.parts <= r.parts
      && (forall y :: y in r.parts <==> y in g.parts || y == p || y in cs || y in cbs)
  {
    assert AddAll(g.parts, [p]) == AddUnique(g.parts, p) by {
      assert [p][..0] == [];
    }
    var h := EnsurePart(g, p);
    EnsurePartFacts(g, p);
    AddCausesFacts(h, p, cs);
    AddCausedBysFacts(AddCauses(h, p, cs), p, cbs);
    AddAllConcat(g.parts, [p], cs);
    AddAllConcat(g.parts, [p] + cs, cbs);
  }

  // ---------------------------------------------------------------------------
  // Root-cause inference (find_all_causes_for_part, find_points_of_failure_from_observerables)

  /** Edge (x, y): y is listed among the parts that can make x fail. */
  ghost function CauseEdges(g: Graph): set<(Id, Id)> {
    set x, y | x in g.causedBy && y in g.causedBy[x] :: (x, y)
  }

  lemma CauseEdgesHas(g: Graph, x: Id, y: Id)
    ensures (x, y) in CauseEdges(g) <==> Has(g.causedBy, x, y)
  {
    if Has(g.causedBy, x, y) {
      assert (x, y) in CauseEdges(g);
    }
  }

  /** `x` could, directly or through other parts, have made `f` fail. */
  ghost predicate CanCause(g: Graph, x: Id, f: Id) {
    Reaches(CauseEdges(g), f, x)
  }

  /** A cause of one of f's direct causes is a cause of `f`. */
  lemma CanCauseThrough(g: Graph, f: Id, c: Id, x: Id)
    requires Has(g.causedBy, f, c) && CanCause(g, x, c)
    ensures CanCause(g, x, f)
  {
    CauseEdgesHas(g, f, c);
    ReachesPrepend(CauseEdges(g), f, c, x);
  }

  /**
   * A list that holds `f` and, with each of its parts, every direct cause of
   * that part, holds every part that can cause `f`.
   */
  lemma CauseClosedListComplete(g: Graph, list: seq<Id>, f: Id)
    requires f in list
    requires forall k, c :: 0 <= k < |list| && Has(g.causedBy, list[k], c) ==> c in list
    ensures forall x :: CanCause(g, x, f) ==> x in list
  {
    var s := set x | x in list;
    forall y, z | y in s && (y, z) in CauseEdges(g)
      ensures z in s
    {
      CauseEdgesHas(g, y, z);
    }
    forall x | CanCause(g, x, f)
      ensures x in list
    {
      ClosedContainsReachable(CauseEdges(g), s, f, x);
    }
  }

  /**
   * `x` is a root-cause candidate for the observation: a part that could
   * explain every failing indicator and would not have broken any working one.
   */
  ghost predicate IsCandidate(g: Graph, working: seq<Id>, failing: seq<Id>, x: Id) {
    x in g.parts
    && (forall f :: f in failing ==> CanCause(g, x, f))
    && (forall w :: w in working ==> !CanCause(g, x, w))
  }

  /** With no observation at all, every part is a candidate. */
  lemma NoObservationAllCandidates(g: Graph, x: Id)
    ensures IsCandidate(g, [], [], x) <==> x in g.parts
  {
  }

  /**
   * Monotonicity: an observation that contains another (as sets of working and
   * failing indicators) never admits more candidates.
   */
  lemma CandidatesMonotone(g: Graph, working: seq<Id>, failing: seq<Id>,
                           working': seq<Id>, failing': seq<Id>, x: Id)
    requires forall w :: w in working ==> w in working'
    requires forall f :: f in failing ==> f in failing'
    ensures IsCandidate(g, working', failing', x) ==> IsCandidate(g, working, failing, x)
  {
  }

  /**
   * Taking the failing indicators one at a time: the next one keeps exactly
   * the candidates that can cause it.
   */
  lemma CandidatesNextFailing(g: Graph, working: seq<Id>, failing: seq<Id>, i: nat, x: Id)
    requires i < |failing|
    ensures IsCandidate(g, working, failing[..i + 1], x)
      <==> IsCandidate(g, working, failing[..i], x) && CanCause(g, x, failing[i])
  {
    assert forall f :: f in failing[..i + 1] <==> f in failing[..i] || f == failing[i];
  }

  /**
   * Taking the working indicators one at a time: the next one drops exactly
   * the candidates that can cause it.
   */
  lemma CandidatesNextWorking(g: Graph, working: seq<Id>, failing: seq<Id>, j: nat, x: Id)
    requires j < |working|
    ensures IsCandidate(g, working[..j + 1], failing, x)
      <==> IsCandidate(g, working[..j], failing, x) && !CanCause(g, x, working[j])
  {
    assert forall w :: w in working[..j + 1] <==> w in working[..j] || w == working[j];
  }
}
