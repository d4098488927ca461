/**
 * The eight-declaration circuit the source builds at module level (three
 * supplies R1..R3, two lamps L1, L2 and three currents i1..i3), and the
 * root-cause query it runs on it: lamp L1 is out while lamp L2 is lit.
 */
module CausalModelFixture {
  import opened Common
  import opened Reachability
  import opened CausalModelSpec
  import opened CausalGraphStructure

  /** One add_part_full call: the part, the ids it is caused by, the ids it causes. */
  datatype Decl = Decl(part: Id, causedBys: seq<Id>, causes: seq<Id>)

  /** The model a sequence of add_part_full calls builds from an empty model. */
  function Build(ds: seq<Decl>): Graph
    decreases |ds|
  {
    if ds == [] then Empty
    else
      var d := ds[|ds| - 1];
      AddFull(Build(ds[..|ds| - 1]), d.part, d.causedBys, d.causes)
  }

  /** Declaration `d` lists `y` as something that can make `x` fail. */
  predicate DeclaresCause(d: Decl, x: Id, y: Id) {
    (x == d.part && y in d.causedBys) || (y == d.part && x in d.causes)
  }

  /** Declaration `d` names `y`. */
  predicate Mentions(d: Decl, y: Id) {
    y == d.part || y in d.causedBys || y in d.causes
  }

  /** A model built only by add_part_full calls is valid. */
  lemma {:induction false} BuildValid(ds: seq<Decl>)
    ensures Valid(Build(ds))
    decreases |ds|
  {
    if ds == [] {
      EmptyValid();
    } else {
      var d := ds[|ds| - 1];
      BuildValid(ds[..|ds| - 1]);
      AddFullValid(Build(ds[..|ds| - 1]), d.part, d.causedBys, d.causes);
    }
  }

  lemma BuildWellKeyed(ds: seq<Decl>)
    ensures WellKeyed(Build(ds))
  {
    BuildValid(ds);
  }

  /** The parts of a model built by add_part_full calls are exactly the ids the calls name. */
  lemma {:induction false} BuildParts(ds: seq<Decl>)
    ensures forall y :: y in Build(ds).parts <==> exists k :: 0 <= k < |ds| && Mentions(ds[k], y)
    decreases |ds|
  {
    if ds != [] {
      var init, d := ds[..|ds| - 1], ds[|ds| - 1];
      assert ds == init + [d];
      BuildWellKeyed(init);
      BuildParts(init);
      BuildPartsStep(init, d);
    }
  }

  lemma BuildPartsStep(init: seq<Decl>, d: Decl)
    requires WellKeyed(Build(init))
    requires forall y :: y in Build(init).parts <==> exists k :: 0 <= k < |init| && Mentions(init[k], y)
    ensures forall y ::
      y in Build(init + [d]).parts <==> exists k :: 0 <= k < |init + [d]| && Mentions((init + [d])[k], y)
  {
    assert (init + [d])[..|init|] == init;
    AddFullParts(Build(init), d.part, d.causedBys, d.causes);
    forall y
      ensures y in Build(init + [d]).parts <==> exists k :: 0 <= k < |init + [d]| && Mentions((init + [d])[k], y)
    {
      MentionsSplit(init, d, y);
    }
  }

  /** An id is named by some call of `init + [d]` iff by some call of `init` or by `d`. */
  lemma MentionsSplit(init: seq<Decl>, d: Decl, y: Id)
    ensures (exists k :: 0 <= k < |init + [d]| && Mentions((init + [d])[k], y))
        <==> (exists k :: 0 <= k < |init| && Mentions(init[k], y)) || Mentions(d, y)
  {
    var ds := init + [d];
    if exists k :: 0 <= k < |ds| && Mentions(ds[k], y) {
      var k :| 0 <= k < |ds| && Mentions(ds[k], y);
      if k < |init| {
        assert init[k] == ds[k];
      }
    }
    if exists k :: 0 <= k < |init| && Mentions(init[k], y) {
      var k :| 0 <= k < |init| && Mentions(init[k], y);
      assert ds[k] == init[k];
    }
    assert ds[|init|] == d;
  }

  /**
   * The caused-by lists of a model built by add_part_full calls hold exactly
   * the declared cause relations, whichever call declared them.
   */
  lemma {:induction false} BuildCausedBy(ds: seq<Decl>)
    ensures forall x, y :: Has(Build(ds).causedBy, x, y) <==> exists k :: 0 <= k < |ds| && DeclaresCause(ds[k], x, y)
    decreases |ds|
  {
    if ds != [] {
      var init, d := ds[..|ds| - 1], ds[|ds| - 1];
      assert ds == init + [d];
      BuildWellKeyed(init);
      BuildCausedBy(init);
      BuildCausedByStep(init, d);
    }
  }

  lemma BuildCausedByStep(init: seq<Decl>, d: Decl)
    requires WellKeyed(Build(init))
    requires forall x, y :: Has(Build(init).causedBy, x, y) <==> exists k :: 0 <= k < |init| && DeclaresCause(init[k], x, y)
    ensures forall x, y ::
      Has(Build(init + [d]).causedBy, x, y) <==> exists k :: 0 <= k < |init + [d]| && DeclaresCause((init + [d])[k], x, y)
  {
    assert (init + [d])[..|init|] == init;
    AddFullEdges(Build(init), d.part, d.causedBys, d.causes);
    forall x, y
      ensures Has(Build(init + [d]).causedBy, x, y)
        <==> exists k :: 0 <= k < |init + [d]| && DeclaresCause((init + [d])[k], x, y)
    {
      DeclaresCauseSplit(init, d, x, y);
    }
  }

  /** A cause is declared by some call of `init + [d]` iff by some call of `init` or by `d`. */
  lemma DeclaresCauseSplit(init: seq<Decl>, d: Decl, x: Id, y: Id)
    ensures (exists k :: 0 <= k < |init + [d]| && DeclaresCause((init + [d])[k], x, y))
        <==> (exists k :: 0 <= k < |init| && DeclaresCause(init[k], x, y)) || DeclaresCause(d, x, y)
  {
    var ds := init + [d];
    if exists k :: 0 <= k < |ds| && DeclaresCause(ds[k], x, y) {
      var k :| 0 <= k < |ds| && DeclaresCause(ds[k], x, y);
      if k < |init| {
        assert init[k] == ds[k];
      }
    }
    if exists k :: 0 <= k < |init| && DeclaresCause(init[k], x, y) {
      var k :| 0 <= k < |init| && DeclaresCause(init[k], x, y);
      assert ds[k] == init[k];
    }
    assert ds[|init|] == d;
  }

  /** The declarations of causal_graph_structure.py, in order. */
  const Circuit: seq<Decl> := [
    Decl("R1", [], ["i1"]),
    Decl("R2", [], ["i2"]),
    Decl("R3", [], ["i3"]),
    Decl("L1", ["i1"], ["i1"]),
    Decl("L2", ["i2"], ["i2"]),
    Decl("i1", ["L1", "R1"], ["L1"]),
    Decl("i2", ["L2", "R2"], ["L2"]),
    Decl("i3", [], ["i1", "i2"])
  ]

  /** Pairs (x, y) with y a declared cause of x in the circuit. */
  const CircuitCauses: set<(Id, Id)> := {
    ("i1", "R1"), ("i2", "R2"), ("i3", "R3"),
    ("L1", "i1"), ("i1", "L1"), ("L2", "i2"), ("i2", "L2"),
    ("i1", "i3"), ("i2", "i3")
  }

  lemma CircuitDeclaresCause(x: Id, y: Id)
    ensures (exists k :: 0 <= k < |Circuit| && DeclaresCause(Circuit[k], x, y)) <==> (x, y) in CircuitCauses
  {
    if (x, y) in CircuitCauses {
      if (x, y) == ("i1", "R1") { assert DeclaresCause(Circuit[0], x, y); }
      else if (x, y) == ("i2", "R2") { assert DeclaresCause(Circuit[1], x, y); }
      else if (x, y) == ("i3", "R3") { assert DeclaresCause(Circuit[2], x, y); }
      else if (x, y) == ("L1", "i1") { assert DeclaresCause(Circuit[3], x, y); }
      else if (x, y) == ("i1", "L1") { assert DeclaresCause(Circuit[3], x, y); }
      else if (x, y) == ("L2", "i2") { assert DeclaresCause(Circuit[4], x, y); }
      else if (x, y) == ("i2", "L2") { assert DeclaresCause(Circuit[4], x, y); }
      else if (x, y) == ("i1", "i3") { assert DeclaresCause(Circuit[7], x, y); }
      else { assert DeclaresCause(Circuit[7], x, y); }
    }
    if exists k :: 0 <= k < |Circuit| && DeclaresCause(Circuit[k], x, y) {
      var k :| 0 <= k < |Circuit| && DeclaresCause(Circuit[k], x, y);
      assert k == 0 || k == 1 || k == 2 || k == 3 || k == 4 || k == 5 || k == 6 || k == 7;
    }
  }

  /** The ids the circuit names. */
  const CircuitParts: set<Id> := {"R1", "R2", "R3", "L1", "L2", "i1", "i2", "i3"}

  lemma CircuitMentions(y: Id)
    ensures (exists k :: 0 <= k < |Circuit| && Mentions(Circuit[k], y)) <==> y in CircuitParts
  {
    if y in CircuitParts {
      var k := if y == "R1" then 0 else if y == "R2" then 1 else if y == "R3" then 2
        else if y == "L1" then 3 else if y == "L2" then 4 else if y == "i1" then 5
        else if y == "i2" then 6 else 7;
      assert Mentions(Circuit[k], y);
    }
    if exists k :: 0 <= k < |Circuit| && Mentions(Circuit[k], y) {
      var k :| 0 <= k < |Circuit| && Mentions(Circuit[k], y);
      assert k == 0 || k == 1 || k == 2 || k == 3 || k == 4 || k == 5 || k == 6 || k == 7;
    }
  }

  /** What the circuit's construction leaves: its parts and its caused-by lists, as sets. */
  ghost predicate CircuitShape(g: Graph) {
    Valid(g)
    && (forall y :: y in g.parts <==> y in CircuitParts)
    && (forall x, y :: Has(g.causedBy, x, y) <==> (x, y) in CircuitCauses)
  }

  /** The eight add_part_full calls build a valid model of exactly the declared circuit. */
  lemma CircuitBuilt()
    ensures CircuitShape(Build(Circuit))
  {
    var g := Build(Circuit);
    BuildValid(Circuit);
    BuildParts(Circuit);
    BuildCausedBy(Circuit);
    forall y
      ensures y in g.parts <==> y in CircuitParts
    {
      CircuitMentions(y);
    }
    forall x, y
      ensures Has(g.causedBy, x, y) <==> (x, y) in CircuitCauses
    {
      CircuitDeclaresCause(x, y);
    }
  }

  /** Everything that can cause `f` lies in `s` when `s` holds `f` and is closed under the circuit's causes. */
  lemma CircuitClosedSet(g: Graph, s: set<Id>, f: Id)
    requires CircuitShape(g)
    requires f in s
    requires forall x, y :: x in s && (x, y) in CircuitCauses ==> y in s
    ensures forall x :: CanCause(g, x, f) ==> x in s
  {
    forall y, z | y in s && (y, z) in CauseEdges(g)
      ensures z in s
    {
      CauseEdgesHas(g, y, z);
    }
    forall x | CanCause(g, x, f)
      ensures x in s
    {
      ClosedContainsReachable(CauseEdges(g), s, f, x);
    }
  }

  /** One declared cause step extends a can-cause fact. */
  lemma CircuitStep(g: Graph, f: Id, y: Id, z: Id)
    requires CircuitShape(g)
    requires CanCause(g, y, f) && (y, z) in CircuitCauses
    ensures CanCause(g, z, f)
  {
    CauseEdgesHas(g, y, z);
    ReachesStep(CauseEdges(g), f, y, z);
  }

  /**
   * A lamp fed by current `cur`, itself fed by supply `supply` and by i3 (fed by
   * R3): the lamp, its current, its supply, i3 and R3 can each make the lamp fail.
   */
  lemma ReachLamp(g: Graph, lamp: Id, cur: Id, supply: Id)
    requires CircuitShape(g)
    requires (lamp, cur) in CircuitCauses && (cur, supply) in CircuitCauses && (cur, "i3") in CircuitCauses
    ensures forall x :: x in {lamp, cur, supply, "i3", "R3"} ==> CanCause(g, x, lamp)
  {
    ReachesRefl(CauseEdges(g), lamp);
    CircuitStep(g, lamp, lamp, cur);
    CircuitStep(g, lamp, cur, supply);
    CircuitStep(g, lamp, cur, "i3");
    CircuitStep(g, lamp, "i3", "R3");
  }

  /** The parts that can make lamp L1 fail: L1, i1, R1, i3 and R3. */
  lemma CausesOfL1(g: Graph, x: Id)
    requires CircuitShape(g)
    ensures CanCause(g, x, "L1") <==> x in {"L1", "i1", "R1", "i3", "R3"}
  {
    ReachLamp(g, "L1", "i1", "R1");
    CircuitClosedSet(g, {"L1", "i1", "R1", "i3", "R3"}, "L1");
  }

  /** The parts that can make lamp L2 fail: L2, i2, R2, i3 and R3. */
  lemma CausesOfL2(g: Graph, x: Id)
    requires CircuitShape(g)
    ensures CanCause(g, x, "L2") <==> x in {"L2", "i2", "R2", "i3", "R3"}
  {
    ReachLamp(g, "L2", "i2", "R2");
    CircuitClosedSet(g, {"L2", "i2", "R2", "i3", "R3"}, "L2");
  }

  /** With L2 working and L1 not, the candidates in any model of the circuit are R1, L1 and i1. */
  lemma CircuitLampQuery(g: Graph, x: Id)
    requires CircuitShape(g)
    ensures IsCandidate(g, ["L2"], ["L1"], x) <==> x in {"R1", "L1", "i1"}
  {
    CausesOfL1(g, x);
    CausesOfL2(g, x);
    assert forall f :: f in ["L1"] <==> f == "L1";
    assert forall w :: w in ["L2"] <==> w == "L2";
  }

  /**
   * The query at causal_graph_structure.py:132 on the circuit the source
   * builds: the root-cause candidates are exactly R1, L1 and i1.
   */
  lemma LampQuery(x: Id)
    ensures IsCandidate(Build(Circuit), ["L2"], ["L1"], x) <==> x in {"R1", "L1", "i1"}
  {
    CircuitBuilt();
    CircuitLampQuery(Build(Circuit), x);
  }

  /** One more add_part_full call extends the built model by that call. */
  lemma BuildNext(ds: seq<Decl>, k: nat)
    requires k < |ds|
    ensures Build(ds[..k + 1]) == AddFull(Build(ds[..k]), ds[k].part, ds[k].causedBys, ds[k].causes)
  {
    assert ds[..k + 1][..k] == ds[..k];
  }

  /** A new model, then one add_part_full call per declaration of `ds`, in order. */
  method BuildModel(ds: seq<Decl>) returns (cm: CausalModel)
    ensures fresh(cm)
    ensures cm.Valid() && cm.Abs() == Build(ds)
  {
    cm := new CausalModel();
    var k := 0;
    while k < |ds|
      invariant 0 <= k <= |ds|
      invariant cm.Valid() && cm.Abs() == Build(ds[..k])
    {
      cm.AddPartFull(ds[k].part, ds[k].causedBys, ds[k].causes);
      BuildNext(ds, k);
      k := k + 1;
    }
    assert ds[..k] == ds;
  }

  /**
   * The module-level script of causal_graph_structure.py run through the
   * class: build the circuit, then query with L2 working and L1 failing.
   * It returns R1, L1 and i1, once each.
   */
  method LampScript() returns (r: seq<Id>)
    ensures Distinct(r)
    ensures forall x :: x in r <==> x in {"R1", "L1", "i1"}
  {
    var cm := BuildModel(Circuit);
    CircuitBuilt();
    r := cm.FindPointsOfFailure(["L2"], ["L1"]);
    forall x
      ensures x in r <==> x in {"R1", "L1", "i1"}
    {
      CircuitLampQuery(cm.Abs(), x);
    }
  }
}
