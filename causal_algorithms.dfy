/**
 * Check-order planning over a connectivity matrix. Entry m[i][j] is 1 when
 * part i can cause part j to fail; a plan starts at the part observed broken
 * and proceeds breadth-first towards its causes, the order among siblings
 * being random.
 */
module CausalAlgorithms {
  import opened Common
  import opened Reachability

  /** An N x N connectivity matrix, rows and columns indexed by part number. */
  type Matrix = seq<seq<int>>

  predicate IsSquare(m: Matrix) {
    forall i :: 0 <= i < |m| ==> |m[i]| == |m|
  }

  /** The parts whose column-j entry is 1: those that can directly cause part j. */
  function DirectCauses(m: Matrix, j: nat): set<nat>
    requires IsSquare(m) && j < |m|
  {
    set i: nat | i < |m| && m[i][j] == 1
  }

  /** Edge (j, i): part i is a direct cause of part j. */
  ghost function CauseEdges(m: Matrix): set<(nat, nat)>
    requires IsSquare(m)
  {
    set i: nat, j: nat | i < |m| && j < |m| && m[i][j] == 1 :: (j, i)
  }

  lemma CauseEdgesDirect(m: Matrix, j: nat, i: nat)
    requires IsSquare(m)
    ensures (j, i) in CauseEdges(m) <==> j < |m| && i in DirectCauses(m, j)
  {
    if j < |m| && i in DirectCauses(m, j) {
      assert (j, i) in CauseEdges(m);
    }
  }

  /** `x` is `b` itself or can cause `b` through a chain of direct causes. */
  ghost predicate Suspect(m: Matrix, b: nat, x: nat)
    requires IsSquare(m)
  {
    Reaches(CauseEdges(m), b, x)
  }

  /** Every part that could explain a failure of `b`. */
  ghost function Suspects(m: Matrix, b: nat): set<nat>
    requires IsSquare(m)
  {
    set x: nat | x < |m| && Suspect(m, b, x)
  }

  /** Every suspect is a part; `b` is its own first suspect. */
  lemma SuspectFacts(m: Matrix, b: nat, x: nat)
    requires IsSquare(m) && b < |m|
    ensures b in Suspects(m, b)
    ensures Suspect(m, b, x) ==> x < |m|
  {
    ReachesRefl(CauseEdges(m), b);
    if Suspect(m, b, x) && x != b {
      var p :| IsWalk(CauseEdges(m), p) && p[0] == b && p[|p| - 1] == x;
      var k := |p| - 2;
      assert (p[k], p[k + 1]) in CauseEdges(m);
    }
  }

  /** A direct cause of a suspect is a suspect. */
  lemma SuspectStep(m: Matrix, b: nat, y: nat, i: nat)
    requires IsSquare(m) && y < |m| && Suspect(m, b, y) && i in DirectCauses(m, y)
    ensures Suspect(m, b, i)
  {
    CauseEdgesDirect(m, y, i);
    ReachesStep(CauseEdges(m), b, y, i);
  }

  /** A list holding `b` and all direct causes of its members holds every suspect. */
  lemma CauseClosedHoldsSuspects(m: Matrix, b: nat, list: seq<nat>)
    requires IsSquare(m) && b in list
    requires forall y :: y in list ==> y < |m|
    requires forall y, i :: y in list && i in DirectCauses(m, y) ==> i in list
    ensures forall x :: Suspect(m, b, x) ==> x in list
  {
    var s := set y | y in list;
    forall y, z | y in s && (y, z) in CauseEdges(m)
      ensures z in s
    {
      CauseEdgesDirect(m, y, z);
    }
    forall x | Suspect(m, b, x)
      ensures x in list
    {
      ClosedContainsReachable(CauseEdges(m), s, b, x);
    }
  }

  // ---------------------------------------------------------------------------
  // generate_plan_causal_from_single_part, as written

  /**
   * The parts one step of the source queues after checking `cur`: its direct
   * causes minus those already in the plan. Parts still waiting in the queue
   * are not excluded.
   */
  function QueuedAfter(m: Matrix, plan: seq<nat>, cur: nat): set<nat>
    requires IsSquare(m) && cur < |m|
  {
    DirectCauses(m, cur) - set x | x in plan
  }

  /**
   * Checking a suspect `cur` queues only suspects that are not yet planned,
   * and loses no direct cause of `cur`: each is planned or queued.
   */
  lemma QueuedAfterSuspects(m: Matrix, b: nat, plan: seq<nat>, cur: nat)
    requires IsSquare(m) && cur < |m| && Suspect(m, b, cur)
    ensures forall i :: i in QueuedAfter(m, plan, cur) ==> i < |m| && Suspect(m, b, i) && i !in plan
    ensures forall i :: i in DirectCauses(m, cur) ==> i in plan || i in QueuedAfter(m, plan, cur)
  {
    forall i | i in QueuedAfter(m, plan, cur)
      ensures i < |m| && Suspect(m, b, i) && i !in plan
    {
      SuspectStep(m, b, cur, i);
    }
  }

  /** Parts not yet in the plan. */
  function Unplanned(m: Matrix, plan: seq<nat>): set<nat> {
    set x: nat | x < |m| && x !in plan
  }

  /** How many queue entries name a part already planned. */
  function Stale(queue: seq<nat>, planned: set<nat>): nat
    decreases |queue|
  {
    if queue == [] then 0
    else (if queue[0] in planned then 1 else 0) + Stale(queue[1..], planned)
  }

  /** Queueing parts not yet planned adds no stale entry. */
  lemma {:induction false} StaleAppendFresh(queue: seq<nat>, planned: set<nat>, added: seq<nat>)
    requires forall x :: x in added ==> x !in planned
    ensures Stale(queue + added, planned) == Stale(queue, planned)
    decreases |queue| + |added|
  {
    if queue == [] {
      if added != [] {
        assert ([] + added)[1..] == [] + added[1..];
        StaleAppendFresh([], planned, added[1..]);
      }
    } else {
      assert (queue + added)[1..] == queue[1..] + added;
      StaleAppendFresh(queue[1..], planned, added);
    }
  }

  /** Every listed part is a suspect of `b`. */
  ghost predicate AllSuspects(m: Matrix, b: nat, s: seq<nat>)
    requires IsSquare(m)
  {
    forall x :: x in s ==> x < |m| && Suspect(m, b, x)
  }

  /** Every direct cause of a planned part is planned or waiting in the queue. */
  ghost predicate CausesCovered(m: Matrix, plan: seq<nat>, queue: seq<nat>)
    requires IsSquare(m)
  {
    forall y, i :: y in plan && y < |m| && i in DirectCauses(m, y) ==> i in plan || i in queue
  }

  /** Checking the head of the queue and queueing its outstanding causes. */
  lemma PlanStep(m: Matrix, b: nat, plan: seq<nat>, queue: seq<nat>, order: seq<nat>)
    requires IsSquare(m) && queue != [] && queue[0] < |m|
    requires AllSuspects(m, b, plan) && AllSuspects(m, b, queue)
    requires CausesCovered(m, plan, queue)
    requires forall i :: i in DirectCauses(m, queue[0]) ==> i in plan || i in queue || i in order
    requires forall i :: i in order ==> i in DirectCauses(m, queue[0])
    ensures AllSuspects(m, b, plan + [queue[0]]) && AllSuspects(m, b, queue[1..] + order)
    ensures CausesCovered(m, plan + [queue[0]], queue[1..] + order)
  {
    var cur := queue[0];
    assert cur in queue;
    forall x | x in plan + [cur]
      ensures x < |m| && Suspect(m, b, x)
    {
      if x != cur { assert x in plan; }
    }
    forall x | x in queue[1..] + order
      ensures x < |m| && Suspect(m, b, x)
    {
      if x in order {
        SuspectStep(m, b, cur, x);
      } else {
        assert x in queue[1..];
        assert x in queue;
      }
    }
    forall y, i | y in plan + [cur] && y < |m| && i in DirectCauses(m, y)
      ensures i in plan + [cur] || i in queue[1..] + order
    {
      if i in queue && i != cur {
        assert queue == [cur] + queue[1..];
        assert i in queue[1..];
      }
    }
  }

  /**
   * generate_plan_causal_from_single_part: breadth-first from `b` over the
   * direct-cause columns, queueing the unplanned causes of each checked part
   * in a random order. The plan starts with `b` and holds exactly the suspects
   * of `b`; a part may occur more than once (see QueuedAfterRequeues).
   */
  method GeneratePlan(m: Matrix, b: nat) returns (plan: seq<nat>)
    requires IsSquare(m) && b < |m|
    ensures |plan| > 0 && plan[0] == b
    ensures forall k :: 0 <= k < |plan| ==> plan[k] < |m|
    ensures forall x: nat :: x in plan <==> x in Suspects(m, b)
  {
    SuspectFacts(m, b, b);
    plan := [];
    var queue: seq<nat> := [b];
    while queue != []
      invariant plan == [] ==> queue == [b]
      invariant plan != [] ==> plan[0] == b
      invariant AllSuspects(m, b, plan) && AllSuspects(m, b, queue)
      invariant CausesCovered(m, plan, queue)
      decreases Unplanned(m, plan), Stale(queue, set x | x in plan)
    {
      ghost var planned0 := set x | x in plan;
      ghost var unplanned0 := Unplanned(m, plan);
      ghost var stale0 := Stale(queue, planned0);
      var cur := queue[0];
      assert cur in queue;
      var connected := QueuedAfter(m, plan + [cur], cur);
      QueuedAfterSuspects(m, b, plan + [cur], cur);
      var order := AnyOrder(connected);
      PlanStep(m, b, plan, queue, order);
      queue := queue[1..];
      plan := plan + [cur];
      ghost var planned := set x | x in plan;
      StaleAppendFresh(queue, planned, order);
      queue := queue + order;
      if cur in planned0 {
        assert planned == planned0;
        assert Unplanned(m, plan) == unplanned0;
        assert Stale(queue, planned) < stale0;
      } else {
        assert cur in unplanned0 && cur !in Unplanned(m, plan);
      }
    }
    CauseClosedHoldsSuspects(m, b, plan);
    assert forall k :: 0 <= k < |plan| ==> plan[k] in plan;
  }

  /**
   * The repeat the source allows: with parts 1 and 2 causing 0 and part 3
   * causing both, planning from 0 queues 3 after checking 1 and, with 3 still
   * waiting, queues it again after checking 2, so 3 is checked twice.
   */
  lemma QueuedAfterRequeues()
    ensures var m := [[0, 0, 0, 0], [1, 0, 0, 0], [1, 0, 0, 0], [0, 1, 1, 0]];
      IsSquare(m)
      && QueuedAfter(m, [0], 0) == {1, 2}
      && QueuedAfter(m, [0, 1], 1) == {3}
      && QueuedAfter(m, [0, 1, 2], 2) == {3}
      && QueuedAfter(m, [0, 1, 2, 3], 3) == {}
      && |Suspects(m, 0)| == 4
  {
    var m := [[0, 0, 0, 0], [1, 0, 0, 0], [1, 0, 0, 0], [0, 1, 1, 0]];
    assert DirectCauses(m, 0) == {1, 2} by {
      forall i: nat | i in DirectCauses(m, 0) ensures i in {1, 2} {
        assert i < 4 && m[i][0] == 1;
      }
    }
    assert DirectCauses(m, 1) == {3} by {
      forall i: nat | i in DirectCauses(m, 1) ensures i == 3 {
        assert i < 4 && m[i][1] == 1;
      }
    }
    assert DirectCauses(m, 2) == {3} by {
      forall i: nat | i in DirectCauses(m, 2) ensures i == 3 {
        assert i < 4 && m[i][2] == 1;
      }
    }
    assert DirectCauses(m, 3) == {} by {
      assert forall i: nat :: i < 4 ==> m[i][3] == 0;
    }
    var all := [0, 1, 2, 3];
    SuspectFacts(m, 0, 0);
    SuspectStep(m, 0, 0, 1);
    SuspectStep(m, 0, 1, 3);
    SuspectStep(m, 0, 0, 2);
    CauseClosedHoldsSuspects(m, 0, all);
    assert Suspects(m, 0) == {0, 1, 2, 3};
  }

  // ---------------------------------------------------------------------------
  // generate_plan_causal_from_single_part, as intended

  /**
   * The plan without repeats: a cause is queued only if it is neither planned
   * nor already waiting. It holds every suspect of `b` exactly once, so its
   * length is the number of suspects.
   */
  method GeneratePlanDistinct(m: Matrix, b: nat) returns (plan: seq<nat>)
    requires IsSquare(m) && b < |m|
    ensures |plan| > 0 && plan[0] == b
    ensures Distinct(plan)
    ensures forall x: nat :: x in plan <==> x in Suspects(m, b)
    ensures |plan| == |Suspects(m, b)|
  {
    SuspectFacts(m, b, b);
    plan := [];
    var queue: seq<nat> := [b];
    while queue != []
      invariant plan == [] ==> queue == [b]
      invariant plan != [] ==> plan[0] == b
      invariant Distinct(plan + queue)
      invariant AllSuspects(m, b, plan) && AllSuspects(m, b, queue)
      invariant CausesCovered(m, plan, queue)
      decreases Unplanned(m, plan)
    {
      ghost var unplanned0 := Unplanned(m, plan);
      var cur := queue[0];
      assert cur in queue;
      DistinctDequeue(plan, queue);
      var connected := DirectCauses(m, cur) - (set x | x in plan + [cur]) - (set x | x in queue[1..]);
      var order := AnyOrder(connected);
      PlanStep(m, b, plan, queue, order);
      queue := queue[1..];
      plan := plan + [cur];
      DistinctEnqueue(plan, queue, order);
      queue := queue + order;
      assert cur in unplanned0 && cur !in Unplanned(m, plan);
    }
    CauseClosedHoldsSuspects(m, b, plan);
    assert plan + [] == plan;
    DistinctCard(plan, Suspects(m, b));
  }

  /** Queueing parts that are neither planned nor waiting keeps plan and queue free of repeats. */
  lemma DistinctEnqueue(plan: seq<nat>, queue: seq<nat>, order: seq<nat>)
    requires Distinct(plan + queue) && Distinct(order)
    requires forall x :: x in order ==> x !in plan && x !in queue
    ensures Distinct(plan + (queue + order))
  {
    DistinctConcat(plan + queue, order);
    assert plan + (queue + order) == plan + queue + order;
  }

  /** Taking the head of the queue into the plan keeps plan and queue free of repeats. */
  lemma DistinctDequeue(plan: seq<nat>, queue: seq<nat>)
    requires queue != [] && Distinct(plan + queue)
    ensures queue[0] !in plan
    ensures Distinct((plan + [queue[0]]) + queue[1..])
  {
    assert plan + queue == (plan + [queue[0]]) + queue[1..];
    forall k | 0 <= k < |plan|
      ensures plan[k] != queue[0]
    {
      assert (plan + queue)[k] == plan[k] && (plan + queue)[|plan|] == queue[0];
    }
  }

  // ---------------------------------------------------------------------------
  // generate_plan_causal_from_multiple_parts

  /** list.remove: drop the first occurrence of `x`. */
  function RemoveFirst(s: seq<nat>, x: nat): seq<nat>
    requires x in s
  {
    if s[0] == x then s[1..] else [s[0]] + RemoveFirst(s[1..], x)
  }

  /** The elements of `s` that are in `keep`, in their order in `s`. */
  function Keep(s: seq<nat>, keep: set<nat>): (r: seq<nat>)
    decreases |s|
  {
    if s == [] then []
    else Keep(s[..|s| - 1], keep) + (if s[|s| - 1] in keep then [s[|s| - 1]] else [])
  }

  /** What `Keep` keeps: exactly the members of `s` in `keep`, without repeats when `s` has none. */
  lemma {:induction false} KeepFacts(s: seq<nat>, keep: set<nat>)
    ensures forall x :: x in Keep(s, keep) <==> x in s && x in keep
    ensures Distinct(s) ==> Distinct(Keep(s, keep))
    decreases |s|
  {
    if s != [] {
      var init, last := s[..|s| - 1], s[|s| - 1];
      KeepFacts(init, keep);
      assert s == init + [last];
      if Distinct(s) {
        assert Distinct(init) by {
          forall i, j | 0 <= i < j < |init| ensures init[i] != init[j] {
            assert init[i] == s[i] && init[j] == s[j];
          }
        }
        assert last !in init;
        if last in keep {
          DistinctAppend(Keep(init, keep), last);
        }
      }
    }
  }

  /** Keeping with respect to one set and then another keeps the common part. */
  lemma {:induction false} KeepKeep(s: seq<nat>, a: set<nat>, b: set<nat>)
    ensures Keep(Keep(s, a), b) == Keep(s, a * b)
    decreases |s|
  {
    if s != [] {
      var init, last := s[..|s| - 1], s[|s| - 1];
      KeepKeep(init, a, b);
      var k := Keep(init, a);
      if last in a {
        assert Keep(s, a) == k + [last];
        assert (k + [last])[..|k|] == k;
      } else {
        assert Keep(s, a) == k + [];
        assert k + [] == k;
      }
    }
  }

  /** Keeping nothing is discarded when every element is kept. */
  lemma {:induction false} KeepAll(s: seq<nat>, keep: set<nat>)
    requires forall x :: x in s ==> x in keep
    ensures Keep(s, keep) == s
    decreases |s|
  {
    if s != [] {
      KeepAll(s[..|s| - 1], keep);
      assert s == s[..|s| - 1] + [s[|s| - 1]];
    }
  }

  /**
   * Keeping is all or nothing per part: a kept part keeps every one of its
   * occurrences, any other part loses them all.
   */
  lemma {:induction false} KeepCounts(s: seq<nat>, keep: set<nat>, x: nat)
    ensures multiset(Keep(s, keep))[x] == if x in keep then multiset(s)[x] else 0
    decreases |s|
  {
    if s != [] {
      var init, last := s[..|s| - 1], s[|s| - 1];
      KeepCounts(init, keep, x);
      assert s == init + [last];
    }
  }

  /** Removing `x` from a list whose first `x` follows `a` leaves `a` and what came after. */
  lemma {:induction false} RemoveFirstAt(a: seq<nat>, x: nat, rest: seq<nat>)
    requires x !in a
    ensures RemoveFirst(a + [x] + rest, x) == a + rest
    decreases |a|
  {
    var s := a + [x] + rest;
    if a == [] {
      assert s == [x] + rest;
    } else {
      assert s[0] == a[0] && s[1..] == a[1..] + [x] + rest;
      RemoveFirstAt(a[1..], x, rest);
      assert a + rest == [a[0]] + (a[1..] + rest);
    }
  }

  lemma KeepNext(s: seq<nat>, keep: set<nat>, j: nat)
    requires j < |s|
    ensures Keep(s[..j + 1], keep) == Keep(s[..j], keep) + (if s[j] in keep then [s[j]] else [])
  {
    assert s[..j + 1][..j] == s[..j];
  }

  /**
   * The inner loop of generate_plan_causal_from_multiple_parts: for each part
   * of a copy of `path`, remove it if the new plan does not hold it.
   */
  method KeepOnlyIn(path: seq<nat>, newPlan: seq<nat>) returns (r: seq<nat>)
    ensures r == Keep(path, Elements(newPlan))
  {
    ghost var keep := Elements(newPlan);
    var copy := path;
    r := path;
    var j := 0;
    while j < |copy|
      invariant 0 <= j <= |copy|
      invariant r == Keep(copy[..j], keep) + copy[j..]
    {
      var part := copy[j];
      KeepOnlyStep(copy, keep, j, r);
      if part !in newPlan {
        r := RemoveFirst(r, part);
      }
      j := j + 1;
    }
    assert copy[..j] == copy;
  }

  /**
   * One iteration of the inner loop: after the first `j` parts of the copy
   * have been dealt with, the list is what `Keep` retains of them followed by
   * the rest; removing part `j` when it is not kept preserves this.
   */
  lemma KeepOnlyStep(copy: seq<nat>, keep: set<nat>, j: nat, r: seq<nat>)
    requires j < |copy|
    requires r == Keep(copy[..j], keep) + copy[j..]
    ensures copy[j] !in keep ==> copy[j] in r && RemoveFirst(r, copy[j]) == Keep(copy[..j + 1], keep) + copy[j + 1..]
    ensures copy[j] in keep ==> r == Keep(copy[..j + 1], keep) + copy[j + 1..]
  {
    var part, done, rest := copy[j], Keep(copy[..j], keep), copy[j + 1..];
    KeepNext(copy, keep, j);
    assert copy[j..] == [part] + rest;
    assert r == done + [part] + rest;
    if part !in keep {
      KeepFacts(copy[..j], keep);
      RemoveFirstAt(done, part, rest);
      assert Keep(copy[..j + 1], keep) == done + [];
    }
  }

  /** `x` could explain a failure of each part of `bs`. */
  ghost predicate SuspectOfAll(m: Matrix, bs: seq<nat>, x: nat)
    requires IsSquare(m)
  {
    forall k :: 0 <= k < |bs| ==> Suspect(m, bs[k], x)
  }

  /** The parts that are suspects of every part of `bs`. */
  ghost function CommonSuspects(m: Matrix, bs: seq<nat>): set<nat>
    requires IsSquare(m)
  {
    set x: nat | x < |m| && SuspectOfAll(m, bs, x)
  }

  /**
   * generate_plan_causal_from_multiple_parts: the plan of the first broken
   * part, cut down to the parts every other broken part's plan holds. The
   * result keeps the first plan's order and holds exactly the common
   * suspects.
   */
  method GeneratePlanMultiple(m: Matrix, bs: seq<nat>) returns (path: seq<nat>, ghost first: seq<nat>)
    requires IsSquare(m) && |bs| > 0
    requires forall k :: 0 <= k < |bs| ==> bs[k] < |m|
    ensures |first| > 0 && first[0] == bs[0]
    ensures forall x: nat :: x in first <==> x in Suspects(m, bs[0])
    ensures path == Keep(first, CommonSuspects(m, bs))
    ensures forall x: nat :: x in path <==> x in CommonSuspects(m, bs)
    ensures |bs| == 1 ==> path == first
  {
    path := GeneratePlan(m, bs[0]);
    first := path;
    PlanMultipleStart(m, bs, first);
    path := CutToCommon(m, bs, path);
    PlanMultipleDone(m, bs, first);
  }

  /**
   * The outer loop of generate_plan_causal_from_multiple_parts: cut the
   * first plan down by the plan of each further broken part in turn.
   */
  method CutToCommon(m: Matrix, bs: seq<nat>, first: seq<nat>) returns (path: seq<nat>)
    requires IsSquare(m) && |bs| > 0
    requires forall k :: 0 <= k < |bs| ==> bs[k] < |m|
    requires first == Keep(first, CommonSuspects(m, bs[..1]))
    ensures path == Keep(first, CommonSuspects(m, bs[..|bs|]))
  {
    path := first;
    var i := 1;
    while i < |bs|
      invariant 1 <= i <= |bs|
      invariant path == Keep(first, CommonSuspects(m, bs[..i]))
    {
      var newPlan := GeneratePlan(m, bs[i]);
      path := KeepOnlyIn(path, newPlan);
      PlanMultipleStep(m, bs, i, first, newPlan);
      i := i + 1;
    }
  }

  /** Before the loop, the first plan is everything its own part's suspects keep. */
  lemma PlanMultipleStart(m: Matrix, bs: seq<nat>, first: seq<nat>)
    requires IsSquare(m) && |bs| > 0
    requires forall x: nat :: x in first <==> x in Suspects(m, bs[0])
    ensures first == Keep(first, CommonSuspects(m, bs[..1]))
  {
    KeepAll(first, Suspects(m, bs[0]));
    assert bs[..1] == [bs[0]];
    CommonSuspectsOne(m, bs[0]);
  }

  /** One iteration: cutting down to the next part's plan adds that part to the common ones. */
  lemma PlanMultipleStep(m: Matrix, bs: seq<nat>, i: nat, first: seq<nat>, newPlan: seq<nat>)
    requires IsSquare(m) && 0 < i < |bs|
    requires forall x: nat :: x in newPlan <==> x in Suspects(m, bs[i])
    ensures Keep(Keep(first, CommonSuspects(m, bs[..i])), Elements(newPlan))
         == Keep(first, CommonSuspects(m, bs[..i + 1]))
  {
    assert Elements(newPlan) == Suspects(m, bs[i]);
    KeepKeep(first, CommonSuspects(m, bs[..i]), Suspects(m, bs[i]));
    CommonSuspectsNext(m, bs, i);
  }

  /** After the loop: the path holds exactly the common suspects, and is the first plan when there is one part. */
  lemma PlanMultipleDone(m: Matrix, bs: seq<nat>, first: seq<nat>)
    requires IsSquare(m) && |bs| > 0
    requires forall x: nat :: x in first <==> x in Suspects(m, bs[0])
    ensures Keep(first, CommonSuspects(m, bs[..|bs|])) == Keep(first, CommonSuspects(m, bs))
    ensures forall x: nat :: x in Keep(first, CommonSuspects(m, bs)) <==> x in CommonSuspects(m, bs)
    ensures |bs| == 1 ==> Keep(first, CommonSuspects(m, bs)) == first
  {
    assert bs[..|bs|] == bs;
    KeepFacts(first, CommonSuspects(m, bs));
    forall x: nat | x in CommonSuspects(m, bs)
      ensures x in first
    {
      assert Suspect(m, bs[0], x);
    }
    if |bs| == 1 {
      PlanMultipleStart(m, bs, first);
      assert bs[..1] == bs;
    }
  }

  /** Adding one more broken part intersects with its suspects. */
  lemma CommonSuspectsNext(m: Matrix, bs: seq<nat>, i: nat)
    requires IsSquare(m) && 0 < i < |bs|
    ensures CommonSuspects(m, bs[..i + 1]) == CommonSuspects(m, bs[..i]) * Suspects(m, bs[i])
  {
    var s, t := CommonSuspects(m, bs[..i + 1]), CommonSuspects(m, bs[..i]) * Suspects(m, bs[i]);
    forall x: nat ensures x in s <==> x in t {
      assert forall k :: 0 <= k < i ==> bs[..i + 1][k] == bs[..i][k];
      assert bs[..i + 1][i] == bs[i];
    }
  }

  /** The first broken part's suspects are its own common suspects. */
  lemma CommonSuspectsOne(m: Matrix, b: nat)
    requires IsSquare(m)
    ensures CommonSuspects(m, [b]) == Suspects(m, b)
  {
  }
}
