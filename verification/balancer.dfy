/**
 * `distributePlans` (utils/scheduler.ts): the areas of the grouping are
 * sorted largest first, every inspector starts with an empty assignment, and
 * each area in turn goes to the assignment that comes first when the
 * assignments are re-sorted by (number of areas, total workers). The in-place
 * `Array.prototype.sort` calls are the stable `SortBy`, so the order of the
 * returned assignments, which is the last re-sorted order and not the order
 * of the inspectors, is reproduced exactly.
 */
module Balancer {
  import opened Types
  import opened Seqs
  import opened Sorting
  import opened Aggregation

  // ---------------------------------------------------------------------------
  // The algorithm
  // ---------------------------------------------------------------------------

  /** `b.totalWorkers - a.totalWorkers`: larger areas first. */
  function AreaRank(a: Area): Rank { Rank(-(a.totalWorkers as int), 0) }

  /** Fewer areas first, then fewer workers. */
  function LoadRank(x: Assignment): Rank { Rank(|x.areas|, x.totalWorkers) }

  /** The areas sorted by decreasing total, ties kept in their given order. */
  function SortAreas(areas: seq<Area>): (r: seq<Area>)
    ensures multiset(r) == multiset(areas)
    ensures forall i, j | 0 <= i < j < |r| :: r[i].totalWorkers >= r[j].totalWorkers
  {
    SortBy(areas, AreaRank)
  }

  /** Areas of equal total keep the order they had before the sort. */
  lemma SortAreasStable(areas: seq<Area>, n: int)
    ensures WithRank(SortAreas(areas), AreaRank, Rank(-n, 0)) == WithRank(areas, AreaRank, Rank(-n, 0))
  {
    SortByStable(areas, AreaRank, Rank(-n, 0));
  }

  /** One empty assignment per inspector, in the inspectors' order. */
  function InitialAssignments(ins: seq<Inspector>): (r: seq<Assignment>)
    ensures |r| == |ins|
    ensures forall i | 0 <= i < |r| :: r[i].inspector == ins[i] && r[i].areas == [] && r[i].totalWorkers == 0
  {
    seq(|ins|, i requires 0 <= i < |ins| => Assignment(ins[i], [], 0))
  }

  /** `target.areas.push(area); target.totalWorkers += area.totalWorkers`. */
  function AddArea(x: Assignment, a: Area): Assignment
  {
    x.(areas := x.areas + [a], totalWorkers := x.totalWorkers + a.totalWorkers)
  }

  /** Growing an assignment keeps its total equal to the sum of its areas'
      totals, keeps the areas it had in their order and adds the new one once. */
  lemma AddAreaKeepsTotal(x: Assignment, a: Area)
    requires x.totalWorkers == SumOf(x.areas, AreaLoad)
    ensures AddArea(x, a).totalWorkers == SumOf(AddArea(x, a).areas, AreaLoad)
    ensures AddArea(x, a).areas[..|x.areas|] == x.areas
    ensures multiset(AddArea(x, a).areas) == multiset(x.areas) + multiset{a}
    ensures AddArea(x, a).inspector == x.inspector
  {
    SumOfSnoc(x.areas, a, AreaLoad);
    assert AddArea(x, a).areas[..|x.areas|] == x.areas;
  }

  /** One iteration of the placement loop: re-sort, then give the area to
      the assignment in front. */
  function Step(asg: seq<Assignment>, a: Area): (r: seq<Assignment>)
    requires |asg| > 0
    ensures |r| == |asg|
  {
    var s := SortBy(asg, LoadRank);
    s[0 := AddArea(s[0], a)]
  }

  /** The placement loop over the areas still to place, in order. With no
      area left the assignments are returned as they are, unsorted. */
  function PlaceAll(asg: seq<Assignment>, todo: seq<Area>): (r: seq<Assignment>)
    requires |asg| > 0 || |todo| == 0
    ensures |r| == |asg|
    decreases |todo|
  {
    if |todo| == 0 then asg else PlaceAll(Step(asg, todo[0]), todo[1..])
  }

  /** `distributePlans(workers, inspectors)`. The source reads `assignments[0]`
      of an empty array when there are areas but no inspectors and fails
      there; callers must rule that out. */
  function DistributePlans(ws: seq<Worker>, ins: seq<Inspector>): (r: seq<Assignment>)
    requires |ins| > 0 || |ws| == 0
    ensures |r| == |ins|
  {
    GroupAreasEmpty(ws);
    PlaceAll(InitialAssignments(ins), SortAreas(GroupAreas(ws)))
  }

  // ---------------------------------------------------------------------------
  // Bookkeeping: nobody lost, nothing lost, totals add up
  // ---------------------------------------------------------------------------

  function InspectorBag(x: Assignment): multiset<Inspector> { multiset{x.inspector} }

  function AreasBag(x: Assignment): multiset<Area> { multiset(x.areas) }

  /** Every assignment's total is the sum of its areas' totals. */
  ghost predicate Consistent(asg: seq<Assignment>)
  {
    forall x | x in asg :: x.totalWorkers == SumOf(x.areas, AreaLoad)
  }

  lemma InitialAssignmentsEmpty(ins: seq<Inspector>)
    ensures BagSum(InitialAssignments(ins), AreasBag) == multiset{}
    ensures SumOf(InitialAssignments(ins), AssignmentLoad) == 0
    ensures BagSum(InitialAssignments(ins), InspectorBag) == multiset(ins)
    ensures Consistent(InitialAssignments(ins))
    decreases |ins|
  {
    if |ins| > 0 {
      InitialAssignmentsEmpty(ins[1..]);
      assert InitialAssignments(ins)[1..] == InitialAssignments(ins[1..]);
      assert ins == [ins[0]] + ins[1..];
    }
  }

  /** The step keeps every inspector. */
  lemma StepInspectors(asg: seq<Assignment>, a: Area)
    requires |asg| > 0
    ensures BagSum(Step(asg, a), InspectorBag) == BagSum(asg, InspectorBag)
  {
    var s := SortBy(asg, LoadRank);
    BagSumPermutation(s, asg, InspectorBag);
    BagSumGrow(s, 0, AddArea(s[0], a), InspectorBag, multiset{});
  }

  /** The step hands out the area once. */
  lemma StepAreas(asg: seq<Assignment>, a: Area)
    requires |asg| > 0
    ensures BagSum(Step(asg, a), AreasBag) == BagSum(asg, AreasBag) + multiset{a}
  {
    var s := SortBy(asg, LoadRank);
    var t := AddArea(s[0], a);
    BagSumPermutation(s, asg, AreasBag);
    assert AreasBag(t) == AreasBag(s[0]) + multiset{a};
    BagSumGrow(s, 0, t, AreasBag, multiset{a});
  }

  /** The step adds the area's workers to the grand total. */
  lemma StepLoad(asg: seq<Assignment>, a: Area)
    requires |asg| > 0
    ensures SumOf(Step(asg, a), AssignmentLoad) == SumOf(asg, AssignmentLoad) + a.totalWorkers
  {
    var s := SortBy(asg, LoadRank);
    SumOfPermutation(s, asg, AssignmentLoad);
    SumOfUpdate(s, 0, AddArea(s[0], a), AssignmentLoad);
  }

  /** The step keeps every total equal to the sum of its areas. */
  lemma StepConsistent(asg: seq<Assignment>, a: Area)
    requires |asg| > 0 && Consistent(asg)
    ensures Consistent(Step(asg, a))
  {
    var s := SortBy(asg, LoadRank);
    var t := AddArea(s[0], a);
    StepMembers(asg, a);
    assert s[0] in multiset(asg);
    AddAreaKeepsTotal(s[0], a);
  }

  lemma {:induction false} PlaceAllInspectors(asg: seq<Assignment>, todo: seq<Area>)
    requires |asg| > 0 || |todo| == 0
    ensures BagSum(PlaceAll(asg, todo), InspectorBag) == BagSum(asg, InspectorBag)
    decreases |todo|
  {
    if |todo| > 0 {
      StepInspectors(asg, todo[0]);
      PlaceAllInspectors(Step(asg, todo[0]), todo[1..]);
    }
  }

  lemma {:induction false} PlaceAllAreas(asg: seq<Assignment>, todo: seq<Area>)
    requires |asg| > 0 || |todo| == 0
    ensures BagSum(PlaceAll(asg, todo), AreasBag) == BagSum(asg, AreasBag) + multiset(todo)
    decreases |todo|
  {
    if |todo| > 0 {
      var next, rest := Step(asg, todo[0]), todo[1..];
      StepAreas(asg, todo[0]);
      PlaceAllAreas(next, rest);
      assert PlaceAll(asg, todo) == PlaceAll(next, rest);
      MultisetCons(todo);
      BagAddCons(BagSum(PlaceAll(next, rest), AreasBag), BagSum(next, AreasBag),
        BagSum(asg, AreasBag), todo[0], multiset(rest), multiset(todo));
    }
  }

  lemma {:induction false} PlaceAllTotals(asg: seq<Assignment>, todo: seq<Area>)
    requires |asg| > 0 || |todo| == 0
    ensures SumOf(PlaceAll(asg, todo), AssignmentLoad) == SumOf(asg, AssignmentLoad) + SumOf(todo, AreaLoad)
    ensures Consistent(asg) ==> Consistent(PlaceAll(asg, todo))
    decreases |todo|
  {
    if |todo| > 0 {
      StepLoad(asg, todo[0]);
      if Consistent(asg) {
        StepConsistent(asg, todo[0]);
      }
      PlaceAllTotals(Step(asg, todo[0]), todo[1..]);
    }
  }

  /** One assignment per inspector, and every inspector keeps exactly one. */
  lemma DistributeKeepsInspectors(ws: seq<Worker>, ins: seq<Inspector>)
    requires |ins| > 0 || |ws| == 0
    ensures |DistributePlans(ws, ins)| == |ins|
    ensures BagSum(DistributePlans(ws, ins), InspectorBag) == multiset(ins)
  {
    GroupAreasEmpty(ws);
    InitialAssignmentsEmpty(ins);
    PlaceAllInspectors(InitialAssignments(ins), SortAreas(GroupAreas(ws)));
  }

  /** Every area of the grouping is handed out, and exactly once. */
  lemma DistributeCoversAreas(ws: seq<Worker>, ins: seq<Inspector>)
    requires |ins| > 0 || |ws| == 0
    ensures BagSum(DistributePlans(ws, ins), AreasBag) == multiset(GroupAreas(ws))
    ensures forall a :: BagSum(DistributePlans(ws, ins), AreasBag)[a] <= 1
  {
    GroupAreasEmpty(ws);
    GroupAreasPermutes(ws);
    InitialAssignmentsEmpty(ins);
    PlaceAllAreas(InitialAssignments(ins), SortAreas(GroupAreas(ws)));
  }

  /** Each assignment's total is the sum of its areas' totals, and the totals
      add up to the number of workers. */
  lemma DistributeTotals(ws: seq<Worker>, ins: seq<Inspector>)
    requires |ins| > 0 || |ws| == 0
    ensures Consistent(DistributePlans(ws, ins))
    ensures SumOf(DistributePlans(ws, ins), AssignmentLoad) == |ws|
  {
    var areas := GroupAreas(ws);
    GroupAreasEmpty(ws);
    GroupAreasCounts(ws);
    InitialAssignmentsEmpty(ins);
    PlaceAllTotals(InitialAssignments(ins), SortAreas(areas));
    SumOfPermutation(SortAreas(areas), areas, AreaLoad);
  }

  /** With no workers nobody gets an area: the assignments come back empty
      and in the inspectors' order. */
  lemma DistributeNoWorkers(ins: seq<Inspector>)
    ensures DistributePlans([], ins) == InitialAssignments(ins)
  {
    GroupAreasEmpty([]);
  }

  // ---------------------------------------------------------------------------
  // The choice of target
  // ---------------------------------------------------------------------------

  /** The step gives the area to an assignment with the fewest areas and,
      among those, the fewest workers; of several such assignments it picks
      the one that comes first in the current order, which earlier rounds
      have already rearranged and which is not the inspectors' order. */
  lemma StepChoosesLeast(asg: seq<Assignment>, a: Area)
    requires |asg| > 0
    ensures var t := SortBy(asg, LoadRank)[0];
      && t in asg
      && (forall y | y in asg :: |t.areas| < |y.areas| || (|t.areas| == |y.areas| && t.totalWorkers <= y.totalWorkers))
      && (exists i | 0 <= i < |asg| :: asg[i] == t && forall j | 0 <= j < i :: LoadRank(asg[j]) != LoadRank(t))
      && Step(asg, a)[0] == AddArea(t, a)
  {
    var s := SortBy(asg, LoadRank);
    SortByHeadIsLeast(asg, LoadRank);
    SortByStable(asg, LoadRank, LoadRank(s[0]));
    assert WithRank(s, LoadRank, LoadRank(s[0]))[0] == s[0];
    WithRankFirst(asg, LoadRank, LoadRank(s[0]));
  }

  /** Apart from the target, which receives the area, the step keeps every
      assignment as it was. */
  lemma StepReplacesTarget(asg: seq<Assignment>, a: Area)
    requires |asg| > 0
    ensures var t := SortBy(asg, LoadRank)[0];
      multiset(Step(asg, a)) == multiset(asg) - multiset{t} + multiset{AddArea(t, a)}
  {
    var s := SortBy(asg, LoadRank);
    var r := Step(asg, a);
    assert r[1..] == s[1..];
    MultisetCons(s);
    MultisetCons(r);
  }

  // ---------------------------------------------------------------------------
  // Balance
  // ---------------------------------------------------------------------------

  /** Area counts differ by at most one. */
  ghost predicate CountsBalanced(asg: seq<Assignment>)
  {
    forall x, y | x in asg && y in asg :: |x.areas| <= |y.areas| + 1
  }

  /** Every assignment after the step is the new target or was there before. */
  lemma StepMembers(asg: seq<Assignment>, a: Area)
    requires |asg| > 0
    ensures forall z | z in Step(asg, a) :: z == AddArea(SortBy(asg, LoadRank)[0], a) || z in asg
  {
    var s := SortBy(asg, LoadRank);
    forall z | z in Step(asg, a) ensures z == AddArea(s[0], a) || z in asg {
      var k :| 0 <= k < |s| && Step(asg, a)[k] == z;
      if k > 0 {
        assert z == s[k] && s[k] in multiset(asg);
      }
    }
  }

  lemma StepKeepsCountsBalanced(asg: seq<Assignment>, a: Area)
    requires |asg| > 0 && CountsBalanced(asg)
    ensures CountsBalanced(Step(asg, a))
  {
    var t := SortBy(asg, LoadRank)[0];
    StepChoosesLeast(asg, a);
    StepMembers(asg, a);
  }

  /** After every prefix of the placement loop the area counts differ by at
      most one. */
  lemma {:induction false} PlaceAllKeepsCountsBalanced(asg: seq<Assignment>, todo: seq<Area>)
    requires |asg| > 0 || |todo| == 0
    requires CountsBalanced(asg)
    ensures CountsBalanced(PlaceAll(asg, todo))
    decreases |todo|
  {
    if |todo| > 0 {
      StepKeepsCountsBalanced(asg, todo[0]);
      PlaceAllKeepsCountsBalanced(Step(asg, todo[0]), todo[1..]);
    }
  }

  /** The total of the last area an assignment received. */
  function LastLoad(x: Assignment): int
    requires |x.areas| > 0
  {
    x.areas[|x.areas| - 1].totalWorkers
  }

  /** An assignment's total before it received its last area. */
  function Before(x: Assignment): int
    requires |x.areas| > 0
  {
    x.totalWorkers - LastLoad(x)
  }

  /** The loop invariant behind the balance bound, for m at least every area
      total and next at most every area placed so far. An assignment one area
      ahead of another was, before its last area, no heavier than the other
      and lighter by at most m. */
  ghost predicate BalanceInv(asg: seq<Assignment>, m: int, next: int)
  {
    && 0 <= m
    && (forall x | x in asg && |x.areas| > 0 :: next <= LastLoad(x) <= m)
    && (forall x, y | x in asg && y in asg ::
          |x.areas| <= |y.areas| + 1 && x.totalWorkers - y.totalWorkers <= m)
    && (forall x, y | x in asg && y in asg && |x.areas| == |y.areas| + 1 ::
          Before(x) <= y.totalWorkers && y.totalWorkers - Before(x) <= m)
  }

  /** The pairs that involve the new target after a step still satisfy the
      invariant. */
  lemma TargetPairs(asg: seq<Assignment>, t: Assignment, a: Area, m: int, next: int)
    requires BalanceInv(asg, m, next) && t in asg
    requires forall y | y in asg :: |t.areas| < |y.areas| || (|t.areas| == |y.areas| && t.totalWorkers <= y.totalWorkers)
    requires a.totalWorkers <= next && a.totalWorkers <= m
    ensures var t' := AddArea(t, a);
      && LastLoad(t') == a.totalWorkers
      && (forall y | y in asg ::
            && |t'.areas| <= |y.areas| + 1 && t'.totalWorkers - y.totalWorkers <= m
            && |y.areas| <= |t'.areas| + 1 && y.totalWorkers - t'.totalWorkers <= m)
      && (forall y | y in asg && |t'.areas| == |y.areas| + 1 ::
            Before(t') <= y.totalWorkers && y.totalWorkers - Before(t') <= m)
      && (forall y | y in asg && |y.areas| == |t'.areas| + 1 ::
            Before(y) <= t'.totalWorkers && t'.totalWorkers - Before(y) <= m)
  {
    var t' := AddArea(t, a);
    forall y | y in asg
      ensures t'.totalWorkers - y.totalWorkers <= m
    {
      if |y.areas| != |t.areas| {
        assert |y.areas| == |t.areas| + 1;
        assert Before(y) <= t.totalWorkers && t.totalWorkers - Before(y) <= m;
        assert a.totalWorkers <= LastLoad(y);
      }
    }
  }

  lemma StepKeepsBalance(asg: seq<Assignment>, a: Area, m: int, next: int)
    requires |asg| > 0 && BalanceInv(asg, m, next)
    requires a.totalWorkers <= next && a.totalWorkers <= m
    ensures BalanceInv(Step(asg, a), m, a.totalWorkers)
  {
    var t := SortBy(asg, LoadRank)[0];
    var t' := AddArea(t, a);
    var r := Step(asg, a);
    StepChoosesLeast(asg, a);
    StepMembers(asg, a);
    TargetPairs(asg, t, a, m, next);
    forall x | x in r && |x.areas| > 0 ensures a.totalWorkers <= LastLoad(x) <= m {
    }
    forall x, y | x in r && y in r
      ensures |x.areas| <= |y.areas| + 1 && x.totalWorkers - y.totalWorkers <= m
    {
    }
    forall x, y | x in r && y in r && |x.areas| == |y.areas| + 1
      ensures Before(x) <= y.totalWorkers && y.totalWorkers - Before(x) <= m
    {
      if x == t' && y == t' {
      } else if x == t' {
      } else if y == t' {
      }
    }
  }

  lemma {:induction false} PlaceAllKeepsBalance(asg: seq<Assignment>, todo: seq<Area>, m: int, next: int)
    requires |asg| > 0 || |todo| == 0
    requires BalanceInv(asg, m, next)
    requires forall i | 0 <= i < |todo| :: todo[i].totalWorkers <= m
    requires forall i | 0 <= i < |todo| :: todo[i].totalWorkers <= next
    requires forall i, j | 0 <= i < j < |todo| :: todo[i].totalWorkers >= todo[j].totalWorkers
    ensures forall x, y | x in PlaceAll(asg, todo) && y in PlaceAll(asg, todo) ::
      x.totalWorkers - y.totalWorkers <= m
    decreases |todo|
  {
    if |todo| > 0 {
      StepKeepsBalance(asg, todo[0], m, next);
      var rest := todo[1..];
      assert forall i | 0 <= i < |rest| :: rest[i] == todo[i + 1];
      PlaceAllKeepsBalance(Step(asg, todo[0]), rest, m, todo[0].totalWorkers);
    }
  }

  /** The largest area total, 0 when there are no areas. */
  function MaxLoad(areas: seq<Area>): (r: nat)
    ensures forall i | 0 <= i < |areas| :: areas[i].totalWorkers <= r
    ensures |areas| > 0 ==> exists i | 0 <= i < |areas| :: areas[i].totalWorkers == r
    ensures |areas| == 0 ==> r == 0
  {
    if |areas| == 0 then 0
    else
      var rest := MaxLoad(areas[1..]);
      if areas[0].totalWorkers >= rest then areas[0].totalWorkers
      else
        assert areas[1..][0] == areas[1];
        rest
  }

  /** The result of `distributePlans` is balanced: area counts differ by at
      most one, and totals by at most the largest area's total. */
  lemma DistributeBalanced(ws: seq<Worker>, ins: seq<Inspector>)
    requires |ins| > 0 || |ws| == 0
    ensures CountsBalanced(DistributePlans(ws, ins))
    ensures forall x, y | x in DistributePlans(ws, ins) && y in DistributePlans(ws, ins) ::
      x.totalWorkers - y.totalWorkers <= MaxLoad(GroupAreas(ws))
  {
    var areas := GroupAreas(ws);
    var todo := SortAreas(areas);
    var m := MaxLoad(areas);
    var init := InitialAssignments(ins);
    GroupAreasEmpty(ws);
    assert CountsBalanced(init);
    PlaceAllKeepsCountsBalanced(init, todo);
    forall i | 0 <= i < |todo| ensures todo[i].totalWorkers <= m {
      assert todo[i] in multiset(areas);
    }
    assert BalanceInv(init, m, m);
    PlaceAllKeepsBalance(init, todo, m, m);
  }
}
