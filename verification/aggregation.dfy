/**
 * The grouping pass of `distributePlans` (utils/scheduler.ts), repeated
 * verbatim for `availableAreas` in App.tsx: one scan over the workers that
 * builds areas keyed by area name and, inside each area, zones keyed by zone
 * name. `Aggregate` is that scan as a left fold; `Grouping` is an
 * independent, non-incremental description of the same result, and
 * `AggregateIsGrouping` proves them equal.
 *
 * The scan stores areas in a plain object and reads them back with
 * `Object.values`, which lists array-index keys ("0", "1", ... "4294967294")
 * first in ascending numeric order and every other key in insertion order.
 * `ObjectValues` models that reordering and `GroupAreas` is the composition
 * both callers see.
 */
module Aggregation {
  import opened Types
  import opened Seqs
  import opened Sorting

  // ---------------------------------------------------------------------------
  // Lookup by name
  // ---------------------------------------------------------------------------

  /** Position of the first key equal to n, or |keys| when there is none. */
  function IndexOf(keys: seq<string>, n: string): (i: nat)
    ensures i <= |keys|
    ensures i < |keys| ==> keys[i] == n
    ensures forall j | 0 <= j < i :: keys[j] != n
    decreases |keys|
  {
    if |keys| == 0 then 0
    else if keys[0] == n then 0
    else 1 + IndexOf(keys[1..], n)
  }

  lemma IndexOfIs(keys: seq<string>, n: string, j: nat)
    requires j <= |keys|
    requires j < |keys| ==> keys[j] == n
    requires forall m | 0 <= m < j :: keys[m] != n
    ensures IndexOf(keys, n) == j
  {
  }

  function AreaNames(areas: seq<Area>): seq<string>
  {
    seq(|areas|, i requires 0 <= i < |areas| => areas[i].name)
  }

  function ZoneNames(zones: seq<Zone>): seq<string>
  {
    seq(|zones|, i requires 0 <= i < |zones| => zones[i].name)
  }

  // ---------------------------------------------------------------------------
  // The scan
  // ---------------------------------------------------------------------------

  /** Appends w to the zone named w.zone, opening that zone at the end when
      it does not exist yet. */
  function AddToZones(zones: seq<Zone>, w: Worker): seq<Zone>
  {
    var j := IndexOf(ZoneNames(zones), w.zone);
    var grown := if j == |zones| then zones + [Zone(w.zone, [])] else zones;
    grown[j := grown[j].(workers := grown[j].workers + [w])]
  }

  /** Files w under its zone and counts it in the area's total. */
  function AddToArea(a: Area, w: Worker): Area
  {
    a.(zones := AddToZones(a.zones, w), totalWorkers := a.totalWorkers + 1)
  }

  /** One step of the scan: open the area named w.area (empty, total 0) when
      it is new, then file w under it. */
  function AddWorker(areas: seq<Area>, w: Worker): seq<Area>
  {
    var i := IndexOf(AreaNames(areas), w.area);
    var grown := if i == |areas| then areas + [Area(w.area, 0, [])] else areas;
    grown[i := AddToArea(grown[i], w)]
  }

  /** The whole scan, in insertion order of the area keys. */
  function Aggregate(ws: seq<Worker>): seq<Area>
    decreases |ws|
  {
    if |ws| == 0 then [] else AddWorker(Aggregate(ws[..|ws| - 1]), ws[|ws| - 1])
  }

  // ---------------------------------------------------------------------------
  // Reference description of the grouping
  // ---------------------------------------------------------------------------

  function AreaKey(w: Worker): string { w.area }

  function ZoneKey(w: Worker): string { w.zone }

  /** The key of every worker, in input order. */
  function Keys(ws: seq<Worker>, field: Worker -> string): seq<string>
  {
    seq(|ws|, i requires 0 <= i < |ws| => field(ws[i]))
  }

  /** The workers whose field equals n, in input order. */
  function Having(ws: seq<Worker>, field: Worker -> string, n: string): (r: seq<Worker>)
    ensures r == [] <==> n !in Keys(ws, field)
    decreases |ws|
  {
    if |ws| == 0 then []
    else
      var init := ws[..|ws| - 1];
      var last := ws[|ws| - 1];
      assert ws == init + [last];
      assert Keys(ws, field) == Keys(init, field) + [field(last)];
      Having(init, field, n) + (if field(last) == n then [last] else [])
  }

  /** The distinct keys in order of first appearance. */
  function FirstSeen(keys: seq<string>): (r: seq<string>)
    ensures forall k :: k in r <==> k in keys
    ensures Distinct(r)
    decreases |keys|
  {
    if |keys| == 0 then []
    else
      var init := keys[..|keys| - 1];
      var last := keys[|keys| - 1];
      assert keys == init + [last];
      var prefix := FirstSeen(init);
      if last in prefix then prefix else prefix + [last]
  }

  /** The zones of a group of workers: one per distinct zone name, in order of
      first appearance, each holding its workers in input order. */
  function ZonesOf(aw: seq<Worker>): seq<Zone>
  {
    ZonesNamed(aw, FirstSeen(Keys(aw, ZoneKey)))
  }

  /** The zones of the given names, in that order. */
  function ZonesNamed(aw: seq<Worker>, names: seq<string>): seq<Zone>
  {
    seq(|names|, j requires 0 <= j < |names| => Zone(names[j], Having(aw, ZoneKey, names[j])))
  }

  /** The area named n as the grouping describes it. */
  function AreaOf(ws: seq<Worker>, n: string): Area
  {
    var aw := Having(ws, AreaKey, n);
    Area(n, |aw|, ZonesOf(aw))
  }

  /** The areas of the given names, in that order. */
  function AreasNamed(ws: seq<Worker>, names: seq<string>): seq<Area>
  {
    seq(|names|, i requires 0 <= i < |names| => AreaOf(ws, names[i]))
  }

  /** One area per distinct area name, in order of first appearance. */
  function Grouping(ws: seq<Worker>): seq<Area>
  {
    AreasNamed(ws, FirstSeen(Keys(ws, AreaKey)))
  }

  lemma KeysSnoc(ws: seq<Worker>, w: Worker, field: Worker -> string)
    ensures Keys(ws + [w], field) == Keys(ws, field) + [field(w)]
  {
  }

  lemma HavingSnoc(ws: seq<Worker>, w: Worker, field: Worker -> string, n: string)
    ensures Having(ws + [w], field, n) == Having(ws, field, n) + (if field(w) == n then [w] else [])
  {
    assert (ws + [w])[..|ws|] == ws;
  }

  lemma FirstSeenSnoc(keys: seq<string>, k: string)
    ensures FirstSeen(keys + [k]) == if k in keys then FirstSeen(keys) else FirstSeen(keys) + [k]
  {
    assert (keys + [k])[..|keys|] == keys;
  }

  lemma AddToZonesFound(zones: seq<Zone>, w: Worker, j: nat)
    requires j < |zones| && zones[j].name == w.zone
    requires forall m | 0 <= m < j :: zones[m].name != w.zone
    ensures AddToZones(zones, w) == zones[j := zones[j].(workers := zones[j].workers + [w])]
  {
    var names := ZoneNames(zones);
    assert names[j] == w.zone;
    assert forall m | 0 <= m < j :: names[m] != w.zone;
    IndexOfIs(names, w.zone, j);
  }

  lemma AddToZonesNew(zones: seq<Zone>, w: Worker)
    requires forall m | 0 <= m < |zones| :: zones[m].name != w.zone
    ensures AddToZones(zones, w) == zones + [Zone(w.zone, [w])]
  {
    var names := ZoneNames(zones);
    assert forall m | 0 <= m < |zones| :: names[m] != w.zone;
    IndexOfIs(names, w.zone, |zones|);
    var grown := zones + [Zone(w.zone, [])];
    assert grown[|zones|].workers + [w] == [w];
    assert grown[|zones| := Zone(w.zone, [w])] == zones + [Zone(w.zone, [w])];
  }

  /** A worker leaves the zones of other names as they were. */
  lemma ZonesNamedOther(aw: seq<Worker>, w: Worker, names: seq<string>)
    requires w.zone !in names
    ensures ZonesNamed(aw + [w], names) == ZonesNamed(aw, names)
  {
    forall m | 0 <= m < |names|
      ensures Having(aw + [w], ZoneKey, names[m]) == Having(aw, ZoneKey, names[m])
    {
      HavingSnoc(aw, w, ZoneKey, names[m]);
    }
  }

  /** A worker joins the zone of its name and leaves the others alone. */
  lemma ZonesNamedSame(aw: seq<Worker>, w: Worker, names: seq<string>, j: nat)
    requires j < |names| && names[j] == w.zone
    requires Distinct(names)
    ensures ZonesNamed(aw + [w], names)
         == ZonesNamed(aw, names)[j := Zone(w.zone, Having(aw, ZoneKey, w.zone) + [w])]
  {
    var zs, zs' := ZonesNamed(aw, names), ZonesNamed(aw + [w], names);
    var expected := zs[j := Zone(w.zone, Having(aw, ZoneKey, w.zone) + [w])];
    forall m | 0 <= m < |names| ensures zs'[m] == expected[m] {
      HavingSnoc(aw, w, ZoneKey, names[m]);
      if m != j {
        assert names[m] != w.zone;
      }
    }
    assert zs' == expected;
  }

  lemma ZonesStepFound(aw: seq<Worker>, w: Worker)
    requires w.zone in Keys(aw, ZoneKey)
    ensures ZonesOf(aw + [w]) == AddToZones(ZonesOf(aw), w)
  {
    var zn := FirstSeen(Keys(aw, ZoneKey));
    var zs := ZonesOf(aw);
    KeysSnoc(aw, w, ZoneKey);
    FirstSeenSnoc(Keys(aw, ZoneKey), w.zone);
    assert FirstSeen(Keys(aw + [w], ZoneKey)) == zn;
    var j :| 0 <= j < |zn| && zn[j] == w.zone;
    assert forall m | 0 <= m < j :: zs[m].name != w.zone;
    AddToZonesFound(zs, w, j);
    ZonesNamedSame(aw, w, zn, j);
  }

  lemma ZonesStepNew(aw: seq<Worker>, w: Worker)
    requires w.zone !in Keys(aw, ZoneKey)
    ensures ZonesOf(aw + [w]) == AddToZones(ZonesOf(aw), w)
  {
    var zn := FirstSeen(Keys(aw, ZoneKey));
    var zs := ZonesOf(aw);
    KeysSnoc(aw, w, ZoneKey);
    FirstSeenSnoc(Keys(aw, ZoneKey), w.zone);
    assert FirstSeen(Keys(aw + [w], ZoneKey)) == zn + [w.zone];
    forall m | 0 <= m < |zs| ensures zs[m].name != w.zone {
      assert zn[m] in zn;
    }
    AddToZonesNew(zs, w);
    ZonesNamedOther(aw, w, zn);
    HavingSnoc(aw, w, ZoneKey, w.zone);
    ZonesNamedSnoc(aw + [w], zn, w.zone);
  }

  lemma ZonesNamedSnoc(aw: seq<Worker>, names: seq<string>, n: string)
    ensures ZonesNamed(aw, names + [n]) == ZonesNamed(aw, names) + [Zone(n, Having(aw, ZoneKey, n))]
  {
  }

  /** Adding a worker to a group of workers changes its zones exactly as one
      step of the scan does. */
  lemma ZonesStep(aw: seq<Worker>, w: Worker)
    ensures ZonesOf(aw + [w]) == AddToZones(ZonesOf(aw), w)
  {
    if w.zone in Keys(aw, ZoneKey) {
      ZonesStepFound(aw, w);
    } else {
      ZonesStepNew(aw, w);
    }
  }

  lemma AddWorkerFound(areas: seq<Area>, w: Worker, i: nat)
    requires i < |areas| && areas[i].name == w.area
    requires forall m | 0 <= m < i :: areas[m].name != w.area
    ensures AddWorker(areas, w) == areas[i := AddToArea(areas[i], w)]
  {
    var names := AreaNames(areas);
    assert names[i] == w.area;
    assert forall m | 0 <= m < i :: names[m] != w.area;
    IndexOfIs(names, w.area, i);
  }

  lemma AddWorkerNew(areas: seq<Area>, w: Worker)
    requires forall m | 0 <= m < |areas| :: areas[m].name != w.area
    ensures AddWorker(areas, w) == areas + [AddToArea(Area(w.area, 0, []), w)]
  {
    var names := AreaNames(areas);
    assert forall m | 0 <= m < |areas| :: names[m] != w.area;
    IndexOfIs(names, w.area, |areas|);
  }

  /** A worker of another area leaves the area named n as it was. */
  lemma AreaOfOther(ws: seq<Worker>, w: Worker, n: string)
    requires n != w.area
    ensures AreaOf(ws + [w], n) == AreaOf(ws, n)
  {
    HavingSnoc(ws, w, AreaKey, n);
    assert AreaKey(w) != n;
    var aw := Having(ws + [w], AreaKey, n);
    assert aw == Having(ws, AreaKey, n);
  }

  /** A worker of area w.area is filed there as one step of the scan does. */
  lemma AreaOfSame(ws: seq<Worker>, w: Worker)
    ensures AreaOf(ws + [w], w.area) == AddToArea(AreaOf(ws, w.area), w)
  {
    HavingSnoc(ws, w, AreaKey, w.area);
    ZonesStep(Having(ws, AreaKey, w.area), w);
  }

  /** A worker joins the area of its name and leaves the others alone. */
  lemma AreasNamedSame(ws: seq<Worker>, w: Worker, names: seq<string>, i: nat)
    requires i < |names| && names[i] == w.area
    requires Distinct(names)
    ensures AreasNamed(ws + [w], names)
         == AreasNamed(ws, names)[i := AddToArea(AreaOf(ws, w.area), w)]
  {
    var g, g' := AreasNamed(ws, names), AreasNamed(ws + [w], names);
    var expected := g[i := AddToArea(AreaOf(ws, w.area), w)];
    forall m | 0 <= m < |names| ensures g'[m] == expected[m] {
      if m == i {
        AreaOfSame(ws, w);
      } else {
        assert names[m] != w.area;
        AreaOfOther(ws, w, names[m]);
      }
    }
    assert g' == expected;
  }

  lemma GroupingStepFound(ws: seq<Worker>, w: Worker)
    requires w.area in Keys(ws, AreaKey)
    ensures Grouping(ws + [w]) == AddWorker(Grouping(ws), w)
  {
    var an := FirstSeen(Keys(ws, AreaKey));
    var g := Grouping(ws);
    KeysSnoc(ws, w, AreaKey);
    FirstSeenSnoc(Keys(ws, AreaKey), w.area);
    assert FirstSeen(Keys(ws + [w], AreaKey)) == an;
    assert Grouping(ws + [w]) == AreasNamed(ws + [w], an);
    var i :| 0 <= i < |an| && an[i] == w.area;
    assert g[i].name == w.area;
    forall m | 0 <= m < i ensures g[m].name != w.area {
      assert g[m].name == an[m];
    }
    AddWorkerFound(g, w, i);
    AreasNamedSame(ws, w, an, i);
  }

  lemma AreasNamedSnoc(ws: seq<Worker>, names: seq<string>, n: string)
    ensures AreasNamed(ws, names + [n]) == AreasNamed(ws, names) + [AreaOf(ws, n)]
  {
  }

  /** A worker leaves the areas of other names as they were. */
  lemma AreasNamedOther(ws: seq<Worker>, w: Worker, names: seq<string>)
    requires w.area !in names
    ensures AreasNamed(ws + [w], names) == AreasNamed(ws, names)
  {
    forall m | 0 <= m < |names| ensures AreaOf(ws + [w], names[m]) == AreaOf(ws, names[m]) {
      AreaOfOther(ws, w, names[m]);
    }
  }

  lemma GroupingStepNew(ws: seq<Worker>, w: Worker)
    requires w.area !in Keys(ws, AreaKey)
    ensures Grouping(ws + [w]) == AddWorker(Grouping(ws), w)
  {
    var an := FirstSeen(Keys(ws, AreaKey));
    var g := Grouping(ws);
    KeysSnoc(ws, w, AreaKey);
    FirstSeenSnoc(Keys(ws, AreaKey), w.area);
    assert FirstSeen(Keys(ws + [w], AreaKey)) == an + [w.area];
    forall m | 0 <= m < |g| ensures g[m].name != w.area {
      assert an[m] in an;
    }
    AddWorkerNew(g, w);
    AreasNamedSnoc(ws + [w], an, w.area);
    AreasNamedOther(ws, w, an);
    NewAreaOf(ws, w);
  }

  /** Adding a worker changes the reference grouping exactly as one step of
      the scan does. */
  lemma GroupingStep(ws: seq<Worker>, w: Worker)
    ensures Grouping(ws + [w]) == AddWorker(Grouping(ws), w)
  {
    if w.area in Keys(ws, AreaKey) {
      GroupingStepFound(ws, w);
    } else {
      GroupingStepNew(ws, w);
    }
  }

  /** A worker whose area is new opens an area holding just that worker. */
  lemma NewAreaOf(ws: seq<Worker>, w: Worker)
    requires w.area !in Keys(ws, AreaKey)
    ensures AreaOf(ws + [w], w.area) == AddToArea(Area(w.area, 0, []), w)
  {
    HavingSnoc(ws, w, AreaKey, w.area);
    assert Having(ws + [w], AreaKey, w.area) == [w];
    var empty: seq<Worker> := [];
    ZonesStep(empty, w);
    assert empty + [w] == [w];
    assert ZonesOf(empty) == [] by {
      assert Keys(empty, ZoneKey) == [];
    }
  }

  /** The scan computes the reference grouping. */
  lemma {:induction false} AggregateIsGrouping(ws: seq<Worker>)
    ensures Aggregate(ws) == Grouping(ws)
    decreases |ws|
  {
    if |ws| == 0 {
      assert Keys(ws, AreaKey) == [];
    } else {
      var init, w := ws[..|ws| - 1], ws[|ws| - 1];
      assert ws == init + [w];
      AggregateIsGrouping(init);
      GroupingStep(init, w);
      calc {
        Aggregate(ws);
        AddWorker(Aggregate(init), w);
        AddWorker(Grouping(init), w);
        Grouping(init + [w]);
      }
    }
  }

  // ---------------------------------------------------------------------------
  // Properties of the scan
  // ---------------------------------------------------------------------------


  function ZoneBag(z: Zone): multiset<Worker> { multiset(z.workers) }

  function AreaBag(a: Area): multiset<Worker> { BagSum(a.zones, ZoneBag) }

  /** Areas come out in the order their names first occur among the workers,
      each name once. */
  lemma AggregateFirstSeenOrder(ws: seq<Worker>)
    ensures AreaNames(Aggregate(ws)) == FirstSeen(Keys(ws, AreaKey))
    ensures Distinct(AreaNames(Aggregate(ws)))
    ensures forall n :: n in AreaNames(Aggregate(ws)) <==> n in Keys(ws, AreaKey)
  {
    AggregateIsGrouping(ws);
  }

  /** An area as the scan leaves it: its total equals the sizes of its zones
      added up, it has a zone, no zone is empty and zone names do not repeat. */
  ghost predicate WellFormedArea(a: Area)
  {
    && a.totalWorkers == SumOf(a.zones, ZoneSize)
    && |a.zones| > 0
    && (forall j | 0 <= j < |a.zones| :: |a.zones[j].workers| > 0)
    && Distinct(ZoneNames(a.zones))
  }

  lemma AddToZonesCounts(zones: seq<Zone>, w: Worker)
    ensures SumOf(AddToZones(zones, w), ZoneSize) == SumOf(zones, ZoneSize) + 1
    ensures BagSum(AddToZones(zones, w), ZoneBag) == BagSum(zones, ZoneBag) + multiset{w}
  {
    var j := IndexOf(ZoneNames(zones), w.zone);
    var grown := if j == |zones| then zones + [Zone(w.zone, [])] else zones;
    if j == |zones| {
      SumOfSnoc(zones, Zone(w.zone, []), ZoneSize);
      BagSumSnoc(zones, Zone(w.zone, []), ZoneBag);
    }
    var z := grown[j].(workers := grown[j].workers + [w]);
    SumOfUpdate(grown, j, z, ZoneSize);
    assert ZoneBag(z) == ZoneBag(grown[j]) + multiset{w};
    BagSumGrow(grown, j, z, ZoneBag, multiset{w});
  }

  /** The zones of a group of workers add up to the group's size, none is
      empty and their names are distinct. */
  lemma ZonesOfCounts(aw: seq<Worker>)
    ensures SumOf(ZonesOf(aw), ZoneSize) == |aw|
    ensures forall j | 0 <= j < |ZonesOf(aw)| :: |ZonesOf(aw)[j].workers| > 0
    ensures Distinct(ZoneNames(ZonesOf(aw)))
    ensures |aw| > 0 ==> |ZonesOf(aw)| > 0
  {
    var zn := FirstSeen(Keys(aw, ZoneKey));
    var zs := ZonesOf(aw);
    ZonesOfSize(aw);
    assert ZoneNames(zs) == zn;
    forall j | 0 <= j < |zs| ensures |zs[j].workers| > 0 {
      assert zs[j].workers == Having(aw, ZoneKey, zn[j]);
      assert zn[j] in Keys(aw, ZoneKey);
    }
    if |aw| > 0 {
      assert Keys(aw, ZoneKey)[0] in zn;
    }
  }

  /** The zone sizes of a group of workers add up to the group's size. */
  lemma {:induction false} ZonesOfSize(aw: seq<Worker>)
    ensures SumOf(ZonesOf(aw), ZoneSize) == |aw|
    decreases |aw|
  {
    if |aw| == 0 {
      assert Keys(aw, ZoneKey) == [];
    } else {
      var init, w := aw[..|aw| - 1], aw[|aw| - 1];
      assert aw == init + [w];
      ZonesOfSize(init);
      ZonesStep(init, w);
      AddToZonesCounts(ZonesOf(init), w);
    }
  }

  /** The zones of a group of workers hold exactly those workers. */
  lemma {:induction false} ZonesOfBag(aw: seq<Worker>)
    ensures BagSum(ZonesOf(aw), ZoneBag) == multiset(aw)
    decreases |aw|
  {
    if |aw| == 0 {
      assert Keys(aw, ZoneKey) == [];
    } else {
      var init, w := aw[..|aw| - 1], aw[|aw| - 1];
      assert aw == init + [w];
      ZonesOfBag(init);
      ZonesStep(init, w);
      AddToZonesCounts(ZonesOf(init), w);
    }
  }

  /** Every worker picked by `Having` has the key asked for. */
  lemma {:induction false} HavingMatches(ws: seq<Worker>, field: Worker -> string, n: string)
    ensures forall i | 0 <= i < |Having(ws, field, n)| :: field(Having(ws, field, n)[i]) == n
    decreases |ws|
  {
    if |ws| > 0 {
      HavingMatches(ws[..|ws| - 1], field, n);
    }
  }

  /** Every area of the scan is well formed, and its zones hold exactly the
      workers of that area and zone, in input order. */
  lemma AggregateAreasWellFormed(ws: seq<Worker>)
    ensures forall a | a in Aggregate(ws) :: WellFormedArea(a)
    ensures forall a | a in Aggregate(ws) :: a == AreaOf(ws, a.name)
    ensures forall a, z | a in Aggregate(ws) && z in a.zones ::
      z.workers == Having(Having(ws, AreaKey, a.name), ZoneKey, z.name)
  {
    AggregateIsGrouping(ws);
    var an := FirstSeen(Keys(ws, AreaKey));
    forall a | a in Aggregate(ws)
      ensures WellFormedArea(a) && a == AreaOf(ws, a.name)
    {
      var i :| 0 <= i < |an| && Grouping(ws)[i] == a;
      assert an[i] in Keys(ws, AreaKey);
      ZonesOfCounts(Having(ws, AreaKey, a.name));
    }
    forall a, z | a in Aggregate(ws) && z in a.zones
      ensures z.workers == Having(Having(ws, AreaKey, a.name), ZoneKey, z.name)
    {
      var aw := Having(ws, AreaKey, a.name);
      var zn := FirstSeen(Keys(aw, ZoneKey));
      var j :| 0 <= j < |zn| && ZonesOf(aw)[j] == z;
    }
  }

  /** The scan counts every worker once: area totals add up to the number of
      workers, and the zones together hold exactly the input workers. */
  lemma {:induction false} AggregateCountsWorkers(ws: seq<Worker>)
    ensures SumOf(Aggregate(ws), AreaLoad) == |ws|
    ensures BagSum(Aggregate(ws), AreaBag) == multiset(ws)
    decreases |ws|
  {
    if |ws| > 0 {
      var init, w := ws[..|ws| - 1], ws[|ws| - 1];
      assert ws == init + [w];
      AggregateCountsWorkers(init);
      AddWorkerCounts(Aggregate(init), w);
    }
  }

  /** One step of the scan counts the worker once and files it once. */
  lemma AddWorkerCounts(areas: seq<Area>, w: Worker)
    ensures SumOf(AddWorker(areas, w), AreaLoad) == SumOf(areas, AreaLoad) + 1
    ensures BagSum(AddWorker(areas, w), AreaBag) == BagSum(areas, AreaBag) + multiset{w}
  {
    var i := IndexOf(AreaNames(areas), w.area);
    var grown := if i == |areas| then areas + [Area(w.area, 0, [])] else areas;
    if i == |areas| {
      SumOfSnoc(areas, Area(w.area, 0, []), AreaLoad);
      BagSumSnoc(areas, Area(w.area, 0, []), AreaBag);
    }
    AddToZonesCounts(grown[i].zones, w);
    SumOfUpdate(grown, i, AddToArea(grown[i], w), AreaLoad);
    BagSumGrow(grown, i, AddToArea(grown[i], w), AreaBag, multiset{w});
  }

  // ---------------------------------------------------------------------------
  // Object.values order
  // ---------------------------------------------------------------------------

  predicate IsDigits(key: string)
  {
    forall i | 0 <= i < |key| :: '0' <= key[i] <= '9'
  }

  /** The number a string of decimal digits denotes. */
  function DecimalValue(key: string): nat
    requires IsDigits(key)
    decreases |key|
  {
    if |key| == 0 then 0
    else 10 * DecimalValue(key[..|key| - 1]) + (key[|key| - 1] as int - '0' as int)
  }

  /** A canonical decimal numeral below 2^32 - 1: the property keys an
      ordinary object lists first, in ascending numeric order. */
  predicate IsArrayIndex(key: string)
  {
    && |key| > 0
    && IsDigits(key)
    && (key[0] != '0' || |key| == 1)
    && DecimalValue(key) < 0xFFFF_FFFF
  }

  function NumericRank(a: Area): Rank
  {
    if IsArrayIndex(a.name) then Rank(DecimalValue(a.name), 0) else Rank(0, 0)
  }

  predicate IndexNamed(a: Area) { IsArrayIndex(a.name) }

  predicate StringNamed(a: Area) { !IsArrayIndex(a.name) }

  /** The areas whose name is an array index, in insertion order. */
  function IndexKeyed(areas: seq<Area>): seq<Area>
  {
    Filter(areas, IndexNamed)
  }

  /** The areas whose name is any other string, in insertion order. */
  function StringKeyed(areas: seq<Area>): seq<Area>
  {
    Filter(areas, StringNamed)
  }

  /** The order in which `Object.values` lists an object's entries. */
  function ObjectValues(areas: seq<Area>): seq<Area>
  {
    SortBy(IndexKeyed(areas), NumericRank) + StringKeyed(areas)
  }

  /** The areas as both the scheduler and the manual selection see them. */
  function GroupAreas(ws: seq<Worker>): seq<Area>
  {
    ObjectValues(Aggregate(ws))
  }

  lemma KeyedSplit(areas: seq<Area>)
    ensures multiset(IndexKeyed(areas)) + multiset(StringKeyed(areas)) == multiset(areas)
  {
    FilterCounts(areas, IndexNamed);
    FilterCounts(areas, StringNamed);
  }

  lemma SortedIndexKeyedNames(areas: seq<Area>)
    ensures forall i | 0 <= i < |SortBy(IndexKeyed(areas), NumericRank)| ::
      IsArrayIndex(SortBy(IndexKeyed(areas), NumericRank)[i].name)
  {
    var idx := IndexKeyed(areas);
    var sorted := SortBy(idx, NumericRank);
    forall i | 0 <= i < |sorted| ensures IsArrayIndex(sorted[i].name) {
      assert sorted[i] in multiset(idx);
      var k :| 0 <= k < |idx| && idx[k] == sorted[i];
      assert IndexNamed(idx[k]);
    }
  }

  /** `Object.values` lists every area once. */
  lemma ObjectValuesPermutes(areas: seq<Area>)
    ensures multiset(ObjectValues(areas)) == multiset(areas)
  {
    KeyedSplit(areas);
  }

  /** Array-index names come first, in ascending numeric order. */
  lemma ObjectValuesIndexFirst(areas: seq<Area>)
    ensures forall i, j | 0 <= i < j < |ObjectValues(areas)| && IsArrayIndex(ObjectValues(areas)[j].name) ::
      && IsArrayIndex(ObjectValues(areas)[i].name)
      && DecimalValue(ObjectValues(areas)[i].name) <= DecimalValue(ObjectValues(areas)[j].name)
  {
    var sorted := SortBy(IndexKeyed(areas), NumericRank);
    var r := ObjectValues(areas);
    SortedIndexKeyedNames(areas);
    forall k | |sorted| <= k < |r| ensures !IsArrayIndex(r[k].name) {
      assert r[k] == StringKeyed(areas)[k - |sorted|];
      assert StringNamed(r[k]);
    }
    forall i, j | 0 <= i < j < |r| && IsArrayIndex(r[j].name)
      ensures IsArrayIndex(r[i].name) && DecimalValue(r[i].name) <= DecimalValue(r[j].name)
    {
      assert j < |sorted|;
      assert r[i] == sorted[i] && r[j] == sorted[j];
    }
  }

  /** The other names keep their insertion order. */
  lemma ObjectValuesStringOrder(areas: seq<Area>)
    ensures StringKeyed(ObjectValues(areas)) == StringKeyed(areas)
  {
    var sorted := SortBy(IndexKeyed(areas), NumericRank);
    var rest := StringKeyed(areas);
    assert Filter(sorted, StringNamed) == [] by {
      SortedIndexKeyedNames(areas);
      FilterNone(sorted, StringNamed);
    }
    assert Filter(rest, StringNamed) == rest by {
      FilterAll(rest, StringNamed);
    }
    FilterConcat(sorted, rest, StringNamed);
    assert ObjectValues(areas) == sorted + rest;
  }

  /** When no name is an array index the insertion order is kept as is. */
  lemma ObjectValuesInsertionOrder(areas: seq<Area>)
    requires forall i | 0 <= i < |areas| :: !IsArrayIndex(areas[i].name)
    ensures ObjectValues(areas) == areas
  {
    FilterAll(areas, StringNamed);
    FilterNone(areas, IndexNamed);
  }

  /** Two areas of the grouping with the same name are the same area. */
  lemma AreasDistinct(ws: seq<Worker>)
    ensures Distinct(Aggregate(ws))
  {
    AggregateFirstSeenOrder(ws);
    var g := Aggregate(ws);
    forall i, j | 0 <= i < j < |g| ensures g[i] != g[j] {
      assert AreaNames(g)[i] != AreaNames(g)[j];
    }
  }

  /** `Object.values` hands over every area of the scan exactly once. */
  lemma GroupAreasPermutes(ws: seq<Worker>)
    ensures multiset(GroupAreas(ws)) == multiset(Aggregate(ws))
    ensures forall a :: multiset(GroupAreas(ws))[a] <= 1
    ensures forall a | a in GroupAreas(ws) :: a in Aggregate(ws)
  {
    var g := Aggregate(ws);
    var r := GroupAreas(ws);
    ObjectValuesPermutes(g);
    AreasDistinct(ws);
    DistinctIffSingletons(g);
    forall a | a in r ensures a in g {
      assert a in multiset(r);
    }
  }

  /** The areas both callers see are well formed and each holds exactly the
      workers of its name. */
  lemma GroupAreasWellFormed(ws: seq<Worker>)
    ensures forall a | a in GroupAreas(ws) :: WellFormedArea(a) && a == AreaOf(ws, a.name)
  {
    GroupAreasPermutes(ws);
    AggregateAreasWellFormed(ws);
  }

  /** Reordering areas keeps the set of their names and the fact that no
      name repeats. */
  lemma NamesOfPermutation(g: seq<Area>, r: seq<Area>)
    requires multiset(r) == multiset(g)
    ensures forall n :: n in AreaNames(r) <==> n in AreaNames(g)
    ensures Distinct(AreaNames(g)) ==> Distinct(AreaNames(r))
  {
    forall n ensures n in AreaNames(r) <==> n in AreaNames(g) {
      if n in AreaNames(r) {
        var i :| 0 <= i < |r| && AreaNames(r)[i] == n;
        assert r[i] in multiset(g);
        var k :| 0 <= k < |g| && g[k] == r[i];
        assert AreaNames(g)[k] == n;
      }
      if n in AreaNames(g) {
        var k :| 0 <= k < |g| && AreaNames(g)[k] == n;
        assert g[k] in multiset(r);
        var i :| 0 <= i < |r| && r[i] == g[k];
        assert AreaNames(r)[i] == n;
      }
    }
    if Distinct(AreaNames(g)) {
      DistinctIffSingletons(g);
      DistinctIffSingletons(r);
      assert Distinct(g) by {
        forall i, j | 0 <= i < j < |g| ensures g[i] != g[j] {
          assert AreaNames(g)[i] != AreaNames(g)[j];
        }
      }
      forall i, j | 0 <= i < j < |r| ensures AreaNames(r)[i] != AreaNames(r)[j] {
        assert r[i] != r[j];
        assert r[i] in multiset(g) && r[j] in multiset(g);
        NameDetermines(g, r[i], r[j]);
      }
    }
  }

  lemma NameDetermines(g: seq<Area>, a: Area, b: Area)
    requires Distinct(AreaNames(g))
    requires a in g && b in g
    ensures a.name == b.name ==> a == b
  {
    var p :| 0 <= p < |g| && g[p] == a;
    var q :| 0 <= q < |g| && g[q] == b;
    assert AreaNames(g)[p] == a.name && AreaNames(g)[q] == b.name;
  }

  /** One area per distinct area name of the input, no name twice. */
  lemma GroupAreasNames(ws: seq<Worker>)
    ensures forall n :: n in AreaNames(GroupAreas(ws)) <==> n in Keys(ws, AreaKey)
    ensures Distinct(AreaNames(GroupAreas(ws)))
  {
    GroupAreasPermutes(ws);
    AggregateFirstSeenOrder(ws);
    NamesOfPermutation(Aggregate(ws), GroupAreas(ws));
  }

  /** The totals of the areas add up to the number of workers, and the zones
      together hold exactly the input workers. */
  lemma GroupAreasCounts(ws: seq<Worker>)
    ensures SumOf(GroupAreas(ws), AreaLoad) == |ws|
    ensures BagSum(GroupAreas(ws), AreaBag) == multiset(ws)
  {
    GroupAreasPermutes(ws);
    AggregateCountsWorkers(ws);
    SumOfPermutation(GroupAreas(ws), Aggregate(ws), AreaLoad);
    BagSumPermutation(GroupAreas(ws), Aggregate(ws), AreaBag);
  }

  /** An area of the grouping holds exactly the workers of that area name. */
  lemma AreaOfBag(ws: seq<Worker>, n: string)
    ensures AreaBag(AreaOf(ws, n)) == multiset(Having(ws, AreaKey, n))
    ensures AreaLoad(AreaOf(ws, n)) == |AreaBag(AreaOf(ws, n))|
    ensures forall w: Worker | w in AreaBag(AreaOf(ws, n)) :: w.area == n
  {
    var aw := Having(ws, AreaKey, n);
    ZonesOfBag(aw);
    HavingMatches(ws, AreaKey, n);
    forall w: Worker | w in multiset(aw) ensures w.area == n {
      var i :| 0 <= i < |aw| && aw[i] == w;
    }
  }

  /** Every area of the result counts its own workers, all of which carry its
      name. */
  lemma GroupAreasBags(ws: seq<Worker>)
    ensures forall a | a in GroupAreas(ws) ::
      AreaLoad(a) == |AreaBag(a)| && forall w: Worker | w in AreaBag(a) :: w.area == a.name
  {
    GroupAreasWellFormed(ws);
    forall a | a in GroupAreas(ws)
      ensures AreaLoad(a) == |AreaBag(a)| && forall w: Worker | w in AreaBag(a) :: w.area == a.name
    {
      AreaOfBag(ws, a.name);
    }
  }

  /** There are areas exactly when there are workers. */
  lemma GroupAreasEmpty(ws: seq<Worker>)
    ensures |GroupAreas(ws)| == 0 <==> |ws| == 0
  {
    GroupAreasNames(ws);
    if |ws| > 0 {
      assert Keys(ws, AreaKey)[0] in Keys(ws, AreaKey);
      assert |AreaNames(GroupAreas(ws))| > 0;
    } else {
      assert Keys(ws, AreaKey) == [];
      assert AreaNames(GroupAreas(ws)) == [];
    }
  }
}
