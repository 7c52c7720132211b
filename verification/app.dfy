/**
 * The planning screen of App.tsx as a state machine: the three steps
 * (upload, set-up, reports), the automatic and manual modes, the manual
 * selection of one inspector and a set of area names, and the guard that
 * keeps `distributePlans` away from an empty inspector list. React state
 * becomes one immutable `UiState`; each button or upload handler becomes an
 * `Event`, and `Dispatch` applies it. An event whose control is not shown
 * on the current step cannot happen and leaves the state alone.
 */
module App {
  import opened Types
  import opened Seqs
  import opened Aggregation
  import opened Balancer

  // ---------------------------------------------------------------------------
  // Manual selection
  // ---------------------------------------------------------------------------

  /** `inspectors.find(i => i.name === name)`: the first inspector of that
      name, if any. */
  function FindInspector(ins: seq<Inspector>, name: string): (r: Option<Inspector>)
    ensures r.None? <==> forall i | 0 <= i < |ins| :: ins[i].name != name
    ensures r.Some? ==> exists i | 0 <= i < |ins| ::
      && ins[i] == r.value && r.value.name == name
      && forall j | 0 <= j < i :: ins[j].name != name
    decreases |ins|
  {
    if |ins| == 0 then None
    else if ins[0].name == name then Some(ins[0])
    else
      var r := FindInspector(ins[1..], name);
      if r.Some? then
        assert forall i | 0 < i < |ins| :: ins[i] == ins[1..][i - 1];
        r
      else r
  }

  /** `a => selected.includes(a.name)`. */
  function IsSelected(sel: seq<string>): Area -> bool
  {
    (a: Area) => a.name in sel
  }

  /** `a => a !== name`. */
  function IsOther(name: string): string -> bool
  {
    (n: string) => n != name
  }

  /** `availableAreas.filter(a => selected.includes(a.name))`. */
  function SelectAreas(areas: seq<Area>, sel: seq<string>): (r: seq<Area>)
    ensures forall i | 0 <= i < |r| :: r[i].name in sel
  {
    Filter(areas, IsSelected(sel))
  }

  /** The manual report: nothing when no inspector has the chosen name,
      otherwise one assignment for the first inspector of that name with the
      selected areas and their total. */
  function ManualAssignment(ins: seq<Inspector>, name: string, areas: seq<Area>, sel: seq<string>)
    : (r: seq<Assignment>)
    ensures |r| == 0 <==> forall i | 0 <= i < |ins| :: ins[i].name != name
    ensures |r| <= 1
    ensures |r| == 1 ==> exists i | 0 <= i < |ins| ::
      && ins[i] == r[0].inspector && ins[i].name == name
      && forall j | 0 <= j < i :: ins[j].name != name
    ensures |r| == 1 ==> r[0].areas == SelectAreas(areas, sel)
    ensures |r| == 1 ==> r[0].totalWorkers == SumOf(r[0].areas, AreaLoad)
  {
    match FindInspector(ins, name)
    case None => []
    case Some(inspector) =>
      var chosen := SelectAreas(areas, sel);
      LoadsNonNegative(chosen);
      [Assignment(inspector, chosen, SumOf(chosen, AreaLoad))]
  }

  lemma {:induction false} LoadsNonNegative(areas: seq<Area>)
    ensures SumOf(areas, AreaLoad) >= 0
    decreases |areas|
  {
    if |areas| > 0 {
      LoadsNonNegative(areas[1..]);
    }
  }

  /** The selected areas are exactly the available areas whose name is
      selected, each as often as it is available. */
  lemma SelectAreasContents(areas: seq<Area>, sel: seq<string>)
    ensures forall a :: multiset(SelectAreas(areas, sel))[a] == if a.name in sel then multiset(areas)[a] else 0
  {
    FilterCounts(areas, IsSelected(sel));
  }

  /** Selection keeps the order of the available areas. */
  lemma SelectAreasKeepsOrder(a: seq<Area>, b: seq<Area>, sel: seq<string>)
    ensures SelectAreas(a + b, sel) == SelectAreas(a, sel) + SelectAreas(b, sel)
  {
    FilterConcat(a, b, IsSelected(sel));
  }

  /** Only the set of selected names matters, not their order or repetitions. */
  lemma SelectAreasIgnoresOrder(areas: seq<Area>, sel1: seq<string>, sel2: seq<string>)
    requires forall n :: n in sel1 <==> n in sel2
    ensures SelectAreas(areas, sel1) == SelectAreas(areas, sel2)
  {
    FilterSame(areas, IsSelected(sel1), IsSelected(sel2));
  }

  /** Over the grouping, the manual report lists each selected area once and
      no name twice. */
  lemma SelectedAreasOnce(ws: seq<Worker>, sel: seq<string>)
    ensures forall a :: multiset(SelectAreas(GroupAreas(ws), sel))[a] <= 1
    ensures Distinct(AreaNames(SelectAreas(GroupAreas(ws), sel)))
  {
    var areas := GroupAreas(ws);
    var r := SelectAreas(areas, sel);
    assert forall a :: multiset(areas)[a] <= 1 by {
      GroupAreasPermutes(ws);
    }
    assert Distinct(AreaNames(areas)) by {
      GroupAreasNames(ws);
    }
    assert forall a :: multiset(r)[a] <= multiset(areas)[a] by {
      SelectAreasContents(areas, sel);
    }
    FilteredNamesDistinct(areas, r);
  }

  /** Keeping some of the areas, each at most as often as before, keeps their
      names distinct. */
  lemma FilteredNamesDistinct(areas: seq<Area>, r: seq<Area>)
    requires Distinct(AreaNames(areas))
    requires forall a :: multiset(r)[a] <= multiset(areas)[a]
    requires forall a :: multiset(areas)[a] <= 1
    ensures Distinct(AreaNames(r))
  {
    forall i, j | 0 <= i < j < |r| ensures AreaNames(r)[i] != AreaNames(r)[j] {
      SubsequenceNames(areas, r, i, j);
    }
  }

  /** Holds of a worker whose area name is among the selected names: the
      workers a manual report is meant to cover. */
  function WorkerSelected(sel: seq<string>): Worker -> bool
  {
    (w: Worker) => w.area in sel
  }

  /** When every area holds only workers of its own name, selecting areas by
      name selects their workers by area name. */
  lemma {:induction false} SelectedBag(areas: seq<Area>, sel: seq<string>)
    requires forall a | a in areas :: forall w: Worker | w in AreaBag(a) :: w.area == a.name
    ensures forall w: Worker :: BagSum(SelectAreas(areas, sel), AreaBag)[w]
                             == if w.area in sel then BagSum(areas, AreaBag)[w] else 0
    decreases |areas|
  {
    if |areas| > 0 {
      var a, rest := areas[0], areas[1..];
      SelectedBag(rest, sel);
      var head := if a.name in sel then [a] else [];
      assert SelectAreas(areas, sel) == head + SelectAreas(rest, sel);
      BagSumConcat(head, SelectAreas(rest, sel), AreaBag);
      assert BagSum(head, AreaBag) == if a.name in sel then AreaBag(a) else multiset{};
    }
  }

  /** The loads of areas that count their own workers add up to the size of
      the union of those workers. */
  lemma {:induction false} LoadsCountWorkers(areas: seq<Area>)
    requires forall a | a in areas :: AreaLoad(a) == |AreaBag(a)|
    ensures SumOf(areas, AreaLoad) == |BagSum(areas, AreaBag)|
    decreases |areas|
  {
    if |areas| > 0 {
      LoadsCountWorkers(areas[1..]);
    }
  }

  /** Over the grouping, a manual report carries exactly the workers whose
      area is selected, and its total counts them. */
  lemma ManualCountsWorkers(ins: seq<Inspector>, name: string, ws: seq<Worker>, sel: seq<string>)
    ensures var r := ManualAssignment(ins, name, GroupAreas(ws), sel);
      |r| == 1 ==>
        && BagSum(r[0].areas, AreaBag) == multiset(Filter(ws, WorkerSelected(sel)))
        && r[0].totalWorkers == |Filter(ws, WorkerSelected(sel))|
  {
    var areas := GroupAreas(ws);
    var chosen := SelectAreas(areas, sel);
    var mine := Filter(ws, WorkerSelected(sel));
    GroupAreasBags(ws);
    GroupAreasCounts(ws);
    SelectedBag(areas, sel);
    FilterCounts(ws, WorkerSelected(sel));
    assert BagSum(chosen, AreaBag) == multiset(mine);
    SelectAreasContents(areas, sel);
    forall a | a in chosen ensures AreaLoad(a) == |AreaBag(a)| {
      assert multiset(chosen)[a] > 0;
    }
    LoadsCountWorkers(chosen);
  }

  /** Two positions of a filtered sequence come from two positions of the
      original, so distinct names survive filtering. */
  lemma SubsequenceNames(areas: seq<Area>, r: seq<Area>, i: nat, j: nat)
    requires Distinct(AreaNames(areas))
    requires forall a :: multiset(r)[a] <= multiset(areas)[a]
    requires forall a :: multiset(areas)[a] <= 1
    requires i < j < |r|
    ensures r[i].name != r[j].name
  {
    assert r[i] in multiset(areas) && r[j] in multiset(areas);
    NameDetermines(areas, r[i], r[j]);
    PositionsCount(r, i, j);
  }

  // ---------------------------------------------------------------------------
  // Toggling an area name
  // ---------------------------------------------------------------------------

  /** `prev.includes(name) ? prev.filter(a => a !== name) : [...prev, name]`. */
  function Toggle(prev: seq<string>, name: string): (r: seq<string>)
    ensures forall n :: n in r <==> (n in prev && n != name) || (n == name && name !in prev)
  {
    if name in prev then
      var kept := Filter(prev, IsOther(name));
      FilterCounts(prev, IsOther(name));
      assert forall n :: n in kept <==> n in multiset(kept);
      kept
    else prev + [name]
  }

  /** Removing a selected name drops every copy of it and keeps every other
      name as often as it was there. */
  lemma ToggleRemoves(prev: seq<string>, name: string)
    requires name in prev
    ensures forall n :: multiset(Toggle(prev, name))[n] == if n == name then 0 else multiset(prev)[n]
  {
    FilterCounts(prev, IsOther(name));
  }

  /** Removing a selected name keeps the other names in their order: the
      result is what removal leaves of each part of the list, one after the
      other. */
  lemma ToggleRemovesInOrder(before: seq<string>, after: seq<string>, name: string)
    requires name in before + after
    ensures Toggle(before + after, name) == Filter(before, IsOther(name)) + Filter(after, IsOther(name))
  {
    FilterConcat(before, after, IsOther(name));
  }

  /** Adding a name that is not selected appends it at the end. */
  lemma ToggleAppends(prev: seq<string>, name: string)
    requires name !in prev
    ensures Toggle(prev, name)[..|prev|] == prev
    ensures |Toggle(prev, name)| == |prev| + 1 && Toggle(prev, name)[|prev|] == name
  {
  }

  /** Toggling a name that is not selected twice restores the selection. */
  lemma ToggleTwice(prev: seq<string>, name: string)
    requires name !in prev
    ensures Toggle(Toggle(prev, name), name) == prev
  {
    var once := prev + [name];
    FilterConcat(prev, [name], IsOther(name));
    FilterAll(prev, IsOther(name));
    assert Filter([name], IsOther(name)) == [];
  }

  // ---------------------------------------------------------------------------
  // The screen
  // ---------------------------------------------------------------------------

  datatype Mode = Auto | Manual

  /** Steps 1, 2 and 3 of the screen. */
  datatype Screen = Upload | Setup | Reports

  /** The React state the planning logic reads and writes. `error` says
      whether an error banner is shown; its text is not modelled. */
  datatype UiState = UiState(
    step: Screen,
    mode: Mode,
    workers: seq<Worker>,
    inspectors: seq<Inspector>,
    error: bool,
    finalAssignments: seq<Assignment>,
    selectedInspector: string,
    selectedAreas: seq<string>)

  const Initial := UiState(Upload, Auto, [], [], false, [], "", [])

  /** The "continue" button of step 1 is enabled. */
  predicate CanProceed(st: UiState)
  {
    |st.workers| > 0 && |st.inspectors| > 0
  }

  /** Past step 1 both lists are non-empty. */
  predicate Invariant(st: UiState)
  {
    st.step != Upload ==> CanProceed(st)
  }

  /** `generatePlan`: in automatic mode run the balancer and show the
      reports; in manual mode refuse without an inspector name or an area,
      raising the error banner and staying on the step. */
  function GeneratePlan(st: UiState): (r: UiState)
    requires st.mode == Manual || |st.inspectors| > 0 || |st.workers| == 0
    ensures st.mode == Auto ==>
      && r.step == Reports
      && r.finalAssignments == DistributePlans(st.workers, st.inspectors)
      && r.(step := st.step, finalAssignments := st.finalAssignments) == st
    ensures st.mode == Manual && (st.selectedInspector == "" || |st.selectedAreas| == 0) ==>
      r.step == st.step && r.error && r.(error := st.error) == st
    ensures st.mode == Manual && st.selectedInspector != "" && |st.selectedAreas| > 0 ==>
      r.step == Reports && r.(step := st.step) == st
  {
    match st.mode
    case Auto =>
      st.(finalAssignments := DistributePlans(st.workers, st.inspectors), step := Reports)
    case Manual =>
      if st.selectedInspector == "" || |st.selectedAreas| == 0 then st.(error := true)
      else st.(step := Reports)
  }

  /** `mode === 'auto' ? finalAssignments : getManualAssignment()`. */
  function CurrentAssignments(st: UiState): seq<Assignment>
  {
    match st.mode
    case Auto => st.finalAssignments
    case Manual =>
      ManualAssignment(st.inspectors, st.selectedInspector, GroupAreas(st.workers), st.selectedAreas)
  }

  /** In manual mode the reports and exports get at most one assignment, and
      none exactly when no inspector has the chosen name; that assignment's
      areas are the grouped areas whose name is selected. */
  lemma CurrentAssignmentsManual(st: UiState)
    requires st.mode == Manual
    ensures |CurrentAssignments(st)| <= 1
    ensures |CurrentAssignments(st)| == 0 <==>
      forall i | 0 <= i < |st.inspectors| :: st.inspectors[i].name != st.selectedInspector
    ensures |CurrentAssignments(st)| == 1 ==>
      CurrentAssignments(st)[0].areas == SelectAreas(GroupAreas(st.workers), st.selectedAreas)
  {
  }

  datatype Event =
    | WorkersLoaded(ws: seq<Worker>)
    | InspectorsLoaded(ins: seq<Inspector>)
    | UploadFailed
    | Proceed
    | ChooseMode(m: Mode)
    | ChooseInspector(name: string)
    | ToggleArea(name: string)
    | Generate
    | Back

  /** One user action. Uploads and "continue" belong to step 1, inspector
      and area choice and "generate" to step 2 in manual or either mode,
      "back" to steps 2 and 3; the mode switch is on every step. */
  function Dispatch(st: UiState, e: Event): (r: UiState)
    requires Invariant(st)
    ensures Invariant(r)
    ensures r.step == Setup && st.step == Upload ==> CanProceed(st)
  {
    match e
    case WorkersLoaded(ws) =>
      if st.step == Upload then st.(workers := ws, error := false) else st
    case InspectorsLoaded(ins) =>
      if st.step == Upload then st.(inspectors := ins, error := false) else st
    case UploadFailed =>
      if st.step == Upload then st.(error := true) else st
    case Proceed =>
      if st.step == Upload && CanProceed(st) then st.(step := Setup) else st
    case ChooseMode(m) =>
      st.(mode := m)
    case ChooseInspector(name) =>
      if st.step == Setup && st.mode == Manual then st.(selectedInspector := name) else st
    case ToggleArea(name) =>
      if st.step == Setup && st.mode == Manual then st.(selectedAreas := Toggle(st.selectedAreas, name)) else st
    case Generate =>
      if st.step == Setup then GeneratePlan(st) else st
    case Back =>
      match st.step
      case Upload => st
      case Setup => st.(step := Upload)
      case Reports => st.(step := Setup)
  }

  /** The state after a sequence of actions. */
  function Run(st: UiState, es: seq<Event>): (r: UiState)
    requires Invariant(st)
    ensures Invariant(r)
    decreases |es|
  {
    if |es| == 0 then st else Run(Dispatch(st, es[0]), es[1..])
  }

  /** Whatever the user does, the balancer is only ever run with at least one
      inspector, and generating in automatic mode shows its result. */
  lemma GenerateIsSafe(es: seq<Event>)
    ensures var st := Run(Initial, es);
      st.step == Setup && st.mode == Auto ==>
        && |st.inspectors| > 0
        && CurrentAssignments(Dispatch(st, Generate))
           == DistributePlans(st.workers, st.inspectors)
  {
    var st := Run(Initial, es);
    assert Invariant(st);
    if st.step == Setup && st.mode == Auto {
      AutoGenerate(st);
    }
  }

  /** From a reachable set-up step in automatic mode, generating runs the
      balancer on the loaded lists and shows its result. */
  lemma AutoGenerate(st: UiState)
    requires Invariant(st) && st.step == Setup && st.mode == Auto
    ensures |st.inspectors| > 0
    ensures CurrentAssignments(Dispatch(st, Generate)) == DistributePlans(st.workers, st.inspectors)
  {
    GenerateOnSetup(st);
    assert GeneratePlan(st).mode == Auto;
  }

  /** On step 2 the generate button runs `generatePlan`. */
  lemma GenerateOnSetup(st: UiState)
    requires Invariant(st) && st.step == Setup
    ensures Dispatch(st, Generate) == GeneratePlan(st)
  {
  }
}
