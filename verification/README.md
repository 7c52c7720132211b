# Inspection plan scheduler — Dafny model

This project models the core of a small inspection-planning web app. The app
takes a list of cleaning workers, each tagged with an *area* and a *zone*, and
a list of inspectors. It divides the areas among the inspectors. There are two
ways to do that:

- **Automatic** (`distributePlans` in `utils/scheduler.ts`). Group the workers
  into areas and zones. Sort the areas by head-count, largest first. Give each
  area in turn to the inspector who has the fewest areas so far; ties go to the
  one with the fewest workers. A full tie goes to the assignment that comes
  first in the current array order. Earlier rounds have already rearranged
  that order, so it is not the inspectors' order.
- **Manual** (`App.tsx`). The user picks one inspector and a set of area names.
  The report lists the grouped areas with those names and their total.
  If no inspector has the chosen name, the report is empty and the app raises
  no error (`App.tsx:113`).

The screen logic around both paths is modelled as well: three steps (upload,
set-up, reports), the mode switch, the manual choices and the guard on
"continue".

Modules, in dependency order:

- `Types` (`types.dfy`): workers, inspectors, zones, areas and assignments.
- `Seqs` (`seqs.dfy`):
  - sums and multiset unions over sequences, with their permutation lemmas;
  - `Array.prototype.filter` as `Filter`.
- `Sorting` (`sorting.dfy`): `Array.prototype.sort` with a comparator. The
  language has required this sort to be stable since ECMAScript 2019, so it is
  modelled as a stable insertion sort by a lexicographic key. `StableSortUnique`
  proves that every stable sort gives the same result.
- `Aggregation` (`aggregation.dfy`): the grouping scan.
  - The scan appears twice in the source: `utils/scheduler.ts:5-20` and
    `App.tsx:47-64`. It is defined once here, as a left fold (`Aggregate`).
  - `Grouping` is an independent, non-incremental definition, and
    `AggregateIsGrouping` proves the two are equal.
  - `ObjectValues` models how `Object.values` orders the areas.
    - Keys that are array indices (canonical decimal numbers below 2^32 − 1)
      come first, in ascending numeric order.
    - Every other key follows, in insertion order.
  - `GroupAreas` is the scan followed by `ObjectValues`: what both callers see.
- `Balancer` (`balancer.dfy`): `distributePlans`.
  - `SortAreas` is the descending stable sort.
  - `InitialAssignments` gives one empty assignment per inspector.
  - `Step` is one round of the placement loop. It stably re-sorts the
    assignments by (area count, workers) and then grows the first one.
  - `PlaceAll` runs the loop.
  - The lemmas cover:
    - bookkeeping: no inspector or area lost, and totals that add up;
    - the target choice;
    - balance: area counts differ by at most one, and worker totals differ by
      at most the largest area.
- `App` (`app.dfy`): the manual path, `toggleManualArea`, `generatePlan` and
  the step guard. The screen is a `UiState` that changes through `Dispatch`,
  one `Event` at a time.

Integers are unbounded. The counts in the source are JavaScript numbers, which
are exact up to 2^53, far beyond any real worker list.

## Model

| member | source | states |
|---|---|---|
| Aggregation.IndexOf | utils/scheduler.ts:12 | `find` by name: the first position holding the name, or the length when no entry has it |
| Aggregation.AddToZonesFound | utils/scheduler.ts:12-18 | `AddToZones` for a worker whose zone exists: the worker is appended to the first zone of that name, and every other zone is unchanged |
| Aggregation.AddToZonesNew | utils/scheduler.ts:12-18 | `AddToZones` for a worker whose zone is new: a zone holding only that worker is opened after the existing ones |
| Aggregation.ZonesStep | utils/scheduler.ts:12-18 | `AddToZones` changes the reference zones of a group exactly as appending the worker to the group does |
| Aggregation.AddToZonesCounts | utils/scheduler.ts:18 | `AddToZones` raises the sum of zone sizes by one and adds the worker once to the zones' contents |
| Aggregation.AreaOfSame | utils/scheduler.ts:12-19 | `AddToArea`: filing a worker under its own area and counting it gives the reference area of the grown worker list |
| Aggregation.AddWorkerFound | utils/scheduler.ts:8-19 | `AddWorker` for a worker whose area exists: only the first area of that name changes, by `AddToArea` |
| Aggregation.AddWorkerNew | utils/scheduler.ts:8-19 | `AddWorker` for a worker whose area is new: an area with total 0 and no zones is opened after the existing ones, and the worker is filed in it |
| Aggregation.AddWorkerCounts | utils/scheduler.ts:18-19 | `AddWorker` raises the sum of area totals by one and adds the worker once to the areas' contents |
| Aggregation.GroupingStep | utils/scheduler.ts:7-20 | one `AddWorker` step changes the reference grouping exactly as appending the worker to the input does |
| Aggregation.AggregateIsGrouping | utils/scheduler.ts:5-20 | `Aggregate`, the scan that `availableAreas` repeats at `App.tsx:49-62`, equals the reference grouping: one area per distinct area name, in order of first appearance, whose zones are the distinct zone names of its workers in order of first appearance, each holding exactly the workers with that area and zone |
| Aggregation.AggregateFirstSeenOrder | utils/scheduler.ts:8-10 | area names come out in first-appearance order, pairwise distinct, and a name is an area name exactly when some worker carries it |
| Aggregation.AreasDistinct | utils/scheduler.ts:8-10 | no area occurs twice in the scan's result |
| Aggregation.ZonesOfCounts | utils/scheduler.ts:12-19 | within one area, the zone sizes add up to the area's worker count, no zone is empty, zone names are distinct, and an area with workers has a zone |
| Aggregation.ZonesOfBag | utils/scheduler.ts:12-18 | the zones of an area together hold exactly that area's workers, each once |
| Aggregation.AggregateAreasWellFormed | utils/scheduler.ts:7-20 | every area's total equals the sum of its zone sizes, it has a zone, no zone is empty, zone names are distinct, and each zone's workers are exactly the input workers of that area and zone in input order |
| Aggregation.AggregateCountsWorkers | utils/scheduler.ts:18-19 | area totals add up to the number of workers, and the zones of all areas together hold exactly the input workers: none lost, none duplicated |
| Aggregation.ObjectValuesPermutes | utils/scheduler.ts:22 | `ObjectValues`, used here and at `App.tsx:63`, reorders the areas without losing or adding any |
| Aggregation.ObjectValuesIndexFirst | utils/scheduler.ts:22 | an area keyed by an array index is preceded only by areas keyed by array indices of no larger value |
| Aggregation.ObjectValuesStringOrder | utils/scheduler.ts:22 | areas with non-index keys keep their insertion order |
| Aggregation.ObjectValuesInsertionOrder | App.tsx:63 | when no area name is an array index, `Object.values` returns the areas in insertion order |
| Aggregation.GroupAreasPermutes | App.tsx:47-64 | `GroupAreas`, the areas both callers see, are a reordering of the scan's areas, each exactly once |
| Aggregation.GroupAreasWellFormed | App.tsx:47-64 | every area seen is well formed and equals the reference area of its name |
| Aggregation.GroupAreasNames | App.tsx:47-64 | the names seen are exactly the workers' area names, with no repeats |
| Aggregation.GroupAreasCounts | App.tsx:58-61 | the totals seen add up to the number of workers, and their zones hold exactly the input workers |
| Aggregation.AreaOfBag | App.tsx:58-61 | an area holds exactly the workers carrying its name, and its total counts them |
| Aggregation.GroupAreasBags | App.tsx:58-61 | every area seen counts its own workers, and all of them carry its name |
| Aggregation.GroupAreasEmpty | utils/scheduler.ts:5-22 | there are no areas exactly when there are no workers |
| Sorting.SortBy | utils/scheduler.ts:22 | the sort is a permutation of its input and leaves no element in front of a smaller one |
| Sorting.SortByStable | utils/scheduler.ts:31-36 | elements of equal key keep their relative order |
| Sorting.StableSortUnique | utils/scheduler.ts:31-36 | any sorted rearrangement that keeps the order of equal keys is the insertion sort's result |
| Sorting.SortByHeadIsLeast | utils/scheduler.ts:38 | the first element after sorting is an input element whose key is not above that of any input element |
| Balancer.SortAreas | utils/scheduler.ts:22 | `sortedAreas` is a permutation of the areas, non-increasing in worker count |
| Balancer.SortAreasStable | utils/scheduler.ts:22 | areas with the same worker count keep their order from before the sort |
| Balancer.InitialAssignments | utils/scheduler.ts:24-28 | one assignment per inspector, in inspector order, with no areas and total 0 |
| Balancer.InitialAssignmentsEmpty | utils/scheduler.ts:24-28 | the initial assignments hold the inspectors exactly, no areas and no workers, and are consistent |
| Balancer.DistributePlans | utils/scheduler.ts:4-44 | the result has exactly one assignment per inspector |
| Balancer.StepInspectors | utils/scheduler.ts:31-39 | a placement round re-sorts and grows one assignment without losing or duplicating an inspector |
| Balancer.StepAreas | utils/scheduler.ts:38-39 | a placement round adds the placed area, once, to the areas held |
| Balancer.StepLoad | utils/scheduler.ts:38-40 | a placement round raises the grand total by the area's worker count |
| Balancer.AddAreaKeepsTotal | utils/scheduler.ts:39-40 | `AddArea` keeps the inspector and the areas already held, adds the new area once, and keeps the total equal to the sum of the areas' totals |
| Balancer.StepChoosesLeast | utils/scheduler.ts:31-40 | `Step` grows an existing assignment that is least in (area count, workers) among all of them. Of several such assignments it picks the earliest in the current order. |
| Balancer.StepReplacesTarget | utils/scheduler.ts:31-40 | `Step`: apart from the order, a round replaces the target by the target plus the area and changes nothing else |
| Balancer.PlaceAllInspectors | utils/scheduler.ts:30-41 | the placement loop keeps the inspectors as they were |
| Balancer.PlaceAllAreas | utils/scheduler.ts:30-41 | `PlaceAll`: after the loop the assignments hold the areas they had plus every placed area, each once |
| Balancer.PlaceAllTotals | utils/scheduler.ts:30-41 | the loop raises the grand total by the placed areas' totals and keeps every assignment's total equal to the sum of its areas' totals |
| Balancer.DistributeKeepsInspectors | utils/scheduler.ts:24-43 | one assignment per inspector, and the result's inspectors are exactly the input inspectors, in the loop's permuted order |
| Balancer.DistributeCoversAreas | utils/scheduler.ts:30-41 | every grouped area lands in exactly one assignment, and nothing else does |
| Balancer.DistributeTotals | utils/scheduler.ts:30-41 | each assignment's total is the sum of its areas' totals, and the grand total is the number of workers |
| Balancer.DistributeNoWorkers | utils/scheduler.ts:24-30 | with no workers every inspector gets an empty assignment with total 0, in inspector order |
| Balancer.StepKeepsCountsBalanced | utils/scheduler.ts:31-39 | when area counts differ by at most one, they still do after a round |
| Balancer.PlaceAllKeepsCountsBalanced | utils/scheduler.ts:30-41 | area counts stay within one of each other through the whole loop |
| Balancer.StepKeepsBalance | utils/scheduler.ts:31-40 | a round placing an area no larger than the earlier ones keeps the round-by-round balance invariant |
| Balancer.PlaceAllKeepsBalance | utils/scheduler.ts:30-41 | placing areas largest first keeps every pair of totals within the largest area's count |
| Balancer.DistributeBalanced | utils/scheduler.ts:22-41 | in the result area counts differ by at most one, and any two totals differ by at most the largest area's worker count |
| App.FindInspector | App.tsx:112 | the first inspector with the chosen name, and none exactly when no inspector has it |
| App.SelectAreas | App.tsx:115 | only areas whose name is selected are kept |
| App.ManualAssignment | App.tsx:111-123 | nothing when no inspector has the chosen name; otherwise one assignment, bound to the first inspector of that name, with the selected areas and their total |
| App.SelectAreasContents | App.tsx:115 | the selected areas are exactly the available areas whose name is selected, each as often as it is available |
| App.SelectAreasKeepsOrder | App.tsx:115 | selection keeps the order of the available areas |
| App.SelectAreasIgnoresOrder | App.tsx:115 | only the set of selected names matters, not their order or repetitions |
| App.SelectedAreasOnce | App.tsx:115 | over the grouped areas, the manual report lists each selected area once and no name twice |
| App.ManualCountsWorkers | App.tsx:115-116 | the manual report holds exactly the workers whose area is selected, and its total counts them |
| App.Toggle | App.tsx:135-139 | a name is in the result exactly when it was there and is not the toggled name, or it is the toggled name and was absent |
| App.ToggleRemoves | App.tsx:137 | removing a present name drops every copy and keeps every other name as often as before |
| App.ToggleRemovesInOrder | App.tsx:137 | removal keeps the other names in their order |
| App.ToggleAppends | App.tsx:137 | an absent name is appended after the unchanged list |
| App.ToggleTwice | App.tsx:135-139 | toggling an absent name twice restores the list |
| App.GeneratePlan | App.tsx:96-109 | auto mode stores the balancer's result and moves to the reports; manual mode without an inspector or an area raises the error and stays on the step; otherwise it moves to the reports; nothing else changes |
| App.Dispatch | App.tsx:233-235 | step 2 can only be entered from step 1 with both lists non-empty, and past step 1 both lists stay non-empty |
| App.Run | App.tsx:183-235 | any sequence of actions keeps the lists non-empty past step 1 |
| App.AutoGenerate | App.tsx:96-125 | on a reachable set-up step in auto mode there is an inspector, and after generating, `CurrentAssignments` is the balancer's result for the entered workers and inspectors |
| App.CurrentAssignmentsManual | App.tsx:125 | `CurrentAssignments` in manual mode holds at most one assignment. It holds none exactly when no inspector has the chosen name, and otherwise that assignment has the selected grouped areas. |
| App.GenerateIsSafe | App.tsx:96-100 | whatever the user does, the balancer is run with at least one inspector, and the auto-mode report is its result |

## Left out

- Spreadsheet parsing (`utils/excelParser.ts`) is file I/O.
  - Workers and inspectors enter the model as already-parsed sequences.
  - A failed parse is the `UploadFailed` event.
- PDF and Word rendering (`utils/pdfPrinter.ts`, `utils/wordExporter.ts`) are output only. `CurrentAssignments` is what they receive.
- React rendering, `useState`/`useMemo`, the loading flag and the wording of error messages are not modelled. The error banner is a boolean.
- The plan cycle and start date (`PlanConfig`) only reach the renderers and are not modelled.
- The upload handlers are asynchronous. The model treats each upload as finishing on step 1, while the upload controls are shown.
  - A parse that completes after the user has moved on is not modelled.
- Balancer.DistributePlans: with no inspectors and at least one area, line 39 of `utils/scheduler.ts` throws a `TypeError`. The model makes this a precondition: no inspectors implies no workers. `App.GenerateIsSafe` shows that the screen never breaks it.
- Aggregation.Aggregate: the source fails on an area name that is a member of `Object.prototype`, such as `constructor`, `toString` or `__proto__`. For such a name, `areaMap[w.area]` finds the inherited value, so no area is created. Its `.zones` is then undefined, and `.find` throws a `TypeError` (`utils/scheduler.ts:12`, `App.tsx:53`). The model treats every name as an ordinary key, so it returns a grouping where the source throws.
