/**
 * The records exchanged between the spreadsheet reader, the scheduler and the
 * report renderers (types.ts). Every record is an immutable value here; the
 * source's in-place `push` and `+=` become functions returning new values.
 */
module Types {

  datatype Option<+T> = None | Some(value: T)

  /** The optional descriptive columns of a worker row. The core carries them
      through untouched: they only distinguish one worker record from another. */
  datatype WorkerDetails = WorkerDetails(
    category: Option<string>,
    // The reader keeps this cell as it finds it, text or number; the core
    // never looks inside it, so it is held as text here.
    serialNo: Option<string>,
    nameEng: Option<string>,
    nameAr: Option<string>,
    gender: Option<string>,
    nationality: Option<string>,
    idNo: Option<string>,
    empNo: Option<string>,
    company: Option<string>,
    position: Option<string>,
    mrn: Option<string>)

  /** One cleaning worker; `area` and `zone` are the two grouping keys. */
  datatype Worker = Worker(area: string, zone: string, details: WorkerDetails)

  datatype Inspector = Inspector(name: string, note: Option<string>)

  /** A location inside an area together with the workers posted there. */
  datatype Zone = Zone(name: string, workers: seq<Worker>)

  /** An area with its zones; `totalWorkers` is the counter the aggregation
      keeps up to date while it scans the workers. */
  datatype Area = Area(name: string, totalWorkers: nat, zones: seq<Zone>)

  /** The areas handed to one inspector and the running sum of their workers. */
  datatype Assignment = Assignment(inspector: Inspector, areas: seq<Area>, totalWorkers: nat)

  function AreaLoad(a: Area): int { a.totalWorkers }

  function ZoneSize(z: Zone): int { |z.workers| }

  function AssignmentLoad(x: Assignment): int { x.totalWorkers }
}
