/**
 * The job record kept in the `jobs` map of server.js (created at lines 141-147)
 * and the order in which its status may change.
 */
module Jobs {
  import opened Wrappers

  datatype Status = Pending | Downloading | Completed | Failed

  predicate IsTerminal(s: Status) {
    s == Completed || s == Failed
  }

  /** How far along the lifecycle a status is; the two terminal statuses share the last rank. */
  function Rank(s: Status): nat {
    match s
    case Pending => 0
    case Downloading => 1
    case Completed => 2
    case Failed => 2
  }

  /**
   * `b` is a status a job with status `a` may have later: the rank does not go
   * down and a terminal status never changes.
   */
  predicate MayFollow(a: Status, b: Status) {
    Rank(a) <= Rank(b) && (IsTerminal(a) ==> a == b)
  }

  /**
   * A job record. `error` is `None` for `null` (its initial value) and also
   * for an `undefined` error message; `progress` is unbounded above.
   */
  datatype Job = Job(
    id: string,
    status: Status,
    progress: nat,
    error: Option<string>,
    sourceLink: string,
    headers: map<string, string>,
    filename: string,
    filePath: string,
    finalUrl: string,
    smartRedirectUrl: string)
  {
    /** The same job with everything that only creation assigns kept and the mutable fields replaced. */
    predicate SameOrigin(other: Job) {
      && id == other.id && sourceLink == other.sourceLink && headers == other.headers
      && filename == other.filename && filePath == other.filePath
      && finalUrl == other.finalUrl && smartRedirectUrl == other.smartRedirectUrl
    }
  }

  /** `jobs.get(id)`: `undefined` when the id was never registered or has been removed. */
  function Lookup(jobs: map<string, Job>, id: string): (found: Option<Job>)
    ensures found.Some? <==> id in jobs
    ensures found.Some? ==> found.value == jobs[id]
  {
    if id in jobs then Some(jobs[id]) else None
  }

  /**
   * One record may become another: it keeps its origin and moves forward in
   * status, its progress only grows while downloading, and a completed or
   * failed record is frozen.
   */
  predicate MayBecome(a: Job, b: Job) {
    && a.SameOrigin(b)
    && MayFollow(a.status, b.status)
    && (a.status == Downloading && b.status == Downloading ==> a.progress <= b.progress)
    && (IsTerminal(a.status) ==> a == b)
  }

  /**
   * How the registry may change: every surviving record may become its new
   * value, and a failed record is never removed.
   */
  ghost predicate Evolves(before: map<string, Job>, after: map<string, Job>) {
    && (forall id :: id in before && id in after ==> MayBecome(before[id], after[id]))
    && (forall id :: id in before && id !in after ==> before[id].status != Failed)
  }

  /** Changing one record in a permitted way is a permitted step of the registry. */
  lemma EvolvesByUpdate(jobs: map<string, Job>, id: string, j: Job)
    requires id in jobs && MayBecome(jobs[id], j)
    ensures Evolves(jobs, jobs[id := j])
  {
  }

  /** Registering a new id is a permitted step. */
  lemma EvolvesByInsert(jobs: map<string, Job>, id: string, j: Job)
    requires id !in jobs
    ensures Evolves(jobs, jobs[id := j])
  {
  }

  /** Removing a record that has not failed is a permitted step. */
  lemma EvolvesByRemoval(jobs: map<string, Job>, id: string)
    requires id in jobs && jobs[id].status != Failed
    ensures Evolves(jobs, jobs - {id})
  {
  }

  /**
   * Two runs of steps compose into one, provided no id is removed and then
   * registered again in between (ids are never reused).
   */
  lemma EvolvesTransitive(a: map<string, Job>, b: map<string, Job>, c: map<string, Job>)
    requires Evolves(a, b) && Evolves(b, c)
    requires forall id :: id in a && id in c ==> id in b
    ensures Evolves(a, c)
  {
  }

  /** Once failed, a job stays in the registry, unchanged, through any run of steps. */
  lemma FailedNeverRemoved(before: map<string, Job>, after: map<string, Job>, id: string)
    requires Evolves(before, after)
    requires id in before && before[id].status == Failed
    ensures id in after && after[id] == before[id]
  {
  }
}
