/**
 * The download-job registry of server.js: the `jobs` map (server.js:37) and the
 * background work each job owns, namely its running `processDownloadJob` call
 * (server.js:69-124) and, once it has completed, its deletion timer
 * (server.js:104-108). Each handler that runs when a client, the network, the
 * disk or the timer does something is one method; the network, the disk and
 * the clock appear only as the parameters of those methods.
 */
module Registry {
  import opened Wrappers
  import opened Names
  import opened Progress
  import opened Jobs
  import opened Responses

  /** `JOB_LIFETIME` (server.js:24): ten minutes, in milliseconds. */
  const JobLifetimeMs: nat := 10 * 60 * 1000

  /** The message a failed disk write leaves on its job (server.js:114). */
  const WriteErrorMessage: string := "Gagal menyimpan file ke disk."

  /** Where the background work of one job stands. */
  datatype Task =
    | Spawned            // registered; `processDownloadJob` not entered yet
    | AwaitingResponse   // suspended at the `await` of the request (server.js:78)
    | Streaming(contentLength: Option<nat>, downloaded: nat)  // piping the body to `filePath`
    | ExpiryScheduled(deadline: nat)                          // completed; the timer is pending
    | Settled            // failed; nothing is left to run

  /** What `POST /api/request-download` answers. */
  datatype IntakeReply = BadRequest | Accepted(jobId: string, downloadUrl: string)

  function IntakeCode(reply: IntakeReply): nat {
    if reply.BadRequest? then 400 else 202
  }

  /** A body field that passes `!field`: present and not the empty string. */
  predicate Present(field: Option<string>) {
    field.Some? && field.value != []
  }

  /** The record server.js:141-147 builds for a new job. */
  function NewJob(id: string, link: string, hint: string, headers: map<string, string>,
                  tempDir: string, protocol: string, host: string): Job
  {
    var name := UniqueName(id, Sanitize(hint));
    Job(id, Pending, 0, None, link, headers, name,
        TempFilePath(tempDir, name), DownloadUrl(protocol, host, name), RedirectUrl(protocol, host, id))
  }

  /**
   * A new job starts pending with progress 0 and no error; its stored name splits
   * back into the id's first segment and the sanitised name, is made of allowed
   * characters only, and names a file directly inside the temporary directory.
   */
  lemma NewJobShape(id: string, link: string, hint: string, headers: map<string, string>,
                    tempDir: string, protocol: string, host: string)
    requires IsIdText(id)
    ensures var j := NewJob(id, link, hint, headers, tempDir, protocol, host);
      && j.id == id && j.status == Pending && j.progress == 0 && j.error == None
      && FirstSegment(j.filename) == FirstSegment(id)
      && j.filename[|FirstSegment(id)| + 1..] == Sanitize(hint)
      && AllAllowed(j.filename) && IsPlainComponent(j.filename)
      && LastComponent(j.filePath) == j.filename
  {
    var name := UniqueName(id, Sanitize(hint));
    UniqueNameSplits(id, Sanitize(hint));
    UniqueNameIsPlain(id, hint);
    TempFilePathLeaf(tempDir, name);
  }

  /** How a record's mutable fields stand at each point of its background work. */
  ghost predicate Agrees(j: Job, t: Task) {
    match t
    case Spawned => j.status == Pending && j.progress == 0 && j.error == None
    case AwaitingResponse => j.status == Downloading && j.progress == 0 && j.error == None
    case Streaming(len, n) => j.status == Downloading && j.progress == ProgressAt(len, n) && j.error == None
    case ExpiryScheduled(_) => j.status == Completed && j.progress == 100 && j.error == None
    case Settled => j.status == Failed
  }

  /** The registry invariant, on the values of its fields. */
  ghost predicate Consistent(jobs: map<string, Job>, tasks: map<string, Task>, issued: set<string>) {
    && tasks.Keys == jobs.Keys
    && jobs.Keys <= issued
    && (forall id :: id in jobs ==> jobs[id].id == id && Agrees(jobs[id], tasks[id]))
  }

  /** Replacing one record by one of the same origin, in step with its task, keeps the invariant. */
  lemma ConsistentUpdate(jobs: map<string, Job>, tasks: map<string, Task>, issued: set<string>,
                         id: string, j: Job, t: Task)
    requires Consistent(jobs, tasks, issued)
    requires id in jobs && jobs[id].SameOrigin(j) && Agrees(j, t)
    ensures Consistent(jobs[id := j], tasks[id := t], issued)
  {
  }

  lemma Overwrite<K, V>(m: map<K, V>, k: K, a: V, b: V)
    ensures m[k := a][k := b] == m[k := b]
  {
  }

  /** Inserting a pending record and then starting it is one permitted insertion. */
  lemma InsertThenStart(jobs: map<string, Job>, id: string, j: Job)
    requires id !in jobs && j.progress == 0
    ensures jobs[id := j][id := j.(status := Downloading, progress := 0)] == jobs[id := j.(status := Downloading)]
    ensures Evolves(jobs, jobs[id := j.(status := Downloading)])
  {
  }

  class Registry {
    /** `TEMP_DIR` (server.js:21). */
    const tempDir: string
    /** The `jobs` map. */
    var jobs: map<string, Job>
    /** The background work of every registered job, under the same ids. */
    var tasks: map<string, Task>
    /** Every id ever registered; a UUID generator never repeats one. */
    ghost var issued: set<string>

    ghost predicate Valid()
      reads this
    {
      Consistent(jobs, tasks, issued)
    }

    constructor (tempDir: string)
      ensures Valid()
      ensures this.tempDir == tempDir && jobs == map[] && tasks == map[] && issued == {}
    {
      this.tempDir := tempDir;
      jobs := map[];
      tasks := map[];
      issued := {};
    }

    /**
     * The registration part of `POST /api/request-download` (server.js:129-158):
     * a request without a non-empty `link` and `filename` is refused and changes
     * nothing; otherwise exactly one pending job is added under the fresh id.
     */
    method Register(link: Option<string>, filename: Option<string>, headers: Option<map<string, string>>,
                    id: string, protocol: string, host: string) returns (reply: IntakeReply)
      requires Valid()
      requires IsIdText(id) && id !in issued
      modifies this`jobs, this`tasks, this`issued
      ensures Valid() && Evolves(old(jobs), jobs)
      ensures !Present(link) || !Present(filename) ==>
                && reply == BadRequest
                && jobs == old(jobs) && tasks == old(tasks) && issued == old(issued)
      ensures Present(link) && Present(filename) ==>
                && reply == Accepted(id, RedirectUrl(protocol, host, id))
                && jobs == old(jobs)[id := NewJob(id, link.value, filename.value, headers.GetOr(map[]),
                                                  tempDir, protocol, host)]
                && tasks == old(tasks)[id := Spawned]
                && issued == old(issued) + {id}
    {
      if !Present(link) || !Present(filename) {
        return BadRequest;
      }
      var job := NewJob(id, link.value, filename.value, headers.GetOr(map[]), tempDir, protocol, host);
      NewJobShape(id, link.value, filename.value, headers.GetOr(map[]), tempDir, protocol, host);
      EvolvesByInsert(jobs, id, job);
      jobs := jobs[id := job];
      tasks := tasks[id := Spawned];
      issued := issued + {id};
      reply := Accepted(id, job.smartRedirectUrl);
    }

    /**
     * The synchronous start of `processDownloadJob` (server.js:70-76): an unknown
     * id is ignored; otherwise the job is downloading with progress 0.
     */
    method BeginProcessing(id: string)
      requires Valid()
      requires id in tasks ==> tasks[id] == Spawned
      modifies this`jobs, this`tasks
      ensures Valid() && Evolves(old(jobs), jobs)
      ensures id !in old(jobs) ==> jobs == old(jobs) && tasks == old(tasks)
      ensures id in old(jobs) ==>
                && jobs == old(jobs)[id := old(jobs)[id].(status := Downloading, progress := 0)]
                && tasks == old(tasks)[id := AwaitingResponse]
    {
      if id !in jobs {
        return;
      }
      var job := jobs[id].(status := Downloading, progress := 0);
      ConsistentUpdate(jobs, tasks, issued, id, job, AwaitingResponse);
      EvolvesByUpdate(jobs, id, job);
      jobs, tasks := jobs[id := job], tasks[id := AwaitingResponse];
    }

    /**
     * The whole of `POST /api/request-download` (server.js:127-160). The handler
     * calls `processDownloadJob` last (server.js:160), which runs up to its first
     * `await` before the handler returns; no other request runs in between, so
     * none ever sees the job pending: it is already downloading, and resolving
     * it shows the wait page at 0%.
     */
    method RequestDownload(link: Option<string>, filename: Option<string>, headers: Option<map<string, string>>,
                           id: string, protocol: string, host: string) returns (reply: IntakeReply)
      requires Valid()
      requires IsIdText(id) && id !in issued
      modifies this`jobs, this`tasks, this`issued
      ensures Valid() && Evolves(old(jobs), jobs)
      ensures IntakeCode(reply) == 400 <==> !Present(link) || !Present(filename)
      ensures reply.BadRequest? ==> jobs == old(jobs) && tasks == old(tasks) && issued == old(issued)
      ensures reply.Accepted? ==>
                && reply == Accepted(id, RedirectUrl(protocol, host, id))
                && issued == old(issued) + {id}
                && jobs == old(jobs)[id := NewJob(id, link.value, filename.value, headers.GetOr(map[]),
                                                  tempDir, protocol, host).(status := Downloading)]
                && tasks == old(tasks)[id := AwaitingResponse]
                && ResolvePage(Lookup(jobs, id)) == WaitPage(Downloading, 0, RefreshSeconds)
    {
      ghost var before := jobs;
      reply := Register(link, filename, headers, id, protocol, host);
      if reply.Accepted? {
        ghost var job := NewJob(id, link.value, filename.value, headers.GetOr(map[]), tempDir, protocol, host);
        BeginProcessing(id);
        InsertThenStart(before, id, job);
        Overwrite(old(tasks), id, Spawned, AwaitingResponse);
      }
    }

    /**
     * The request's response arrives (server.js:85-89): the content-length is
     * read once, the byte count starts at 0 and the body is piped to the file.
     */
    method ResponseArrived(id: string, contentLength: Option<nat>)
      requires Valid()
      requires id in tasks && tasks[id] == AwaitingResponse
      modifies this`tasks
      ensures Valid()
      ensures tasks == old(tasks)[id := Streaming(contentLength, 0)]
    {
      if SizeKnown(contentLength) {
        PercentEnds(contentLength.value);
      }
      tasks := tasks[id := Streaming(contentLength, 0)];
    }

    /**
     * A chunk of `size` bytes arrives (server.js:91-96): the byte count grows and,
     * only when the content-length is a non-zero number, the progress becomes the
     * rounded percentage of it.
     */
    method DataReceived(id: string, size: nat)
      requires Valid()
      requires id in tasks && tasks[id].Streaming?
      modifies this`jobs, this`tasks
      ensures Valid() && Evolves(old(jobs), jobs)
      ensures var len, n := old(tasks)[id].contentLength, old(tasks)[id].downloaded + size;
              tasks == old(tasks)[id := Streaming(len, n)]
      ensures var len, n := old(tasks)[id].contentLength, old(tasks)[id].downloaded + size;
              SizeKnown(len) ==> jobs == old(jobs)[id := old(jobs)[id].(progress := Percent(n, len.value))]
      ensures !SizeKnown(old(tasks)[id].contentLength) ==> jobs == old(jobs)
    {
      var len, d := tasks[id].contentLength, tasks[id].downloaded;
      var n := d + size;
      if SizeKnown(len) {
        PercentMonotone(d, n, len.value);
        var job := jobs[id].(progress := Percent(n, len.value));
        ConsistentUpdate(jobs, tasks, issued, id, job, Streaming(len, n));
        EvolvesByUpdate(jobs, id, job);
        jobs := jobs[id := job];
      } else {
        ConsistentUpdate(jobs, tasks, issued, id, jobs[id], Streaming(len, n));
        assert jobs[id := jobs[id]] == jobs;
      }
      tasks := tasks[id := Streaming(len, n)];
    }

    /**
     * The file is fully written (server.js:99-110): the job is completed at 100%
     * and its deletion is scheduled `JOB_LIFETIME` after `now`.
     */
    method WriteFinished(id: string, now: nat)
      requires Valid()
      requires id in tasks && tasks[id].Streaming?
      modifies this`jobs, this`tasks
      ensures Valid() && Evolves(old(jobs), jobs)
      ensures jobs == old(jobs)[id := old(jobs)[id].(status := Completed, progress := 100)]
      ensures tasks == old(tasks)[id := ExpiryScheduled(now + JobLifetimeMs)]
    {
      var job := jobs[id].(status := Completed, progress := 100);
      ConsistentUpdate(jobs, tasks, issued, id, job, ExpiryScheduled(now + JobLifetimeMs));
      EvolvesByUpdate(jobs, id, job);
      jobs, tasks := jobs[id := job], tasks[id := ExpiryScheduled(now + JobLifetimeMs)];
    }

    /** Writing the file fails (server.js:112-115): the job fails with the fixed disk message. */
    method WriteFailed(id: string)
      requires Valid()
      requires id in tasks && tasks[id].Streaming?
      modifies this`jobs, this`tasks
      ensures Valid() && Evolves(old(jobs), jobs)
      ensures jobs == old(jobs)[id := old(jobs)[id].(status := Failed, error := Some(WriteErrorMessage))]
      ensures tasks == old(tasks)[id := Settled]
    {
      var job := jobs[id].(status := Failed, error := Some(WriteErrorMessage));
      ConsistentUpdate(jobs, tasks, issued, id, job, Settled);
      EvolvesByUpdate(jobs, id, job);
      jobs, tasks := jobs[id := job], tasks[id := Settled];
    }

    /**
     * The request itself fails (server.js:119-122): the job fails with the
     * error's `message`, which may be `undefined` (`None`).
     */
    method FetchFailed(id: string, message: Option<string>)
      requires Valid()
      requires id in tasks && tasks[id] == AwaitingResponse
      modifies this`jobs, this`tasks
      ensures Valid() && Evolves(old(jobs), jobs)
      ensures jobs == old(jobs)[id := old(jobs)[id].(status := Failed, error := message)]
      ensures tasks == old(tasks)[id := Settled]
    {
      var job := jobs[id].(status := Failed, error := message);
      ConsistentUpdate(jobs, tasks, issued, id, job, Settled);
      EvolvesByUpdate(jobs, id, job);
      jobs, tasks := jobs[id := job], tasks[id := Settled];
    }

    /**
     * The deletion timer fires at or after its deadline (server.js:104-108). Only
     * a completed job has one; afterwards both endpoints report the id as unknown.
     */
    method Expire(id: string, now: nat)
      requires Valid()
      requires id in tasks && tasks[id].ExpiryScheduled? && tasks[id].deadline <= now
      modifies this`jobs, this`tasks
      ensures Valid() && Evolves(old(jobs), jobs)
      ensures old(jobs)[id].status == Completed
      ensures jobs == old(jobs) - {id} && tasks == old(tasks) - {id}
      ensures ResolvePage(Lookup(jobs, id)) == NotFoundPage && StatusReport(Lookup(jobs, id)) == NoSuchJob
    {
      EvolvesByRemoval(jobs, id);
      jobs := jobs - {id};
      tasks := tasks - {id};
    }

    /** `GET /dl/:jobId` (server.js:164-210): answers from the record and changes nothing. */
    method Resolve(id: string) returns (page: Page)
      ensures page == ResolvePage(Lookup(jobs, id))
      ensures PageCode(page) == 404 <==> id !in jobs
    {
      page := ResolvePage(Lookup(jobs, id));
    }

    /** `GET /api/status/:jobId` (server.js:214-231): answers from the record and changes nothing. */
    method StatusOf(id: string) returns (reply: StatusReply)
      ensures reply == StatusReport(Lookup(jobs, id))
      ensures ReplyCode(reply) == 404 <==> id !in jobs
    {
      reply := StatusReport(Lookup(jobs, id));
    }
  }
}
