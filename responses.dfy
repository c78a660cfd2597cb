/**
 * The two read-only endpoints over the job registry: the smart redirect
 * `GET /dl/:jobId` (server.js:164-210) and the legacy JSON status
 * `GET /api/status/:jobId` (server.js:214-231). Only the response kind, the
 * HTTP status code and the fields are modelled, not the HTML or message text.
 */
module Responses {
  import opened Wrappers
  import opened Jobs

  /** The `Refresh` header of the wait page, in seconds (server.js:188). */
  const RefreshSeconds: nat := 5

  /** Shown on the failure page when a failed job has no message (server.js:205). */
  const UnknownError: string := "Unknown error"

  /** What the smart redirect endpoint answers. */
  datatype Page =
    | NotFoundPage
    | RedirectTo(url: string)
    | WaitPage(status: Status, shownProgress: nat, refreshSeconds: nat)
    | FailurePage(shownError: string)

  /** The HTTP status code of a page; `res.redirect` answers 302 Found. */
  function PageCode(page: Page): nat {
    match page
    case NotFoundPage => 404
    case RedirectTo(_) => 302
    case WaitPage(_, _, _) => 200
    case FailurePage(_) => 500
  }

  /** `job.error || 'Unknown error'`: a missing or empty message is replaced, a present one kept. */
  function ShownError(error: Option<string>): (shown: string)
    ensures shown != []
    ensures error.Some? && error.value != [] ==> shown == error.value
    ensures error.None? || error.value == [] ==> shown == UnknownError
  {
    if error.Some? && error.value != [] then error.value else UnknownError
  }

  /**
   * The page for a lookup result. The progress is always a number here, so
   * `job.progress || 0` shows the progress itself.
   */
  function ResolvePage(job: Option<Job>): (page: Page)
    ensures PageCode(page) == 404 <==> job.None?
    ensures page.RedirectTo? <==> job.Some? && job.value.status == Completed
    ensures page.RedirectTo? ==> page.url == job.value.finalUrl
    ensures page.WaitPage? <==> job.Some? && !IsTerminal(job.value.status)
    ensures page.WaitPage? ==> page == WaitPage(job.value.status, job.value.progress, RefreshSeconds)
    ensures page.FailurePage? <==> job.Some? && job.value.status == Failed
    ensures page.FailurePage? ==> page.shownError == ShownError(job.value.error) && page.shownError != []
  {
    match job
    case None => NotFoundPage
    case Some(j) =>
      match j.status
      case Completed => RedirectTo(j.finalUrl)
      case Pending => WaitPage(j.status, j.progress, RefreshSeconds)
      case Downloading => WaitPage(j.status, j.progress, RefreshSeconds)
      case Failed => FailurePage(ShownError(j.error))
  }

  /**
   * The body of the legacy status endpoint: either not found (404), or the
   * status and the optional fields that appear in the JSON object (200).
   */
  datatype StatusReply =
    | NoSuchJob
    | Report(status: Status, progress: Option<nat>, downloadLink: Option<string>,
             filename: Option<string>, error: Option<string>)

  function ReplyCode(reply: StatusReply): nat {
    if reply.NoSuchJob? then 404 else 200
  }

  /**
   * `progress` appears only while downloading, `downloadLink` and `filename`
   * only once completed, `error` only when failed (and not when the message was
   * `undefined`, which JSON drops).
   */
  function StatusReport(job: Option<Job>): (reply: StatusReply)
    ensures ReplyCode(reply) == 404 <==> job.None?
    ensures reply.Report? ==> reply.status == job.value.status
    ensures reply.Report? ==> (reply.progress.Some? <==> reply.status == Downloading)
    ensures reply.Report? ==> (reply.downloadLink.Some? <==> reply.status == Completed)
    ensures reply.Report? ==> (reply.filename.Some? <==> reply.status == Completed)
    ensures reply.Report? ==> (reply.error.Some? <==> reply.status == Failed && job.value.error.Some?)
    ensures reply.Report? && reply.progress.Some? ==> reply.progress.value == job.value.progress
    ensures reply.Report? && reply.downloadLink.Some? ==>
              reply.downloadLink.value == job.value.finalUrl && reply.filename.value == job.value.filename
    ensures reply.Report? && reply.status == Failed ==> reply.error == job.value.error
  {
    match job
    case None => NoSuchJob
    case Some(j) =>
      match j.status
      case Pending => Report(Pending, None, None, None, None)
      case Downloading => Report(Downloading, Some(j.progress), None, None, None)
      case Completed => Report(Completed, None, Some(j.finalUrl), Some(j.filename), None)
      case Failed => Report(Failed, None, None, None, j.error)
  }

  /** The two endpoints never contradict each other about a job. */
  lemma EndpointsAgree(job: Option<Job>)
    ensures PageCode(ResolvePage(job)) == 404 <==> ReplyCode(StatusReport(job)) == 404
    ensures forall url :: ResolvePage(job) == RedirectTo(url) <==>
              StatusReport(job).Report? && StatusReport(job).downloadLink == Some(url)
    ensures ResolvePage(job).WaitPage? <==>
              StatusReport(job).Report? && !IsTerminal(StatusReport(job).status)
    ensures ResolvePage(job).FailurePage? <==> StatusReport(job).Report? && StatusReport(job).status == Failed
    ensures ResolvePage(job).FailurePage? ==> ResolvePage(job).shownError == ShownError(StatusReport(job).error)
  {
  }

  /** Once completed, every later resolution redirects to the same place, until the job expires. */
  lemma RedirectStable(before: map<string, Job>, after: map<string, Job>, id: string)
    requires Evolves(before, after)
    requires ResolvePage(Lookup(before, id)).RedirectTo?
    ensures ResolvePage(Lookup(after, id)) in {ResolvePage(Lookup(before, id)), NotFoundPage}
  {
  }

  /** Polling the wait page while downloading never shows a smaller progress. */
  lemma PolledProgressMonotone(before: map<string, Job>, after: map<string, Job>, id: string)
    requires Evolves(before, after)
    requires ResolvePage(Lookup(before, id)).WaitPage? && ResolvePage(Lookup(before, id)).status == Downloading
    requires ResolvePage(Lookup(after, id)).WaitPage? && ResolvePage(Lookup(after, id)).status == Downloading
    ensures ResolvePage(Lookup(before, id)).shownProgress <= ResolvePage(Lookup(after, id)).shownProgress
  {
  }

  /** A failed job keeps answering with the same failure page: it never expires. */
  lemma FailurePagePersists(before: map<string, Job>, after: map<string, Job>, id: string)
    requires Evolves(before, after)
    requires ResolvePage(Lookup(before, id)).FailurePage?
    ensures ResolvePage(Lookup(after, id)) == ResolvePage(Lookup(before, id))
  {
  }
}
