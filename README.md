# Download-job registry of the proxy server

The proxy server accepts download requests on `POST /api/request-download`,
gives each one a job id, fetches the remote file in the background into a
temporary directory, and lets clients follow the job through a smart redirect
page (`GET /dl/:jobId`) or a legacy JSON status endpoint
(`GET /api/status/:jobId`). A completed job is deleted ten minutes after it
finished.

This project models that core in Dafny:

- `names.dfy` (module `Names`): the sanitisation of the client's file name
  (whitespace runs and every character outside `[a-z0-9._-]`, case-insensitive,
  become `_`), the stored name `<first id segment>-<sanitised name>`, the file
  path and the two public URLs.
- `progress.dfy` (module `Progress`): the progress percentage, `Math.round` of
  `downloaded / total * 100`, as exact integer half-up rounding, and how it
  moves as chunks arrive.
- `jobs.dfy` (module `Jobs`): the job record, its four statuses, the order in
  which a status may change, and `Evolves`, the relation every change of the
  `jobs` map keeps.
- `responses.dfy` (module `Responses`): the two read-only endpoints as total
  functions from the looked-up record to the response kind, status code and
  fields.
- `registry.dfy` (module `Registry`): the class `Registry` holding the `jobs`
  map and, per job, the phase of its background work (`Task`); one method per
  handler (intake, start, response, chunk, finish, write error, fetch error,
  expiry timer, and the two endpoints). Each state-changing method states its
  whole new state, keeps the invariant `Valid()` and makes a step allowed by
  `Jobs.Evolves`.
- `uptime.dfy` (module `Uptime`): `formatUptime` of the stats endpoint.
- `wrappers.dfy` (module `Wrappers`): `Option`.

The network, the disk and the clock enter only as method parameters: the
content-length of the response, the size of a chunk, the error message of a
failed request, and the current time. The fresh job id is a parameter too;
it must look like a UUID (hexadecimal digits and hyphens) and must never have
been used before.

Three behaviours of the code are easy to miss:

- A disallowed character that is not whitespace is replaced by `_`, not
  removed (server.js:135).
- Only a completed job is scheduled for deletion; a failed job stays in the
  map for as long as the server runs (server.js:99-122).
- A job is never observed `pending` by a client: `processDownloadJob` is
  called by the intake handler itself and sets `downloading` before its first
  `await` (server.js:70-75, 160).

## Model

| member | source | states |
|---|---|---|
| Names.IsSpace | server.js:135 | the characters JavaScript's `\s` matches: the WhiteSpace and LineTerminator code points |
| Names.IsAllowed | server.js:135 | the class `[a-z0-9._-]` under the `i` flag and without the `u` flag, which matches ASCII letters only |
| Names.SkipSpaces | server.js:135 | skips exactly the leading whitespace of a string: the result is a suffix, everything dropped is whitespace, and it does not start with whitespace |
| Names.CollapseSpaces | server.js:135 | the result of `replace(/\s+/g, '_')` contains no whitespace, is no longer than the input, and is empty only for the empty input |
| Names.CollapseSpacesIdentity | server.js:135 | on a string without whitespace the whitespace replacement changes nothing |
| Names.CollapseRun | server.js:135 | a maximal whitespace run is replaced by exactly one `_` and the text on either side is rewritten independently |
| Names.ReplaceDisallowed | server.js:135 | `replace(/[^a-z0-9._-]/gi, '_')` keeps the length and replaces each disallowed character by `_` in place |
| Names.Sanitize | server.js:135 | the safe file name consists only of `[A-Za-z0-9._-]`, is no longer than the client's name, and is empty only for an empty name |
| Names.SanitizeReplacesInPlace | server.js:135 | on a name without whitespace, disallowed characters are replaced one for one, never dropped |
| Names.SanitizeKeepsAllowed | server.js:135 | a name made only of allowed characters is kept unchanged |
| Names.SanitizeIdempotent | server.js:135 | sanitising a sanitised name changes nothing |
| Names.SanitizeAstral | server.js:135 | in the model an emoji is one character and becomes one `_`: `"\U{1F600}.txt"` sanitises to `"_.txt"` (the code writes two `_`, see "Left out") |
| Names.FirstSegment | server.js:136 | `split('-')[0]` is a hyphen-free prefix of the id that is either the whole id or followed by a hyphen |
| Names.FirstSegmentBeforeHyphen | server.js:136 | the first segment of `seg-rest` is `seg` whenever `seg` has no hyphen |
| Names.UniqueNameSplits | server.js:136 | the stored name splits back at its first hyphen into the id's first segment and the safe name |
| Names.UniqueNameCollides | server.js:136 | two stored names are equal exactly when the first id segments and the safe names are equal, so distinct ids alone do not keep names apart |
| Names.UniqueNameIsPlain | server.js:134-136 | for a UUID-shaped id the stored name uses only allowed characters and is one plain path component (not empty, no `/`, not `.` or `..`) |
| Names.UniqueName | server.js:136 | `${jobId.split('-')[0]}-${safeFilename}`; how it splits back is stated by `UniqueNameSplits` and `UniqueNameCollides` |
| Names.TempFilePath | server.js:143 | `path.join(TEMP_DIR, uniqueFilename)` for a name that is one plain component; see `TempFilePathLeaf` |
| Names.DownloadUrl | server.js:144 | `finalUrl`: protocol, host, `/downloads/` and the stored name |
| Names.RedirectUrl | server.js:146 | `smartRedirectUrl`: protocol, host, `/dl/` and the job id |
| Names.TempFilePathLeaf | server.js:143 | the job's file lies directly inside the temporary directory under the stored name |
| Progress.PercentRounds | server.js:94 | the percentage is `100 * downloaded / total` rounded to the nearest integer, halves up |
| Progress.PercentUnique | server.js:94 | the rounded percentage is the only integer within half a unit of the exact value |
| Progress.PercentMonotone | server.js:91-95 | more downloaded bytes never give a smaller percentage |
| Progress.PercentEnds | server.js:94 | no bytes give 0% and exactly the announced length gives 100% |
| Progress.PercentAtMost100 | server.js:94 | up to the announced length the percentage stays within 0..100 |
| Progress.PercentUnbounded | server.js:91-95 | no upper bound is enforced: twice the announced length shows 200% |
| Progress.ProgressMonotone | server.js:91-96 | the shown progress never decreases as bytes arrive, whatever the content-length header was |
| Progress.ProgressUnknownSize | server.js:85-95 | without a non-zero content-length the progress stays 0 |
| Progress.Percent | server.js:94 | `Math.round((downloaded / total) * 100)` for a positive total, as `(200 * downloaded + total) / (2 * total)`; its meaning is stated by `PercentRounds` and `PercentUnique` |
| Progress.SizeKnown | server.js:93 | `if (totalSize)`: the parsed content-length is present and not zero |
| Progress.ProgressAt | server.js:93-95 | the progress after a number of bytes: the rounded percentage when the size is known, otherwise the initial 0; see `ProgressMonotone` and `ProgressUnknownSize` |
| Progress.Received | server.js:92 | the `downloadedSize += chunk.length` accumulator after a sequence of chunks, starting from 0 (server.js:86) |
| Progress.ProgressTrace | server.js:91-96 | a standalone account of one download, independent of the registry: one observed progress value per chunk |
| Progress.ReceivedPrefix | server.js:92 | the running byte count after a prefix of the chunks is at most the count after all of them |
| Progress.ProgressTraceAt | server.js:91-96 | the progress observed after chunk `i` is the progress of the bytes received up to it |
| Progress.ProgressTraceSorted | server.js:91-96 | over any sequence of chunks the observed progress values are sorted |
| Jobs.Lookup | server.js:166 | `jobs.get(id)` is a record exactly when the id is in the map, and then it is that record |
| Jobs.EvolvesByUpdate | server.js:69-123 | overwriting one record in an allowed way is an allowed step of the map |
| Jobs.EvolvesByInsert | server.js:149 | inserting a record under a new id is an allowed step |
| Jobs.EvolvesByRemoval | server.js:105 | removing a record that has not failed is an allowed step |
| Jobs.EvolvesTransitive | server.js:69-124 | allowed steps compose, as long as no id is removed and then registered again |
| Jobs.FailedNeverRemoved | server.js:99-122 | a failed record stays in the map, unchanged, through any run of allowed steps |
| Responses.PageCode | server.js:168-208 | the status code of each page: 404 for an unknown id, 302 for the redirect, 200 for the wait page, 500 for a failure |
| Responses.ReplyCode | server.js:218-230 | the status code of the legacy endpoint: 404 for an unknown id, otherwise 200 |
| Responses.ShownError | server.js:205 | the shown error: a non-empty message is shown as is, a missing or empty one becomes `Unknown error` |
| Responses.ResolvePage | server.js:164-209 | unknown id gives 404; completed redirects to `finalUrl`; pending or downloading gives the wait page with `Refresh: 5` and the progress; failed gives 500 showing `ShownError` of the job's error |
| Responses.StatusReport | server.js:214-230 | unknown id gives 404; `progress` appears only for downloading, `downloadLink` and `filename` only for completed, `error` only for failed with a defined message, and then it is the job's error |
| Responses.EndpointsAgree | server.js:164-230 | the redirect page and the status endpoint agree on not-found, the redirect target, waiting, failure and the failure message |
| Responses.RedirectStable | server.js:178-181 | once a job redirects, every later resolution redirects to the same URL or reports not-found |
| Responses.PolledProgressMonotone | server.js:185-196 | polling the wait page of a downloading job never shows a smaller progress |
| Responses.FailurePagePersists | server.js:199-207 | a failed job keeps answering with the same failure page |
| Registry.IntakeCode | server.js:130-153 | the status code of the intake: 400 for a refused request, 202 for an accepted one |
| Registry.Present | server.js:130 | a body field that passes `!field`: present and not the empty string |
| Registry.NewJob | server.js:141-147 | the record built for a new job; its shape is stated by `NewJobShape` |
| Registry.NewJobShape | server.js:134-147 | a new record is pending with progress 0 and no error; its stored name splits into the id's first segment and the safe name, uses only allowed characters, and names the file at `filePath` |
| Registry.InsertThenStart | server.js:141-160 | inserting a pending record and immediately starting it is a single allowed insertion of a downloading record |
| Registry.Registry.constructor | server.js:37 | the registry starts with no jobs |
| Registry.Registry.Register | server.js:129-149 | a request without a non-empty `link` and `filename` is refused and changes nothing; otherwise exactly one pending record is added under the fresh id and nothing else changes |
| Registry.Registry.BeginProcessing | server.js:69-75 | an unknown id is ignored; otherwise the job becomes downloading with progress 0 and nothing else changes |
| Registry.Registry.RequestDownload | server.js:127-160 | code 400 exactly when `link` or `filename` is missing or empty, and then nothing changes, the set of used ids included; otherwise the answer carries the id and the smart redirect URL, exactly one record is added, already downloading at 0%, the id joins the used ids, and resolving it shows the wait page |
| Registry.Registry.ResponseArrived | server.js:78-89 | the content-length is read once and the byte count starts at 0; the record is not touched |
| Registry.Registry.DataReceived | server.js:91-96 | the byte count grows by the chunk size; the progress becomes the rounded percentage only when the content-length is non-zero, otherwise the map is unchanged |
| Registry.Registry.WriteFinished | server.js:99-110 | the job becomes completed at 100% and its deletion is scheduled ten minutes later |
| Registry.Registry.WriteFailed | server.js:112-116 | the job becomes failed with the fixed disk-write message |
| Registry.Registry.FetchFailed | server.js:119-123 | the job becomes failed with the request error's message, which may be undefined |
| Registry.Registry.Expire | server.js:104-108 | only a completed job expires; afterwards its id is absent and both endpoints report not-found |
| Registry.Registry.Resolve | server.js:164-210 | answers from the current record without changing anything; 404 exactly when the id is unknown |
| Registry.Registry.StatusOf | server.js:214-231 | answers from the current record without changing anything; 404 exactly when the id is unknown |
| Uptime.Split | server.js:268-270 | the days, hours below 24 and minutes below 60 account for the elapsed seconds to the minute |
| Uptime.SplitUnique | server.js:268-270 | there is only one such split of a number of seconds |
| Uptime.DigitsOfMinutes | server.js:269-270 | days, hours and minutes are the mixed-radix digits of the total minute count |
| Uptime.MinuteCount | server.js:269-270 | the split counts exactly the whole minutes of the duration |
| Uptime.Decimal | server.js:271 | a number is written as a non-empty string of decimal digits without a leading zero |
| Uptime.DecimalRoundTrip | server.js:271 | reading the written digits back gives the number |
| Uptime.DecimalInjective | server.js:271 | different numbers are written differently |
| Uptime.SplitAtNonDigit | server.js:271 | a numeral followed by a unit letter is read back unambiguously from the front of a text |
| Uptime.FieldPrefix | server.js:271 | a number and its unit letter at the front of a text determine the number and the rest |
| Uptime.FormatUptime | server.js:268-272 | `${d}d ${h}h ${m}m` of the split duration; see `FormatInjective` and `FormatUptimeDistinguishes` |
| Uptime.FormatInjective | server.js:271 | the text `<d>d <h>h <m>m` determines the days, hours and minutes |
| Uptime.FormatUptimeDistinguishes | server.js:268-272 | durations that differ in whole minutes are shown as different texts |

## Left out

- Express wiring: middleware, the rate limiter, request logging, static file
  serving, the `/`, `/stats` and `/proxy` routes, and server start-up. They are
  framework I/O around the core.
- The stats endpoint apart from `formatUptime`: the CPU and memory figures come
  from foreign calls and the job counts are plain filters of the map.
- The HTTP fetch, the write stream and the pipe: they appear only as the
  events `ResponseArrived`, `DataReceived`, `WriteFinished`, `WriteFailed` and
  `FetchFailed`. The content-length is taken as already parsed; a header that
  `parseInt` reads as a negative number is not modelled.
- The file removal after expiry: it is best-effort and its errors are
  swallowed, so it does not affect the map.
- Timers and interleaving: the ten-minute timer is the explicit step `Expire`
  with the current time as a parameter, and concurrent handlers run one after
  another.
- UUID generation: the fresh id is a parameter. Only its first segment is used
  in the stored name (server.js:136), so two jobs can share a file name;
  `Names.UniqueNameCollides` states exactly when.
- `Math.round` on floating point: it is modelled as exact half-up rounding of
  `100 * downloaded / total`. A floating-point quotient that lands just below
  a half is not modelled.
- Strings are sequences of Unicode scalar values, whereas JavaScript strings
  are UTF-16 code units and the regular expressions of server.js:135 have no
  `u` flag. A character outside the Basic Multilingual Plane (an emoji, say) is
  two code units, so the code replaces it by two `_` where the model writes
  one: the code turns `"\U{1F600}.txt"` into `"__.txt"`, the model into `"_.txt"`,
  and the stored name, `filePath` and `finalUrl` differ accordingly
  (`Names.SanitizeAstral` states the model's side). Names with
  unpaired surrogates are not covered either.
- Body fields that are not strings (a numeric `filename`, say) are not
  modelled; the fields are optional strings and the headers an optional map.
- The HTML and the message texts of the responses: only the response kind, the
  status code and the fields are modelled.
- The `'processing'` case of the redirect page (server.js:184): no code ever
  sets that status.
- `path.join` normalisation: the file path is `TEMP_DIR + "/" + name`, which
  is what `path.join` yields for a name that is one plain component, as
  `Names.UniqueNameIsPlain` shows every stored name is.
- Registry.Registry.FetchFailed: only the failure of the request itself is
  modelled. A synchronous exception between the response and the end of the
  stream setup (server.js:85-97) also lands in the `catch`, and is not modelled.
- Registry.Registry.WriteFailed: the rejected promise of a failed write is not
  awaited by anyone (server.js:115, 160) and becomes an unhandled rejection.
  Depending on how Node.js is configured to treat unhandled rejections, the
  process may exit at that point and every job, with the `jobs` map itself, is
  lost. The model assumes the process keeps running and keeps the failed
  record; `Responses.FailurePagePersists` and `Jobs.FailedNeverRemoved` rely on
  that. The model also does not let chunks arrive after a write error,
  although the `data` listener stays attached and could still move the
  progress of the failed job.
- A failure of the response body stream after the pipe is set up
  (server.js:89) is handled nowhere: the `catch` at server.js:119 covers only
  the `await` at server.js:78 and the synchronous lines 85-97. Such a job stays
  `downloading` and is never removed. The model has no event for it; it shows
  this only as a job in the `Streaming` phase that receives no further event.
  So not every transport failure marks a job failed: only a failed request
  (`FetchFailed`) and a failed disk write (`WriteFailed`) do.
- Uptime.Split: the duration is a non-negative number of milliseconds; a clock
  that goes backwards is not modelled.
