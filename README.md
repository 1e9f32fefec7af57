# Aggrivator feed poller — a Dafny model of its fetch core

Aggrivator polls podcast feeds. For each feed it makes one conditional
HTTP GET using the feed's stored last-modified time (If-Modified-Since) and
entity tag (If-None-Match). Every outcome becomes a plain-text artifact file,
`<dir>/<feed id>_<status>.txt`, holding four lines (last-modified time, etag,
final URL, time of the write) followed by the body when there is one. A later
parser reads these files. Synthetic status codes stand for outcomes that have
no HTTP status:

- 666: the request could not be sent, or the redirect chain was cut off;
- 667: the fetch ended in any error;
- 668: the body was larger than 40971520 bytes, so it was not stored.

A permanent redirect (301 or 308) leaves a stub file in `redirects/`, so that
the feed's new address can be picked up later.

The model has six modules:

| file | module | what it holds |
|---|---|---|
| `text.dfy` | `Text` | decimal rendering and parsing, UTF-8 byte length, header value text |
| `artifacts.dfy` | `Artifacts` | `write_feed_file`, an `ArtifactStore` class over a map from file name to content, and the reading side |
| `validators.dfy` | `Validators` | request validator headers and the response-header scan |
| `redirects.dfy` | `Redirects` | the custom redirect policy closure |
| `fetch.dfy` | `Fetch` | `check_feed_is_updated` |
| `orchestrator.dfy` | `Orchestrator` | the per-feed async block and the run over all feeds in `fetch_feeds` |

The network is an input. An `Exchange` lists the redirect responses the
servers would send and says how the chain ends: either a delivered response
(status, headers, and a body that may be unreadable) or a connection failure.
The file system is the `files` map of an `ArtifactStore`, which the writer
updates in place. The current time, the crate version and the `httpdate`
formatter and parser are parameters.

Each imperative operation is proved against a specification function:

- `WriteFeedFile` stores `ContentOf` under `KeyOf`.
- `CheckFeedIsUpdated` returns `FetchResult` and writes `FetchWrites`, in order.
- `FetchFeeds` returns `Verdicts` and writes `RunWrites`.

The lemmas then prove properties of those functions:

- Written files read back.
- Names are injective.
- Rewriting replaces: a second round of the same writes, at any time, leaves what that round alone leaves.
- Different feeds never clash, so each feed's files depend only on its own writes.
- Every outcome of a run is left on file.

Where the source code and its documented intent differ, the model follows the
code:

- A 304 response that carries no `etag` header is recorded with the etag
  `[[NO_ETAG]]`, not with the etag that was sent. The scan starts from that
  marker, not from the stored etag (`src/main.rs:264`). `NotModifiedOutcome`
  states this.
- The 40971520-byte cap is applied inside the writer to every artifact, not
  only to downloaded bodies. It measures `String::len`, which counts UTF-8
  bytes (`src/main.rs:377-381`).
- The policy aborts the request when more than nine requests precede a redirect. A tenth
  redirect response is therefore never followed and leaves no stub, even when
  it is permanent. reqwest then reports an error, and the transport-error
  branch writes the 666 artifact (`src/main.rs:215`, `348-361`).
- A status outside every named arm (1xx, 3xx other than 304, and 2xx other
  than 200, 203, 204 and 214) still writes an artifact under its own status
  and reports "not updated" (`src/main.rs:339-345`).
- A real response whose status is 666 falls in the `500..=999` arm. It writes
  a file with the same name as a connection failure but reports `Ok(false)`.
  `FailedFetchOutcome` therefore ties the 666 artifact to send failures in one
  direction only.

## Model

| member | source | states |
|---|---|---|
| Text.Utf8Length | src/main.rs:377 | the body length the cap compares is the UTF-8 byte count: at least the number of characters, at most four times it, and equal to it for ASCII text |
| Text.DecimalRoundTrip | src/main.rs:394-397 | a number written in decimal (`format!("{}")`) parses back to the same number |
| Text.HeaderText | src/main.rs:275 | `to_str` accepts a header value exactly when every byte is visible ASCII or a tab, and then yields those bytes as text |
| Artifacts.FiledCode | src/main.rs:371-381 | the artifact is filed under its own status when the body is at most 40971520 UTF-8 bytes, and under 668 when it is longer |
| Artifacts.Directory | src/main.rs:383-387 | the file goes to `redirects` exactly for 301 and 308, and to `feeds` otherwise |
| Artifacts.FileNameRoundTrip | src/main.rs:390 | the name `<dir>/<feed id>_<code>.txt` reads back as its directory, feed id and code |
| Artifacts.FileNameInjective | src/main.rs:390 | two different (feed id, code) pairs never share a file name |
| Artifacts.DifferentFeedsDifferentFiles | src/main.rs:390 | artifacts of different feeds never share a file |
| Artifacts.FileContentRoundTrip | src/main.rs:393-402 | the four metadata lines and the body read back as written, provided etag and URL hold no line break; the body is missing exactly when the artifact was filed as 668 |
| Artifacts.StoredAllOverrides | src/main.rs:393 | `File::create` truncates, so after a sequence of writes the store is the old store overridden by what the writes alone produce |
| Artifacts.StoredAllKeysTimeless | src/main.rs:390 | which files a sequence of writes creates or replaces does not depend on the time of writing |
| Artifacts.StoredAllRewrite | src/main.rs:393 | writing the same artifacts again, at any time, leaves exactly what writing them once at that time leaves; at the same time this is idempotence |
| Artifacts.StoredAllElsewhere | src/main.rs:390-393 | writes that never target a file name leave that file, or its absence, as it was |
| Artifacts.NoWriterTouches | src/main.rs:390-393 | writers none of which targets a file name leave that file, or its absence, as it was |
| Artifacts.OnlyWriterDecides | src/main.rs:390-393 | a file that only one writer targets ends up as that writer's writes alone leave it, wherever the writer stands among the others |
| Artifacts.LastOfPartSurvives | src/main.rs:390-393 | when no later writer targets its file, the last artifact of a writer is still in place after all writers |
| Artifacts.ArtifactStore.WriteFeedFile | src/main.rs:367-406 | the store afterwards is the old store with the artifact's file replaced. The file is named by feed id and filed code; 668 is chosen exactly when the body is too large or 668 was passed in; every other file is unchanged |
| Validators.RequestHeaders | src/main.rs:189-207 | User-Agent is always sent; If-Modified-Since is sent exactly when the stored time is positive, with the formatted date; If-None-Match is sent exactly when the stored etag is non-empty, with that etag; the header map holds nothing else |
| Validators.BuildRequestHeaders | src/main.rs:189-207 | the header map built one insert at a time equals `RequestHeaders`, and each validator value it holds is a valid header value |
| Validators.ModifiedAfter | src/main.rs:265-283 | the new last-modified time comes from the last readable, parseable `last-modified` header dated at or after the epoch; with no such header the stored time stays |
| Validators.EtagAfter | src/main.rs:264-291 | the new etag is the text of the last readable, non-empty `etag` header; with no such header it is the fallback |
| Validators.ScanValidators | src/main.rs:263-292 | the header loop yields `ModifiedAfter` from the stored time and `EtagAfter` from `[[NO_ETAG]]` |
| Validators.EchoedValidatorsRoundTrip | src/main.rs:194-291 | a server that echoes the sent validators as `last-modified` and `etag` gives back the stored time and etag, when the date formatter and parser agree |
| Redirects.Decide | src/main.rs:214-217 | the policy aborts the request with the error "Error - Too many redirects" exactly when more than nine requests precede the redirect, and follows it otherwise |
| Redirects.Intercept | src/main.rs:211-236 | the policy decides as `Decide`; it writes the stub exactly when it follows a 301 or 308 and otherwise leaves the store unchanged |
| Redirects.StubFiledAsRedirect | src/main.rs:219-232 | a stub is filed as `redirects/<id>_<status>.txt` and reads back as time 0, an empty etag, the new URL and no body |
| Fetch.StatusVerdict | src/main.rs:296-346 | a fetch is "updated" exactly for 200, 203, 204 and 214; the body is read only for 200, 203 and 214; 304 is its own arm |
| Fetch.FollowedHops | src/main.rs:214-217 | at most nine redirects are followed: all of a chain of at most nine, and exactly nine of a longer one |
| Fetch.RedirectStubs | src/main.rs:219-232 | every stub belongs to the feed, is a 301 or 308 with time 0, no etag and no body, and a chain without permanent redirects writes none |
| Fetch.StubsOnlyForPermanentRedirects | src/main.rs:214-232 | there are as many stubs as positions of permanent redirects among the followed ones |
| Fetch.EveryPermanentRedirectHasStub | src/main.rs:219-232 | each followed 301 or 308 writes its own stub: that feed, that status, time 0, no etag, the URL it points to, no body. A later redirect of the feed with the same status writes to the same file and overwrites it |
| Fetch.EveryStubFromPermanentRedirect | src/main.rs:219-232 | every stub written is the stub of some followed 301 or 308 of the chain |
| Fetch.StubsInHopOrder | src/main.rs:211-236 | stubs are written in hop order: the stubs of the first k redirects are a prefix of the stubs of the whole chain |
| Fetch.FollowRedirects | src/main.rs:211-236 | the client's redirect loop follows `FollowedHops` redirects, stops exactly when the chain is too long, ends at the last followed URL, and writes exactly the stubs of the followed redirects |
| Fetch.CheckFeedIsUpdated | src/main.rs:185-363 | sends `RequestHeaders`, returns `FetchResult` and writes, in order, the redirect stubs and then the status artifact or the connection-failure artifact |
| Fetch.ReceivedResponseWritesOneArtifact | src/main.rs:295-346 | a delivered response whose body is readable (or not needed) writes one artifact after the stubs. It carries the scanned validators, the final URL and a body only for 200, 203 and 214; the verdict is `Ok(status in {200, 203, 204, 214})` |
| Fetch.NotModifiedOutcome | src/main.rs:315-321 | a 304 reports "not updated" and writes `feeds/<id>_304.txt` without a body, with the etag from the response headers or `[[NO_ETAG]]` |
| Fetch.FailedFetchOutcome | src/main.rs:348-361 | an unreadable body is the only outcome with no status artifact. A send failure or a cut-off chain writes 666 with the stored time, `[[NO_ETAG]]` and the requested URL. Every `Ok` comes from a delivered response whose artifact carries its own status (it is still filed under 668 when the body is over the cap) |
| Fetch.FetchWritesBelongToFeed | src/main.rs:222-351 | every artifact a fetch writes carries that fetch's feed id |
| Orchestrator.FetchOne | src/main.rs:98-119 | one feed's async block returns the fetch's result and writes the fetch's artifacts, plus the 667 artifact exactly when the fetch fails |
| Orchestrator.FetchFeeds | src/main.rs:95-125 | run in list order, every feed's verdict is its fetch's result, and the store holds all the feeds' writes applied in order |
| Orchestrator.RerunReplacesEarlierRun | src/main.rs:95-125 | running again over the same feeds with the same answers, at any time, leaves the store as a single run at that time would; nothing of the earlier run remains in the files it wrote |
| Orchestrator.FailedFetchWritesDownloadFailure | src/main.rs:106-118 | a failed fetch ends with `feeds/<id>_667.txt` (time 0, no etag, the feed URL, no body); a send failure or a cut-off chain writes the 666 artifact just before it |
| Orchestrator.JobWritesBelongToFeed | src/main.rs:106-118 | everything written for a feed carries that feed's id |
| Orchestrator.DistinctFeedsWriteDistinctFiles | src/main.rs:96-122 | feeds with different ids never write to the same file |
| Orchestrator.LastWriteSurvivesRun | src/main.rs:96-123 | with distinct feed ids, the last artifact each feed writes is still on file after the whole run |
| Orchestrator.FeedFilesDependOnlyOnFeed | src/main.rs:95-125 | with distinct feed ids, every file a feed writes ends up as that feed's writes alone leave it, so neither the other feeds nor the feed's place in the list matter to it |
| Orchestrator.RunRecordsEveryOutcome | src/main.rs:96-123 | with distinct feed ids, after the run each failed feed has its 667 artifact on file, and each successful feed has the artifact of the response it received |

## Left out

- Reading the feed list from SQLite and the `main` entry point (`src/main.rs:128-180` and before): the model starts from a list of feeds.
- Concurrency: `buffer_unordered(100)` runs up to a hundred fetches at once, in no fixed order. The model runs whole fetches one after another, in list order. With distinct feed ids, each file a feed writes ends up as that feed's own writes leave it, so the list order does not matter for it (`FeedFilesDependOnlyOnFeed`). Writes of different fetches interleaved with one another are not modelled.
- The headers reqwest adds on its own: `accept: */*` from its defaults, `accept-encoding: gzip` from `.gzip(true)` (`src/main.rs:245`), and `referer` after a redirect. `RequestHeaders` is the header map the source builds, not the request on the wire.
- The reqwest client itself: TLS, the connect, request and idle timeouts, gzip decoding, and URL parsing and normalisation. A URL is an opaque string; a timeout is one kind of connection failure.
- The `httpdate` crate: formatting and parsing HTTP dates are parameters of `Externals`. `EchoedValidatorsRoundTrip` assumes they agree.
- The clock: the source reads `SystemTime::now` at every write (`src/main.rs:374`). The model takes one `now` for a whole run, so every write of a run carries the same time. The time only enters the fourth line of a file, never its name (`StoredAllKeysTimeless`), and a later run at another time is covered by `RerunReplacesEarlierRun`.
- The crate version inside the user agent is a parameter.
- Validators.BuildRequestHeaders: the `unwrap` of `HeaderValue::from_str` and of `checked_add` for the validator values becomes a precondition. The panic on a bad stored etag, or on a time too large for `SystemTime`, is not modelled.
- File-system failures: `File::create` and `write_all` always succeed in the model. The source only logs their errors, so the control flow is the same.
- Logging (`println!`, `eprintln!`), the wording of the `HydraError` message, and the feed title, which is only logged. `fetch_feeds` itself returns `Ok(())` and only prints each feed's verdict; `FetchFeeds` returns the verdicts so that the contract can state them.
- Integer widths: feed ids, times and statuses are unbounded naturals. reqwest never produces a status above 999, and `u64` times do not wrap in practice.
- Text encoding: a body is the already-decoded text. How `text_with_charset` decodes the bytes is not modelled; its failure is the `None` body.
