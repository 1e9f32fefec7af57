/** The run over all feeds (`fetch_feeds`): every feed is fetched once, and a
    fetch that ends in an error additionally leaves a download-failure
    artifact. The source runs up to a hundred fetches at a time and makes no
    promise about their order; this model runs them one after the other in
    list order. */
module Orchestrator {
  import opened Wrappers
  import opened Text
  import opened Artifacts
  import opened Validators
  import opened Fetch

  /** A feed to poll, as the feed list supplies it. */
  datatype Podcast = Podcast(id: nat, url: string, title: string, lastModified: nat, etag: string)

  /** One feed together with what the network does when it is fetched. */
  datatype Job = Job(podcast: Podcast, exchange: Exchange)

  /** What the error arm writes: no validators, the feed's own URL, no body. */
  function DownloadFailureArtifact(p: Podcast): Artifact {
    Artifact(p.id, DownloadFailureCode, 0, "", p.url, "")
  }

  /** Everything written for one feed, in order. */
  function JobWrites(job: Job, ext: Externals): seq<Artifact> {
    var p := job.podcast;
    FetchWrites(p.id, p.url, p.lastModified, job.exchange, ext)
      + (if FetchResult(job.exchange).Err? then [DownloadFailureArtifact(p)] else [])
  }

  /** What each feed writes, feed by feed. */
  function PerFeedWrites(jobs: seq<Job>, ext: Externals): seq<seq<Artifact>> {
    seq(|jobs|, i requires 0 <= i < |jobs| => JobWrites(jobs[i], ext))
  }

  /** Everything written for a list of feeds fetched in order. */
  function RunWrites(jobs: seq<Job>, ext: Externals): seq<Artifact> {
    Concat(PerFeedWrites(jobs, ext))
  }

  /** Each feed's verdict, in list order. */
  function Verdicts(jobs: seq<Job>): (verdicts: seq<Result<bool, FetchError>>)
    ensures |verdicts| == |jobs|
    ensures forall j :: 0 <= j < |jobs| ==> verdicts[j] == FetchResult(jobs[j].exchange)
    decreases |jobs|
  {
    if jobs == [] then []
    else
      var n := |jobs|;
      assert forall j :: 0 <= j < n - 1 ==> jobs[..n - 1][j] == jobs[j];
      Verdicts(jobs[..n - 1]) + [FetchResult(jobs[n - 1].exchange)]
  }

  /** The header values of every feed are acceptable (the fetch unwraps them). */
  predicate Fetchable(jobs: seq<Job>, ext: Externals) {
    forall j :: 0 <= j < |jobs| ==> CanBuildRequest(jobs[j].podcast.lastModified, jobs[j].podcast.etag, ext)
  }

  predicate DistinctIds(jobs: seq<Job>) {
    forall i, j :: 0 <= i < j < |jobs| ==> jobs[i].podcast.id != jobs[j].podcast.id
  }

  /** The per-feed async block of `fetch_feeds`: one fetch, and on an error the
      download-failure artifact on top of whatever the fetch wrote. */
  method FetchOne(store: ArtifactStore, job: Job, ext: Externals, now: nat)
    returns (result: Result<bool, FetchError>)
    requires CanBuildRequest(job.podcast.lastModified, job.podcast.etag, ext)
    modifies store
    ensures result == FetchResult(job.exchange)
    ensures store.files == StoredAll(old(store.files), JobWrites(job, ext), now)
  {
    var podcast := job.podcast;
    var _, r := CheckFeedIsUpdated(store, podcast.url, podcast.etag, podcast.lastModified, podcast.id,
                                   job.exchange, ext, now);
    result := r;
    if result.Err? {
      store.WriteFeedFile(podcast.id, DownloadFailureCode, 0, "", podcast.url, "", now);
      StoredAllSnoc(old(store.files), FetchWrites(podcast.id, podcast.url, podcast.lastModified, job.exchange, ext),
                    DownloadFailureArtifact(podcast), now);
    } else {
      assert JobWrites(job, ext) == FetchWrites(podcast.id, podcast.url, podcast.lastModified, job.exchange, ext);
    }
  }

  /** `fetch_feeds`, one feed after the other: every feed's verdict, and the
      files as the feeds' writes, in list order, leave them. */
  method FetchFeeds(store: ArtifactStore, jobs: seq<Job>, ext: Externals, now: nat)
    returns (verdicts: seq<Result<bool, FetchError>>)
    requires Fetchable(jobs, ext)
    modifies store
    ensures verdicts == Verdicts(jobs)
    ensures store.files == StoredAll(old(store.files), RunWrites(jobs, ext), now)
  {
    verdicts := [];
    for i := 0 to |jobs|
      invariant verdicts == Verdicts(jobs[..i])
      invariant store.files == StoredAll(old(store.files), RunWrites(jobs[..i], ext), now)
    {
      var result := FetchOne(store, jobs[i], ext, now);
      RunStep(old(store.files), jobs, i, ext, now);
      verdicts := verdicts + [result];
    }
    assert jobs[..|jobs|] == jobs;
  }

  /** Fetching feed `i` appends its verdict and its writes to those of the
      feeds before it. */
  lemma RunStep(files: map<string, string>, jobs: seq<Job>, i: nat, ext: Externals, now: nat)
    requires i < |jobs|
    ensures Verdicts(jobs[..i + 1]) == Verdicts(jobs[..i]) + [FetchResult(jobs[i].exchange)]
    ensures StoredAll(files, RunWrites(jobs[..i + 1], ext), now)
         == StoredAll(StoredAll(files, RunWrites(jobs[..i], ext), now), JobWrites(jobs[i], ext), now)
  {
    assert jobs[..i + 1][..i] == jobs[..i];
    assert PerFeedWrites(jobs[..i + 1], ext)[..i] == PerFeedWrites(jobs[..i], ext);
    StoredAllAppend(files, RunWrites(jobs[..i], ext), JobWrites(jobs[i], ext), now);
  }

  // ---------------------------------------------------------------------------
  // Properties of a run

  /** Running again over the same feeds with the same answers, at any later
      time (or the same one), leaves the files exactly as a single run at that
      time would: every artifact is overwritten, none appended to. */
  lemma RerunReplacesEarlierRun(files: map<string, string>, jobs: seq<Job>, ext: Externals, earlier: nat, later: nat)
    ensures var first := StoredAll(files, RunWrites(jobs, ext), earlier);
            StoredAll(first, RunWrites(jobs, ext), later) == StoredAll(files, RunWrites(jobs, ext), later)
  {
    StoredAllRewrite(files, RunWrites(jobs, ext), earlier, later);
  }

  /** A failed fetch ends with the download-failure artifact, filed under 667
      in the feeds directory; a failed send or a stopped redirect chain also
      wrote the connection-failure artifact just before it. */
  lemma FailedFetchWritesDownloadFailure(job: Job, ext: Externals)
    requires FetchResult(job.exchange).Err?
    ensures var writes := JobWrites(job, ext);
            && |writes| >= 1
            && writes[|writes| - 1] == DownloadFailureArtifact(job.podcast)
            && KeyOf(writes[|writes| - 1]) == FeedsDirectory + "/" + Decimal(job.podcast.id) + "_" + Decimal(667) + ".txt"
    ensures FetchResult(job.exchange) != Err(BodyUnreadable) ==>
            var writes := JobWrites(job, ext);
            && |writes| >= 2
            && writes[|writes| - 2] == ConnectionFailureArtifact(job.podcast.id, job.podcast.url, job.podcast.lastModified)
  {
    var p := job.podcast;
    FailedFetchOutcome(p.id, p.url, p.lastModified, job.exchange, ext);
  }

  /** Every artifact written for a feed carries that feed's id. */
  lemma JobWritesBelongToFeed(job: Job, ext: Externals)
    ensures forall a :: a in JobWrites(job, ext) ==> a.feedId == job.podcast.id
  {
    var p := job.podcast;
    FetchWritesBelongToFeed(p.id, p.url, p.lastModified, job.exchange, ext);
  }

  /** Feeds with different ids never write to the same file. */
  lemma DistinctFeedsWriteDistinctFiles(job1: Job, job2: Job, ext: Externals)
    requires job1.podcast.id != job2.podcast.id
    ensures forall a, b :: a in JobWrites(job1, ext) && b in JobWrites(job2, ext) ==> KeyOf(a) != KeyOf(b)
  {
    JobWritesBelongToFeed(job1, ext);
    JobWritesBelongToFeed(job2, ext);
    forall a, b | a in JobWrites(job1, ext) && b in JobWrites(job2, ext)
      ensures KeyOf(a) != KeyOf(b)
    {
      DifferentFeedsDifferentFiles(a, b);
    }
  }

  /** With distinct feed ids, the last artifact a feed writes is still in
      place after the whole run: no later feed overwrites it. */
  lemma LastWriteSurvivesRun(files: map<string, string>, jobs: seq<Job>, j: nat, ext: Externals, now: nat)
    requires DistinctIds(jobs) && j < |jobs| && JobWrites(jobs[j], ext) != []
    ensures var w := JobWrites(jobs[j], ext);
            var a := w[|w| - 1];
            var after := StoredAll(files, RunWrites(jobs, ext), now);
            KeyOf(a) in after && after[KeyOf(a)] == ContentOf(a, now)
  {
    var parts := PerFeedWrites(jobs, ext);
    var w := JobWrites(jobs[j], ext);
    var a := w[|w| - 1];
    JobWritesBelongToFeed(jobs[j], ext);
    assert a in w;
    forall i, b | j < i < |parts| && b in parts[i]
      ensures KeyOf(b) != KeyOf(a)
    {
      JobWritesBelongToFeed(jobs[i], ext);
      DifferentFeedsDifferentFiles(a, b);
    }
    LastOfPartSurvives(files, parts, j, now);
  }

  /** With distinct feed ids, each file a feed writes ends up as that feed's
      writes alone would leave it: neither the other feeds nor the feed's place
      in the list make any difference to it. */
  lemma FeedFilesDependOnlyOnFeed(files: map<string, string>, jobs: seq<Job>, j: nat, ext: Externals, now: nat, a: Artifact)
    requires DistinctIds(jobs) && j < |jobs| && a in JobWrites(jobs[j], ext)
    ensures var after := StoredAll(files, RunWrites(jobs, ext), now);
            var alone := StoredAll(files, JobWrites(jobs[j], ext), now);
            && (KeyOf(a) in after <==> KeyOf(a) in alone)
            && (KeyOf(a) in after ==> after[KeyOf(a)] == alone[KeyOf(a)])
  {
    var parts := PerFeedWrites(jobs, ext);
    JobWritesBelongToFeed(jobs[j], ext);
    forall i | 0 <= i < |parts| && i != j
      ensures Untouched(parts[i], KeyOf(a))
    {
      JobWritesBelongToFeed(jobs[i], ext);
      forall k | 0 <= k < |parts[i]|
        ensures KeyOf(parts[i][k]) != KeyOf(a)
      {
        DifferentFeedsDifferentFiles(a, parts[i][k]);
      }
    }
    OnlyWriterDecides(files, parts, j, now, KeyOf(a));
  }

  /** After a run over feeds with distinct ids, every feed's outcome is on
      file: a failed fetch as its download-failure artifact under 667, a
      successful one as the artifact of the response it received. */
  lemma RunRecordsEveryOutcome(files: map<string, string>, jobs: seq<Job>, j: nat, ext: Externals, now: nat)
    requires DistinctIds(jobs) && j < |jobs|
    ensures var p := jobs[j].podcast;
            var after := StoredAll(files, RunWrites(jobs, ext), now);
            var name := FeedsDirectory + "/" + Decimal(p.id) + "_" + Decimal(667) + ".txt";
            FetchResult(jobs[j].exchange).Err? ==> name in after && after[name] == ContentOf(DownloadFailureArtifact(p), now)
    ensures var p := jobs[j].podcast;
            var after := StoredAll(files, RunWrites(jobs, ext), now);
            var a := StatusArtifact(p.id, p.url, p.lastModified, jobs[j].exchange, ext);
            FetchResult(jobs[j].exchange).Ok? ==> a.Some? && KeyOf(a.value) in after && after[KeyOf(a.value)] == ContentOf(a.value, now)
  {
    var p := jobs[j].podcast;
    FailedFetchOutcome(p.id, p.url, p.lastModified, jobs[j].exchange, ext);
    if FetchResult(jobs[j].exchange).Err? {
      FailedFetchWritesDownloadFailure(jobs[j], ext);
    }
    LastWriteSurvivesRun(files, jobs, j, ext, now);
  }
}
