/** One conditional fetch of one feed (`check_feed_is_updated`): build the
    validator headers, follow the redirect chain under the policy, and on a
    response scan its validators, classify its status into "updated" or "not
    updated" and write one artifact for it; on a transport failure write the
    connection-failure artifact and report the error.

    The network is an input: an `Exchange` lists the redirect responses the
    servers would send, in order, and how the chain ends. */
module Fetch {
  import opened Wrappers
  import opened Text
  import opened Artifacts
  import opened Validators
  import opened Redirects

  /** A redirect response: its status and the URL it points to. */
  datatype Hop = Hop(status: nat, location: string)

  /** The final response; `body` is `None` when reading the text fails. */
  datatype Response = Response(status: nat, headers: seq<Header>, body: Option<string>)

  datatype Ending = Delivered(response: Response) | ConnectionFailed

  datatype Exchange = Exchange(hops: seq<Hop>, ending: Ending)

  datatype FetchError = SendFailed | TooManyRedirects | BodyUnreadable

  // ---------------------------------------------------------------------------
  // Status classification

  /** The arms of the status match. */
  datatype Arm = Success | NoContent | NotModified | ClientError | ServerError | Unhandled

  function ArmOf(status: nat): Arm {
    if status == 200 || status == 203 || status == 214 then Success
    else if status == 204 then NoContent
    else if status == 304 then NotModified
    else if 400 <= status <= 499 then ClientError
    else if 500 <= status <= 999 then ServerError
    else Unhandled
  }

  /** The verdict an arm reports. */
  function Updated(arm: Arm): bool {
    arm == Success || arm == NoContent
  }

  /** Whether an arm reads the response text. */
  predicate ReadsBody(arm: Arm) {
    arm == Success
  }

  /** "Updated" exactly for 200, 203, 204 and 214; the body is read only for
      200, 203 and 214; 304 is an ordinary "not updated". */
  lemma StatusVerdict(status: nat)
    ensures Updated(ArmOf(status)) <==> status in {200, 203, 204, 214}
    ensures ReadsBody(ArmOf(status)) <==> status in {200, 203, 214}
    ensures ArmOf(status) == NotModified <==> status == 304
  {
  }

  // ---------------------------------------------------------------------------
  // The redirect chain

  function Locations(hops: seq<Hop>): (urls: seq<string>)
    ensures |urls| == |hops| && forall i :: 0 <= i < |hops| ==> urls[i] == hops[i].location
  {
    seq(|hops|, i requires 0 <= i < |hops| => hops[i].location)
  }

  lemma LocationsStep(hops: seq<Hop>, k: nat)
    requires k < |hops|
    ensures Locations(hops[..k + 1]) == Locations(hops[..k]) + [hops[k].location]
  {
    var a, b := Locations(hops[..k + 1]), Locations(hops[..k]) + [hops[k].location];
    assert |a| == |b|;
    forall i | 0 <= i < |a| ensures a[i] == b[i] {
      if i < k {
        assert a[i] == hops[..k + 1][i] .location == hops[i].location;
      }
    }
  }

  /** Following redirect `k` extends the requested URLs by its target and the
      stubs by its stub, if it has one. */
  lemma FollowStep(files: map<string, string>, feedId: nat, url: string, hops: seq<Hop>, k: nat, now: nat)
    requires k < |hops|
    ensures [url] + Locations(hops[..k + 1]) == [url] + Locations(hops[..k]) + [hops[k].location]
    ensures StoredAll(files, RedirectStubs(feedId, hops[..k + 1]), now)
         == if IsPermanentRedirect(hops[k].status)
            then Stored(StoredAll(files, RedirectStubs(feedId, hops[..k]), now),
                        Stub(feedId, Attempt(hops[k].status, hops[k].location, [url] + Locations(hops[..k]))), now)
            else StoredAll(files, RedirectStubs(feedId, hops[..k]), now)
  {
    LocationsStep(hops, k);
    var before := Locations(hops[..k]);
    assert [url] + (before + [hops[k].location]) == [url] + before + [hops[k].location];
    RedirectStubsStep(feedId, hops, k);
    var stubs := RedirectStubs(feedId, hops[..k]);
    if IsPermanentRedirect(hops[k].status) {
      assert Stub(feedId, Attempt(hops[k].status, hops[k].location, [url] + Locations(hops[..k]))) == StubOf(feedId, hops[k]);
      StoredAllSnoc(files, stubs, StubOf(feedId, hops[k]), now);
    } else {
      assert stubs + HopStub(feedId, hops[k]) == stubs;
    }
  }

  lemma LastPrevious(url: string, hops: seq<Hop>, k: nat)
    requires k <= |hops|
    ensures var previous := [url] + Locations(hops[..k]); previous[|previous| - 1] == FinalUrl(url, hops[..k])
  {
    if k > 0 {
      assert Locations(hops[..k])[k - 1] == hops[..k][k - 1].location;
    }
  }

  /** How many redirects the policy follows before the chain ends or is stopped. */
  function FollowedHops(hops: seq<Hop>): (n: nat)
    ensures n <= |hops| && n <= MaxPreviousRequests
    ensures n < |hops| <==> |hops| > MaxPreviousRequests
    ensures |hops| > MaxPreviousRequests ==> n == MaxPreviousRequests
  {
    if |hops| > MaxPreviousRequests then MaxPreviousRequests else |hops|
  }

  /** The stub the policy writes for a redirect. It depends only on the
      redirect's status and target, not on the requests made before it. */
  function StubOf(feedId: nat, hop: Hop): Artifact {
    Stub(feedId, Attempt(hop.status, hop.location, []))
  }

  /** The stub a followed redirect leaves: one for a permanent redirect, none otherwise. */
  function HopStub(feedId: nat, hop: Hop): seq<Artifact> {
    if IsPermanentRedirect(hop.status) then [StubOf(feedId, hop)] else []
  }

  /** The stubs written for the permanent redirects among `hops`, in order. */
  function RedirectStubs(feedId: nat, hops: seq<Hop>): (stubs: seq<Artifact>)
    ensures |stubs| <= |hops|
    ensures forall s :: s in stubs ==>
              s.feedId == feedId && IsPermanentRedirect(s.statusCode)
              && s.modified == 0 && s.etag == "" && s.body == ""
    ensures (forall i :: 0 <= i < |hops| ==> !IsPermanentRedirect(hops[i].status)) ==> stubs == []
    decreases |hops|
  {
    if hops == [] then []
    else
      var n := |hops|;
      assert forall i :: 0 <= i < n - 1 ==> hops[..n - 1][i] == hops[i];
      RedirectStubs(feedId, hops[..n - 1]) + HopStub(feedId, hops[n - 1])
  }

  lemma RedirectStubsStep(feedId: nat, hops: seq<Hop>, k: nat)
    requires k < |hops|
    ensures RedirectStubs(feedId, hops[..k + 1]) == RedirectStubs(feedId, hops[..k]) + HopStub(feedId, hops[k])
  {
    assert hops[..k + 1][..k] == hops[..k];
  }

  /** The URL the response comes from: the last redirect target followed. */
  function FinalUrl(url: string, hops: seq<Hop>): string {
    if hops == [] then url else hops[|hops| - 1].location
  }

  // ---------------------------------------------------------------------------
  // What one fetch writes and reports

  /** The artifact a failed send leaves: the stored time, no etag, the requested URL. */
  function ConnectionFailureArtifact(feedId: nat, url: string, lastModified: nat): Artifact {
    Artifact(feedId, ConnectionFailureCode, lastModified, NoEtag, url, "")
  }

  /** The artifact written after the redirects, if any. */
  function StatusArtifact(feedId: nat, url: string, lastModified: nat, ex: Exchange, ext: Externals): Option<Artifact> {
    if |ex.hops| > MaxPreviousRequests then Some(ConnectionFailureArtifact(feedId, url, lastModified))
    else
      match ex.ending
      case ConnectionFailed => Some(ConnectionFailureArtifact(feedId, url, lastModified))
      case Delivered(res) =>
        var modified := ModifiedAfter(res.headers, lastModified, ext.parseHttpDate);
        var etag := EtagAfter(res.headers, NoEtag);
        var finalUrl := FinalUrl(url, ex.hops);
        if !ReadsBody(ArmOf(res.status)) then Some(Artifact(feedId, res.status, modified, etag, finalUrl, ""))
        else if res.body.Some? then Some(Artifact(feedId, res.status, modified, etag, finalUrl, res.body.value))
        else None
  }

  /** What the fetch returns to the orchestrator. */
  function FetchResult(ex: Exchange): Result<bool, FetchError> {
    if |ex.hops| > MaxPreviousRequests then Err(TooManyRedirects)
    else
      match ex.ending
      case ConnectionFailed => Err(SendFailed)
      case Delivered(res) =>
        if ReadsBody(ArmOf(res.status)) && res.body.None? then Err(BodyUnreadable)
        else Ok(Updated(ArmOf(res.status)))
  }

  /** Every artifact the fetch writes, in order. */
  function FetchWrites(feedId: nat, url: string, lastModified: nat, ex: Exchange, ext: Externals): seq<Artifact> {
    RedirectStubs(feedId, ex.hops[..FollowedHops(ex.hops)])
      + match StatusArtifact(feedId, url, lastModified, ex, ext)
        case Some(a) => [a]
        case None => []
  }

  /** The client's redirect handling: each redirect response is shown to the
      policy with the URLs requested so far; the chain ends when the policy
      stops it or when no redirect is left. Returns how many redirects were
      followed, the URL then current, and whether the policy stopped. */
  method FollowRedirects(store: ArtifactStore, feedId: nat, url: string, hops: seq<Hop>, now: nat)
    returns (k: nat, current: string, stopped: bool)
    modifies store
    ensures k == FollowedHops(hops) && current == FinalUrl(url, hops[..k])
    ensures stopped <==> |hops| > MaxPreviousRequests
    ensures store.files == StoredAll(old(store.files), RedirectStubs(feedId, hops[..k]), now)
  {
    var previous := [url];
    k := 0;
    stopped := false;
    while k < |hops| && !stopped
      invariant k <= |hops| && k <= MaxPreviousRequests
      invariant previous == [url] + Locations(hops[..k])
      invariant stopped ==> k == MaxPreviousRequests < |hops|
      invariant store.files == StoredAll(old(store.files), RedirectStubs(feedId, hops[..k]), now)
      decreases |hops| - k, !stopped
    {
      var attempt := Attempt(hops[k].status, hops[k].location, previous);
      var action := Intercept(store, feedId, attempt, now);
      if action.Abort? {
        stopped := true;
      } else {
        FollowStep(old(store.files), feedId, url, hops, k, now);
        previous := previous + [hops[k].location];
        k := k + 1;
      }
    }
    current := previous[|previous| - 1];
    LastPrevious(url, hops, k);
  }

  /** `check_feed_is_updated`. */
  method CheckFeedIsUpdated(store: ArtifactStore, url: string, etag: string, lastModified: nat, feedId: nat,
                            ex: Exchange, ext: Externals, now: nat)
    returns (sent: map<string, string>, result: Result<bool, FetchError>)
    requires CanBuildRequest(lastModified, etag, ext)
    modifies store
    ensures sent == RequestHeaders(lastModified, etag, ext)
    ensures result == FetchResult(ex)
    ensures store.files == StoredAll(old(store.files), FetchWrites(feedId, url, lastModified, ex, ext), now)
  {
    sent := BuildRequestHeaders(lastModified, etag, ext);

    var rEtag := NoEtag;
    var rModified := lastModified;
    var rUrl := url;

    var k, current, stopped := FollowRedirects(store, feedId, url, ex.hops, now);
    StoredFetchWrites(old(store.files), feedId, url, lastModified, ex, ext, now);

    if stopped {
      store.WriteFeedFile(feedId, ConnectionFailureCode, rModified, rEtag, rUrl, "", now);
      return sent, Err(TooManyRedirects);
    }
    assert ex.hops[..k] == ex.hops;

    match ex.ending {
      case ConnectionFailed =>
        store.WriteFeedFile(feedId, ConnectionFailureCode, rModified, rEtag, rUrl, "", now);
        result := Err(SendFailed);
      case Delivered(res) =>
        rUrl := current;
        rModified, rEtag := ScanValidators(res.headers, lastModified, ext.parseHttpDate);
        var body := "";
        var arm := ArmOf(res.status);
        if arm == Success {
          if res.body.None? {
            return sent, Err(BodyUnreadable);
          }
          body := res.body.value;
        }
        store.WriteFeedFile(feedId, res.status, rModified, rEtag, rUrl, body, now);
        result := Ok(Updated(arm));
    }
  }

  /** The files after a fetch: the stubs of the followed redirects, then the
      status artifact, if there is one. */
  lemma StoredFetchWrites(files: map<string, string>, feedId: nat, url: string, lastModified: nat,
                          ex: Exchange, ext: Externals, now: nat)
    ensures var afterStubs := StoredAll(files, RedirectStubs(feedId, ex.hops[..FollowedHops(ex.hops)]), now);
            StoredAll(files, FetchWrites(feedId, url, lastModified, ex, ext), now)
            == match StatusArtifact(feedId, url, lastModified, ex, ext)
               case Some(a) => Stored(afterStubs, a, now)
               case None => afterStubs
  {
    var stubs := RedirectStubs(feedId, ex.hops[..FollowedHops(ex.hops)]);
    match StatusArtifact(feedId, url, lastModified, ex, ext)
    case Some(a) => StoredAllSnoc(files, stubs, a, now);
    case None => assert FetchWrites(feedId, url, lastModified, ex, ext) == stubs;
  }

  // ---------------------------------------------------------------------------
  // Properties of a fetch

  /** A response that arrives with a readable body (or needs none) is written
      exactly once, under its real status, after the stubs, and with a body
      only for 200, 203 and 214. */
  lemma ReceivedResponseWritesOneArtifact(feedId: nat, url: string, lastModified: nat, ex: Exchange, ext: Externals)
    requires |ex.hops| <= MaxPreviousRequests && ex.ending.Delivered?
    requires var res := ex.ending.response; !(ReadsBody(ArmOf(res.status)) && res.body.None?)
    ensures var res := ex.ending.response;
            var writes := FetchWrites(feedId, url, lastModified, ex, ext);
            && FetchResult(ex) == Ok(res.status in {200, 203, 204, 214})
            && |writes| == |RedirectStubs(feedId, ex.hops)| + 1
            && writes[..|writes| - 1] == RedirectStubs(feedId, ex.hops)
            && writes[|writes| - 1] == Artifact(feedId, res.status,
                 ModifiedAfter(res.headers, lastModified, ext.parseHttpDate), EtagAfter(res.headers, NoEtag),
                 FinalUrl(url, ex.hops), if res.status in {200, 203, 214} then res.body.value else "")
  {
    StatusVerdict(ex.ending.response.status);
    assert ex.hops[..FollowedHops(ex.hops)] == ex.hops;
  }

  /** A 304 is "not updated" and its artifact carries no body. The etag is the
      one the response offers, or the no-etag marker, never the stored one. */
  lemma NotModifiedOutcome(feedId: nat, url: string, lastModified: nat, ex: Exchange, ext: Externals)
    requires |ex.hops| <= MaxPreviousRequests && ex.ending.Delivered? && ex.ending.response.status == 304
    ensures FetchResult(ex) == Ok(false)
    ensures var a := StatusArtifact(feedId, url, lastModified, ex, ext);
            && a.Some? && a.value.statusCode == 304 && a.value.body == ""
            && a.value.etag == EtagAfter(ex.ending.response.headers, NoEtag)
            && KeyOf(a.value) == FeedsDirectory + "/" + Decimal(feedId) + "_" + Decimal(304) + ".txt"
  {
  }

  /** A send that fails, or a chain the policy stops, writes the
      connection-failure artifact with the stored time, the no-etag marker and
      the requested URL, and reports an error. A body that cannot be read is
      reported without writing any status artifact. */
  lemma FailedFetchOutcome(feedId: nat, url: string, lastModified: nat, ex: Exchange, ext: Externals)
    ensures FetchResult(ex) == Err(BodyUnreadable) <==> StatusArtifact(feedId, url, lastModified, ex, ext).None?
    ensures FetchResult(ex) in {Err(SendFailed), Err(TooManyRedirects)}
            ==> StatusArtifact(feedId, url, lastModified, ex, ext) == Some(ConnectionFailureArtifact(feedId, url, lastModified))
    ensures FetchResult(ex).Ok? ==>
              && ex.ending.Delivered?
              && StatusArtifact(feedId, url, lastModified, ex, ext).Some?
              && StatusArtifact(feedId, url, lastModified, ex, ext).value.statusCode == ex.ending.response.status
  {
  }

  /** The positions of the permanent redirects in a chain. */
  function PermanentPositions(hops: seq<Hop>): set<nat> {
    set i: nat | i < |hops| && IsPermanentRedirect(hops[i].status)
  }

  /** Adding a hop to the chain adds its position exactly when it is permanent. */
  lemma PermanentPositionsSnoc(hops: seq<Hop>)
    requires hops != []
    ensures var n := |hops|;
            |PermanentPositions(hops)|
            == |PermanentPositions(hops[..n - 1])| + (if IsPermanentRedirect(hops[n - 1].status) then 1 else 0)
  {
    var n := |hops|;
    var before := PermanentPositions(hops[..n - 1]);
    assert before == set i: nat | i < n - 1 && IsPermanentRedirect(hops[i].status);
    if IsPermanentRedirect(hops[n - 1].status) {
      assert PermanentPositions(hops) == before + {n - 1};
    } else {
      assert PermanentPositions(hops) == before;
    }
  }

  /** As many stubs as there are permanent redirects among the followed ones. */
  lemma {:induction false} StubsOnlyForPermanentRedirects(feedId: nat, hops: seq<Hop>)
    ensures |RedirectStubs(feedId, hops)| == |PermanentPositions(hops)|
    decreases |hops|
  {
    if hops != [] {
      var n := |hops|;
      StubsOnlyForPermanentRedirects(feedId, hops[..n - 1]);
      PermanentPositionsSnoc(hops);
    }
  }

  /** Each permanent redirect's own stub (its status and the URL it points
      to) is written. */
  lemma {:induction false} EveryPermanentRedirectHasStub(feedId: nat, hops: seq<Hop>, i: nat)
    requires i < |hops| && IsPermanentRedirect(hops[i].status)
    ensures StubOf(feedId, hops[i]) in RedirectStubs(feedId, hops)
    decreases |hops|
  {
    var n := |hops|;
    var init := hops[..n - 1];
    assert RedirectStubs(feedId, hops) == RedirectStubs(feedId, init) + HopStub(feedId, hops[n - 1]);
    if i < n - 1 {
      assert init[i] == hops[i];
      EveryPermanentRedirectHasStub(feedId, init, i);
    }
  }

  /** Every stub written is the stub of some permanent redirect of the chain. */
  lemma {:induction false} EveryStubFromPermanentRedirect(feedId: nat, hops: seq<Hop>, s: Artifact)
    requires s in RedirectStubs(feedId, hops)
    ensures exists i :: 0 <= i < |hops| && IsPermanentRedirect(hops[i].status) && s == StubOf(feedId, hops[i])
    decreases |hops|
  {
    var n := |hops|;
    var init := hops[..n - 1];
    assert RedirectStubs(feedId, hops) == RedirectStubs(feedId, init) + HopStub(feedId, hops[n - 1]);
    if s in RedirectStubs(feedId, init) {
      EveryStubFromPermanentRedirect(feedId, init, s);
      var i :| 0 <= i < n - 1 && IsPermanentRedirect(init[i].status) && s == StubOf(feedId, init[i]);
      assert hops[i] == init[i];
    } else {
      assert s == StubOf(feedId, hops[n - 1]);
    }
  }

  /** Stubs come in hop order: the stubs of the first `k` redirects are a
      prefix of the stubs of the whole chain. */
  lemma {:induction false} StubsInHopOrder(feedId: nat, hops: seq<Hop>, k: nat)
    requires k <= |hops|
    ensures RedirectStubs(feedId, hops[..k]) <= RedirectStubs(feedId, hops)
    decreases |hops|
  {
    var n := |hops|;
    if k == n {
      assert hops[..k] == hops;
    } else {
      var init := hops[..n - 1];
      assert init[..k] == hops[..k];
      StubsInHopOrder(feedId, init, k);
      assert RedirectStubs(feedId, hops) == RedirectStubs(feedId, init) + HopStub(feedId, hops[n - 1]);
    }
  }

  /** Every artifact a fetch writes is filed under that fetch's feed id. */
  lemma FetchWritesBelongToFeed(feedId: nat, url: string, lastModified: nat, ex: Exchange, ext: Externals)
    ensures forall a :: a in FetchWrites(feedId, url, lastModified, ex, ext) ==> a.feedId == feedId
  {
  }
}
