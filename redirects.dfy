/** The custom redirect policy: consulted once for every redirect response of
    a fetch, it aborts a fetch whose chain has already made ten requests, leaves a
    stub artifact behind for a permanent redirect (301 or 308) so that the
    feed's new address can be picked up later, and otherwise follows. */
module Redirects {
  import opened Wrappers
  import opened Text
  import opened Artifacts

  /** Requests a chain may already have made when a further redirect arrives. */
  const MaxPreviousRequests: nat := 9

  const TooManyRedirectsMessage: string := "Error - Too many redirects"

  /** What the HTTP client shows the policy: the redirect's status, the URL it
      points to and the URLs requested so far in this chain. */
  datatype Attempt = Attempt(status: nat, url: string, previous: seq<string>)

  /** `Abort` is the policy's `attempt.error(..)`: the chain ends and the
      request fails with that message (not `attempt.stop()`, which would hand
      back the redirect response itself). */
  datatype Action = Follow | Abort(message: string)

  /** The hop-count test: stop exactly when more than nine requests precede this one. */
  function Decide(attempt: Attempt): (action: Action)
    ensures action.Abort? <==> |attempt.previous| > MaxPreviousRequests
    ensures action.Abort? ==> action.message == TooManyRedirectsMessage
  {
    if |attempt.previous| > MaxPreviousRequests then Abort(TooManyRedirectsMessage) else Follow
  }

  /** The stub a permanent redirect leaves: no validators, no body, and the
      address the feed moved to. */
  function Stub(feedId: nat, attempt: Attempt): Artifact {
    Artifact(feedId, attempt.status, 0, "", attempt.url, "")
  }

  /** One call of the policy closure. */
  method Intercept(store: ArtifactStore, feedId: nat, attempt: Attempt, now: nat) returns (action: Action)
    modifies store
    ensures action == Decide(attempt)
    ensures action.Follow? && IsPermanentRedirect(attempt.status)
            ==> store.files == Stored(old(store.files), Stub(feedId, attempt), now)
    ensures !(action.Follow? && IsPermanentRedirect(attempt.status)) ==> store.files == old(store.files)
  {
    var statusCode := attempt.status;
    if |attempt.previous| > MaxPreviousRequests {
      return Abort(TooManyRedirectsMessage);
    }
    if statusCode == 301 || statusCode == 308 {
      store.WriteFeedFile(feedId, statusCode, 0, "", attempt.url, "", now);
    }
    return Follow;
  }

  /** A stub is filed in the redirects directory under the redirect's own
      status, and reads back as a zero time, an empty etag and the new URL. */
  lemma StubFiledAsRedirect(feedId: nat, attempt: Attempt, now: nat)
    requires IsPermanentRedirect(attempt.status) && '\n' !in attempt.url
    ensures KeyOf(Stub(feedId, attempt))
         == RedirectsDirectory + "/" + Decimal(feedId) + "_" + Decimal(attempt.status) + ".txt"
    ensures ParseFileContent(ContentOf(Stub(feedId, attempt), now)) == Some(FileRecord(0, "", attempt.url, now, ""))
  {
    var stub := Stub(feedId, attempt);
    assert FiledCode(stub.statusCode, stub.body) == attempt.status;
    FileContentRoundTrip(0, "", attempt.url, now, attempt.status, "");
  }
}
