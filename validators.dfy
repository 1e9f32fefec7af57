/** The validator side of a conditional GET: the request headers built from a
    feed's stored last-modified time and entity tag (If-Modified-Since, section
    3.3 of RFC 7232, as an IMF-fixdate of section 7.1.1.1 of RFC 7231;
    If-None-Match, section 3.2 of RFC 7232), and the scan of the response
    headers that picks up the new validators. */
module Validators {
  import opened Wrappers
  import opened Text

  const UserAgentPrefix: string := "Aggrivator (PodcastIndex.org)/v"

  /** Recorded as the etag when the response offers none. */
  const NoEtag: string := "[[NO_ETAG]]"

  /** What the model takes from outside: the crate version baked into the
      user agent, and the `httpdate` crate's formatter and parser. The parser
      gives seconds relative to the Unix epoch, negative before it. */
  datatype Externals = Externals(
    crateVersion: string,
    formatHttpDate: nat -> string,
    parseHttpDate: string -> Option<int>)

  function UserAgent(ext: Externals): string {
    UserAgentPrefix + ext.crateVersion
  }

  // ---------------------------------------------------------------------------
  // Request side

  /** What the header construction unwraps: both validator values must be
      acceptable header values, or the program panics. */
  predicate CanBuildRequest(lastModified: nat, etag: string, ext: Externals) {
    && (lastModified > 0 ==> ValidHeaderValue(ext.formatHttpDate(lastModified)))
    && ValidHeaderValue(etag)
  }

  /** The headers every request of a fetch carries. */
  function RequestHeaders(lastModified: nat, etag: string, ext: Externals): (headers: map<string, string>)
    ensures headers.Keys <= {"User-Agent", "If-Modified-Since", "If-None-Match"}
    ensures "User-Agent" in headers && headers["User-Agent"] == UserAgent(ext)
    ensures "If-Modified-Since" in headers <==> lastModified > 0
    ensures "If-Modified-Since" in headers ==> headers["If-Modified-Since"] == ext.formatHttpDate(lastModified)
    ensures "If-None-Match" in headers <==> etag != []
    ensures "If-None-Match" in headers ==> headers["If-None-Match"] == etag
  {
    map["User-Agent" := UserAgent(ext)]
      + (if lastModified > 0 then map["If-Modified-Since" := ext.formatHttpDate(lastModified)] else map[])
      + (if etag != [] then map["If-None-Match" := etag] else map[])
  }

  /** Fills the header map one insert at a time. */
  method BuildRequestHeaders(lastModified: nat, etag: string, ext: Externals) returns (headers: map<string, string>)
    requires CanBuildRequest(lastModified, etag, ext)
    ensures headers == RequestHeaders(lastModified, etag, ext)
    ensures forall name | name in headers && name != "User-Agent" :: ValidHeaderValue(headers[name])
  {
    headers := map[];
    headers := headers["User-Agent" := UserAgent(ext)];
    if lastModified > 0 {
      var ifModifiedSince := ext.formatHttpDate(lastModified);
      headers := headers["If-Modified-Since" := ifModifiedSince];
    }
    if etag != [] {
      headers := headers["If-None-Match" := etag];
    }
  }

  // ---------------------------------------------------------------------------
  // Response side

  /** A response header as the client delivers it: a lower-case name and raw bytes. */
  datatype Header = Header(name: string, value: seq<byte>)

  /** The last-modified time a header offers: a non-empty, readable
      `last-modified` value that parses to a date not before the epoch. */
  function ModifiedOffered(h: Header, parse: string -> Option<int>): Option<nat> {
    if h.name == "last-modified" && h.value != [] then
      match HeaderText(h.value)
      case None => None
      case Some(text) =>
        (match parse(text)
         case Some(secs) => if secs >= 0 then Some(secs as nat) else None
         case None => None)
    else None
  }

  /** The entity tag a header offers: a non-empty, readable `etag` value. */
  function EtagOffered(h: Header): Option<string> {
    if h.name == "etag" && h.value != [] then HeaderText(h.value) else None
  }

  predicate NoModifiedOfferedAfter(headers: seq<Header>, k: int, parse: string -> Option<int>) {
    forall j :: 0 <= j && k < j < |headers| ==> ModifiedOffered(headers[j], parse).None?
  }

  predicate NoEtagOfferedAfter(headers: seq<Header>, k: int) {
    forall j :: 0 <= j && k < j < |headers| ==> EtagOffered(headers[j]).None?
  }

  /** An offer in the last header is an offer after every earlier position. */
  lemma LastModifiedOfferBlocks(headers: seq<Header>, parse: string -> Option<int>)
    requires |headers| > 0 && ModifiedOffered(headers[|headers| - 1], parse).Some?
    ensures forall k :: -1 <= k < |headers| - 1 ==> !NoModifiedOfferedAfter(headers, k, parse)
  {
  }

  /** No offer after `k` in the headers means none after `k` without the last one. */
  lemma NoModifiedOfferedAfterInit(headers: seq<Header>, parse: string -> Option<int>)
    requires |headers| > 0
    ensures forall k :: -1 <= k < |headers| - 1 && NoModifiedOfferedAfter(headers, k, parse)
                        ==> NoModifiedOfferedAfter(headers[..|headers| - 1], k, parse)
  {
  }

  lemma LastEtagOfferBlocks(headers: seq<Header>)
    requires |headers| > 0 && EtagOffered(headers[|headers| - 1]).Some?
    ensures forall k :: -1 <= k < |headers| - 1 ==> !NoEtagOfferedAfter(headers, k)
  {
  }

  lemma NoEtagOfferedAfterInit(headers: seq<Header>)
    requires |headers| > 0
    ensures forall k :: -1 <= k < |headers| - 1 && NoEtagOfferedAfter(headers, k)
                        ==> NoEtagOfferedAfter(headers[..|headers| - 1], k)
  {
  }

  /** The last-modified time after scanning `headers`: the last offer wins,
      and with no offer at all the fallback stays. */
  function ModifiedAfter(headers: seq<Header>, fallback: nat, parse: string -> Option<int>): (r: nat)
    ensures NoModifiedOfferedAfter(headers, -1, parse) ==> r == fallback
    ensures forall k :: 0 <= k < |headers| && ModifiedOffered(headers[k], parse).Some? && NoModifiedOfferedAfter(headers, k, parse)
                        ==> r == ModifiedOffered(headers[k], parse).value
    decreases |headers|
  {
    if headers == [] then fallback
    else
      var n := |headers|;
      match ModifiedOffered(headers[n - 1], parse)
      case Some(t) =>
        LastModifiedOfferBlocks(headers, parse);
        t
      case None =>
        assert forall j :: 0 <= j < n - 1 ==> headers[..n - 1][j] == headers[j];
        NoModifiedOfferedAfterInit(headers, parse);
        ModifiedAfter(headers[..n - 1], fallback, parse)
  }

  /** The entity tag after scanning `headers`: the last offer wins, and with
      no offer at all the fallback stays. */
  function EtagAfter(headers: seq<Header>, fallback: string): (r: string)
    ensures NoEtagOfferedAfter(headers, -1) ==> r == fallback
    ensures forall k :: 0 <= k < |headers| && EtagOffered(headers[k]).Some? && NoEtagOfferedAfter(headers, k)
                        ==> r == EtagOffered(headers[k]).value
    decreases |headers|
  {
    if headers == [] then fallback
    else
      var n := |headers|;
      match EtagOffered(headers[n - 1])
      case Some(t) =>
        LastEtagOfferBlocks(headers);
        t
      case None =>
        assert forall j :: 0 <= j < n - 1 ==> headers[..n - 1][j] == headers[j];
        NoEtagOfferedAfterInit(headers);
        EtagAfter(headers[..n - 1], fallback)
  }

  /** The response-header loop: starts from the stored time and the no-etag
      sentinel and lets every usable header overwrite them. */
  method ScanValidators(headers: seq<Header>, lastModified: nat, parse: string -> Option<int>)
    returns (rModified: nat, rEtag: string)
    ensures rModified == ModifiedAfter(headers, lastModified, parse)
    ensures rEtag == EtagAfter(headers, NoEtag)
  {
    rEtag := NoEtag;
    rModified := lastModified;
    for i := 0 to |headers|
      invariant rModified == ModifiedAfter(headers[..i], lastModified, parse)
      invariant rEtag == EtagAfter(headers[..i], NoEtag)
    {
      var h := headers[i];
      assert headers[..i + 1][..i] == headers[..i] && headers[..i + 1][i] == h;
      if h.name == "last-modified" && h.value != [] {
        var text := HeaderText(h.value);
        if text.Some? {
          var timestamp := parse(text.value);
          if timestamp.Some? && timestamp.value >= 0 {
            rModified := timestamp.value;
          }
        }
      }
      if h.name == "etag" && h.value != [] {
        var text := HeaderText(h.value);
        if text.Some? {
          rEtag := text.value;
        }
      }
    }
    assert headers[..|headers|] == headers;
  }

  /** The request's validators come back unchanged from a server that echoes
      them as `last-modified` and `etag`, provided the date formatter and
      parser agree on the timestamp and both values are visible ASCII. */
  lemma EchoedValidatorsRoundTrip(lastModified: nat, etag: string, ext: Externals, fallback: nat)
    requires lastModified > 0 && etag != []
    requires ext.formatHttpDate(lastModified) != [] && IsVisibleText(ext.formatHttpDate(lastModified))
    requires ext.parseHttpDate(ext.formatHttpDate(lastModified)) == Some(lastModified as int)
    requires IsVisibleText(etag)
    ensures var sent := RequestHeaders(lastModified, etag, ext);
            var echoed := [Header("last-modified", AsciiBytes(sent["If-Modified-Since"])),
                           Header("etag", AsciiBytes(sent["If-None-Match"]))];
            ModifiedAfter(echoed, fallback, ext.parseHttpDate) == lastModified
            && EtagAfter(echoed, NoEtag) == etag
  {
    var date := ext.formatHttpDate(lastModified);
    AsciiBytesRoundTrip(date);
    AsciiBytesRoundTrip(etag);
    var echoed := [Header("last-modified", AsciiBytes(date)), Header("etag", AsciiBytes(etag))];
    assert ModifiedOffered(echoed[0], ext.parseHttpDate) == Some(lastModified);
    assert ModifiedOffered(echoed[1], ext.parseHttpDate) == None;
    assert EtagOffered(echoed[0]) == None;
    assert EtagOffered(echoed[1]) == Some(etag);
  }
}
