/** The artifact writer (`write_feed_file`): every fetch outcome, real or
    synthetic, becomes one text file named after the feed id and the status
    code, holding four metadata lines and, unless the body was too large, the
    body. The file system is a map from file names to contents. */
module Artifacts {
  import opened Wrappers
  import opened Text

  /** Largest body, in UTF-8 bytes, that is stored with its artifact. */
  const MaxBodyLength: nat := 40971520

  /** Synthetic status codes, outside the range of real HTTP statuses. */
  const ConnectionFailureCode: nat := 666
  const DownloadFailureCode: nat := 667
  const FileSizeExceededCode: nat := 668

  const FeedsDirectory: string := "feeds"
  const RedirectsDirectory: string := "redirects"

  /** The arguments of one call of the writer: what a fetch hands over. */
  datatype Artifact = Artifact(feedId: nat, statusCode: nat, modified: nat, etag: string, url: string, body: string)

  predicate IsPermanentRedirect(code: nat) {
    code == 301 || code == 308
  }

  /** The code an artifact is filed under: its own, unless the body is too large. */
  function FiledCode(statusCode: nat, body: string): (code: nat)
    ensures code == FileSizeExceededCode || code == statusCode
    ensures Utf8Length(body) <= MaxBodyLength ==> code == statusCode
    ensures Utf8Length(body) > MaxBodyLength ==> code == FileSizeExceededCode
  {
    if Utf8Length(body) > MaxBodyLength then FileSizeExceededCode else statusCode
  }

  /** Permanent redirects go to their own directory, everything else to the feeds one. */
  function Directory(code: nat): (dir: string)
    ensures dir == RedirectsDirectory <==> IsPermanentRedirect(code)
    ensures dir == FeedsDirectory <==> !IsPermanentRedirect(code)
  {
    if IsPermanentRedirect(code) then RedirectsDirectory else FeedsDirectory
  }

  function FileName(feedId: nat, code: nat): string {
    Directory(code) + "/" + Decimal(feedId) + "_" + Decimal(code) + ".txt"
  }

  function FileContent(modified: nat, etag: string, url: string, now: nat, code: nat, body: string): string {
    Decimal(modified) + "\n" + etag + "\n" + url + "\n" + Decimal(now) + "\n"
      + (if code != FileSizeExceededCode then body else "")
  }

  function KeyOf(a: Artifact): string {
    FileName(a.feedId, FiledCode(a.statusCode, a.body))
  }

  function ContentOf(a: Artifact, now: nat): string {
    FileContent(a.modified, a.etag, a.url, now, FiledCode(a.statusCode, a.body), a.body)
  }

  /** The files after writing one artifact at time `now`. */
  function Stored(files: map<string, string>, a: Artifact, now: nat): map<string, string> {
    files[KeyOf(a) := ContentOf(a, now)]
  }

  /** The files after writing a sequence of artifacts, in order. */
  function StoredAll(files: map<string, string>, writes: seq<Artifact>, now: nat): map<string, string>
    decreases |writes|
  {
    if writes == [] then files
    else Stored(StoredAll(files, writes[..|writes| - 1], now), writes[|writes| - 1], now)
  }

  /** The writes of several writers, one writer after the other. */
  function Concat(parts: seq<seq<Artifact>>): seq<Artifact>
    decreases |parts|
  {
    if parts == [] then [] else Concat(parts[..|parts| - 1]) + parts[|parts| - 1]
  }

  // ---------------------------------------------------------------------------
  // The reading side: how a consumer of the artifacts recovers what was written

  datatype FileRecord = FileRecord(modified: nat, etag: string, url: string, fetchedAt: nat, body: string)

  /** Splits a file name into directory, feed id and code. */
  function ParseFileName(name: string): Option<(string, nat, nat)> {
    match SplitAt(name, '/')
    case None => None
    case Some(dirRest) =>
      match SplitAt(dirRest.1, '_')
      case None => None
      case Some(idRest) =>
        var tail := idRest.1;
        if |tail| < 4 || tail[|tail| - 4..] != ".txt" then None
        else
          match (ParseDecimal(idRest.0), ParseDecimal(tail[..|tail| - 4]))
          case (Some(id), Some(code)) => Some((dirRest.0, id, code))
          case _ => None
  }

  /** Reads the four metadata lines and the body that follows them. */
  function ParseFileContent(content: string): Option<FileRecord> {
    match SplitAt(content, '\n')
    case None => None
    case Some(l1) =>
      match SplitAt(l1.1, '\n')
      case None => None
      case Some(l2) =>
        match SplitAt(l2.1, '\n')
        case None => None
        case Some(l3) =>
          match SplitAt(l3.1, '\n')
          case None => None
          case Some(l4) =>
            match (ParseDecimal(l1.0), ParseDecimal(l4.0))
            case (Some(modified), Some(fetchedAt)) => Some(FileRecord(modified, l2.0, l3.0, fetchedAt, l4.1))
            case _ => None
  }

  lemma DigitsHaveNo(s: string, c: char)
    requires AllDigits(s) && !IsDigit(c)
    ensures c !in s
  {
  }

  /** A name built from a directory without `/` and an id without `_` splits
      back into its parts. */
  lemma ParseFileNameParts(dir: string, id: string, c: string)
    requires '/' !in dir && '_' !in id
    ensures ParseFileName(dir + "/" + id + "_" + c + ".txt")
         == match (ParseDecimal(id), ParseDecimal(c))
            case (Some(feedId), Some(code)) => Some((dir, feedId, code))
            case _ => None
  {
    var tail := c + ".txt";
    var rest := id + ['_'] + tail;
    assert dir + "/" + id + "_" + c + ".txt" == dir + ['/'] + rest;
    SplitAtFirst(dir, '/', rest);
    SplitAtFirst(id, '_', tail);
    assert tail[..|tail| - 4] == c && tail[|tail| - 4..] == ".txt";
  }

  /** The file name gives back the directory, the feed id and the code. */
  lemma FileNameRoundTrip(feedId: nat, code: nat)
    ensures ParseFileName(FileName(feedId, code)) == Some((Directory(code), feedId, code))
  {
    assert '/' !in Directory(code);
    DigitsHaveNo(Decimal(feedId), '_');
    ParseFileNameParts(Directory(code), Decimal(feedId), Decimal(code));
    DecimalRoundTrip(feedId);
    DecimalRoundTrip(code);
  }

  /** Distinct (feed id, code) pairs never share a file. */
  lemma FileNameInjective(feedId1: nat, code1: nat, feedId2: nat, code2: nat)
    requires FileName(feedId1, code1) == FileName(feedId2, code2)
    ensures feedId1 == feedId2 && code1 == code2
  {
    FileNameRoundTrip(feedId1, code1);
    FileNameRoundTrip(feedId2, code2);
  }

  /** Artifacts of different feeds are never filed under the same name. */
  lemma DifferentFeedsDifferentFiles(a: Artifact, b: Artifact)
    requires a.feedId != b.feedId
    ensures KeyOf(a) != KeyOf(b)
  {
    if KeyOf(a) == KeyOf(b) {
      FileNameInjective(a.feedId, FiledCode(a.statusCode, a.body), b.feedId, FiledCode(b.statusCode, b.body));
    }
  }

  /** A file whose etag and url hold no line break reads back as written;
      the body is absent exactly when the artifact was filed as oversized. */
  lemma FileContentRoundTrip(modified: nat, etag: string, url: string, now: nat, code: nat, body: string)
    requires '\n' !in etag && '\n' !in url
    ensures ParseFileContent(FileContent(modified, etag, url, now, code, body))
         == Some(FileRecord(modified, etag, url, now, if code == FileSizeExceededCode then "" else body))
  {
    var m, t := Decimal(modified), Decimal(now);
    var b := if code != FileSizeExceededCode then body else "";
    var r4 := t + "\n" + b;
    var r3 := url + "\n" + r4;
    var r2 := etag + "\n" + r3;
    assert FileContent(modified, etag, url, now, code, body) == m + ['\n'] + r2;
    DigitsHaveNo(m, '\n');
    DigitsHaveNo(t, '\n');
    SplitAtFirst(m, '\n', r2);
    assert r2 == etag + ['\n'] + r3;
    SplitAtFirst(etag, '\n', r3);
    assert r3 == url + ['\n'] + r4;
    SplitAtFirst(url, '\n', r4);
    assert r4 == t + ['\n'] + b;
    SplitAtFirst(t, '\n', b);
    DecimalRoundTrip(modified);
    DecimalRoundTrip(now);
  }

  // ---------------------------------------------------------------------------
  // Writing sequences of artifacts

  lemma {:induction false} StoredAllAppend(files: map<string, string>, first: seq<Artifact>, second: seq<Artifact>, now: nat)
    ensures StoredAll(files, first + second, now) == StoredAll(StoredAll(files, first, now), second, now)
    decreases |second|
  {
    if second == [] {
      assert first + second == first;
    } else {
      var n := |second|;
      assert (first + second)[..|first + second| - 1] == first + second[..n - 1];
      assert (first + second)[|first + second| - 1] == second[n - 1];
      StoredAllAppend(files, first, second[..n - 1], now);
    }
  }

  lemma StoredAllSnoc(files: map<string, string>, writes: seq<Artifact>, a: Artifact, now: nat)
    ensures StoredAll(files, writes + [a], now) == Stored(StoredAll(files, writes, now), a, now)
  {
    assert (writes + [a])[..|writes|] == writes;
  }

  /** Writes that never touch `name` leave that file as it was. */
  lemma {:induction false} StoredAllElsewhere(files: map<string, string>, writes: seq<Artifact>, now: nat, name: string)
    requires forall i :: 0 <= i < |writes| ==> KeyOf(writes[i]) != name
    ensures name in StoredAll(files, writes, now) <==> name in files
    ensures name in files ==> StoredAll(files, writes, now)[name] == files[name]
    decreases |writes|
  {
    if writes != [] {
      var n := |writes|;
      var init, last := writes[..n - 1], writes[n - 1];
      assert forall i :: 0 <= i < n - 1 ==> init[i] == writes[i];
      StoredAllElsewhere(files, init, now, name);
      var before := StoredAll(files, init, now);
      assert StoredAll(files, writes, now) == before[KeyOf(last) := ContentOf(last, now)];
    }
  }

  /** The last of a sequence of writes is in place once they are done. */
  lemma StoredAllLast(files: map<string, string>, writes: seq<Artifact>, now: nat)
    requires writes != []
    ensures var a := writes[|writes| - 1];
            var after := StoredAll(files, writes, now);
            KeyOf(a) in after && after[KeyOf(a)] == ContentOf(a, now)
  {
  }

  /** The last artifact of writer `j` is still in place after all writers
      ran, when no later writer writes to its file. */
  lemma {:induction false} LastOfPartSurvives(files: map<string, string>, parts: seq<seq<Artifact>>, j: nat, now: nat)
    requires j < |parts| && parts[j] != []
    requires forall i, b :: j < i < |parts| && b in parts[i] ==> KeyOf(b) != KeyOf(parts[j][|parts[j]| - 1])
    ensures var a := parts[j][|parts[j]| - 1];
            var after := StoredAll(files, Concat(parts), now);
            KeyOf(a) in after && after[KeyOf(a)] == ContentOf(a, now)
    decreases |parts|
  {
    var n := |parts|;
    var init := parts[..n - 1];
    var a := parts[j][|parts[j]| - 1];
    assert Concat(parts) == Concat(init) + parts[n - 1];
    StoredAllAppend(files, Concat(init), parts[n - 1], now);
    var middle := StoredAll(files, Concat(init), now);
    if j == n - 1 {
      StoredAllLast(middle, parts[n - 1], now);
    } else {
      assert init[j] == parts[j];
      forall i, b | j < i < |init| && b in init[i]
        ensures KeyOf(b) != KeyOf(a)
      {
        assert init[i] == parts[i];
      }
      LastOfPartSurvives(files, init, j, now);
      var latest := parts[n - 1];
      forall i | 0 <= i < |latest|
        ensures KeyOf(latest[i]) != KeyOf(a)
      {
        assert latest[i] in parts[n - 1];
      }
      StoredAllElsewhere(middle, latest, now, KeyOf(a));
    }
  }

  /** No write of `writes` targets the file `name`. */
  predicate Untouched(writes: seq<Artifact>, name: string) {
    forall k :: 0 <= k < |writes| ==> KeyOf(writes[k]) != name
  }

  /** Writers none of which targets `name` leave that file as it was. */
  lemma {:induction false} NoWriterTouches(files: map<string, string>, parts: seq<seq<Artifact>>, now: nat, name: string)
    requires forall i :: 0 <= i < |parts| ==> Untouched(parts[i], name)
    ensures var after := StoredAll(files, Concat(parts), now);
            && (name in after <==> name in files)
            && (name in files ==> after[name] == files[name])
    decreases |parts|
  {
    if parts != [] {
      var n := |parts|;
      var init := parts[..n - 1];
      var latest := parts[n - 1];
      assert Concat(parts) == Concat(init) + latest;
      assert forall i :: 0 <= i < n - 1 ==> init[i] == parts[i];
      NoWriterTouches(files, init, now, name);
      StoredAllAppend(files, Concat(init), latest, now);
      StoredAllElsewhere(StoredAll(files, Concat(init), now), latest, now, name);
    }
  }

  /** When only the last writer targets `name`, that file ends up as the last
      writer alone leaves it. */
  lemma LastWriterDecides(files: map<string, string>, parts: seq<seq<Artifact>>, now: nat, name: string)
    requires parts != []
    requires forall i :: 0 <= i < |parts| - 1 ==> Untouched(parts[i], name)
    ensures var after := StoredAll(files, Concat(parts), now);
            var alone := StoredAll(files, parts[|parts| - 1], now);
            && (name in after <==> name in alone)
            && (name in after ==> after[name] == alone[name])
  {
    var n := |parts|;
    var init := parts[..n - 1];
    var latest := parts[n - 1];
    assert Concat(parts) == Concat(init) + latest;
    assert forall i :: 0 <= i < n - 1 ==> init[i] == parts[i];
    NoWriterTouches(files, init, now, name);
    var middle := StoredAll(files, Concat(init), now);
    StoredAllAppend(files, Concat(init), latest, now);
    StoredAllOverrides(middle, latest, now);
    StoredAllOverrides(files, latest, now);
  }

  /** A file that only writer `j` targets ends up as writer `j`'s writes
      alone, applied to the initial files, leave it: where writer `j` stands
      among the others makes no difference to it. */
  lemma {:induction false} OnlyWriterDecides(files: map<string, string>, parts: seq<seq<Artifact>>, j: nat, now: nat, name: string)
    requires j < |parts|
    requires forall i :: 0 <= i < |parts| && i != j ==> Untouched(parts[i], name)
    ensures var after := StoredAll(files, Concat(parts), now);
            var alone := StoredAll(files, parts[j], now);
            && (name in after <==> name in alone)
            && (name in after ==> after[name] == alone[name])
    decreases |parts|
  {
    var n := |parts|;
    if j == n - 1 {
      LastWriterDecides(files, parts, now, name);
    } else {
      var init := parts[..n - 1];
      var latest := parts[n - 1];
      assert Concat(parts) == Concat(init) + latest;
      assert forall i :: 0 <= i < n - 1 ==> init[i] == parts[i];
      OnlyWriterDecides(files, init, j, now, name);
      StoredAllAppend(files, Concat(init), latest, now);
      StoredAllElsewhere(StoredAll(files, Concat(init), now), latest, now, name);
    }
  }

  /** Writing replaces, never merges: the result is the old files overridden
      by what the writes alone produce, whatever the old files held. */
  lemma {:induction false} StoredAllOverrides(files: map<string, string>, writes: seq<Artifact>, now: nat)
    ensures StoredAll(files, writes, now) == files + StoredAll(map[], writes, now)
    decreases |writes|
  {
    if writes == [] {
      assert files + map[] == files;
    } else {
      var n := |writes|;
      StoredAllOverrides(files, writes[..n - 1], now);
    }
  }

  /** Which files a sequence of writes touches does not depend on the time of
      writing. */
  lemma {:induction false} StoredAllKeysTimeless(files: map<string, string>, writes: seq<Artifact>, t1: nat, t2: nat)
    ensures StoredAll(files, writes, t1).Keys == StoredAll(files, writes, t2).Keys
    decreases |writes|
  {
    if writes != [] {
      StoredAllKeysTimeless(files, writes[..|writes| - 1], t1, t2);
    }
  }

  /** Writing the same artifacts again, at the same or a later time, leaves
      exactly what writing them once at that later time leaves: every file is
      replaced, none appended to, and nothing of the first round remains. At
      one and the same time this is idempotence. */
  lemma StoredAllRewrite(files: map<string, string>, writes: seq<Artifact>, earlier: nat, later: nat)
    ensures StoredAll(StoredAll(files, writes, earlier), writes, later) == StoredAll(files, writes, later)
  {
    var once := StoredAll(files, writes, earlier);
    var first := StoredAll(map[], writes, earlier);
    var second := StoredAll(map[], writes, later);
    StoredAllOverrides(files, writes, earlier);
    StoredAllOverrides(once, writes, later);
    StoredAllOverrides(files, writes, later);
    StoredAllKeysTimeless(map[], writes, earlier, later);
    assert (files + first) + second == files + second;
  }

  /** The store of artifact files, keyed by file name. */
  class ArtifactStore {
    var files: map<string, string>

    constructor (initial: map<string, string>)
      ensures files == initial
    {
      files := initial;
    }

    /** `write_feed_file`: files the body under its code, re-tagged as oversized
        when it exceeds the cap, in the redirects directory for a permanent
        redirect, replacing whatever that file held. */
    method WriteFeedFile(feedId: nat, statusCode: nat, rModified: nat, rEtag: string, rUrl: string, body: string, now: nat)
      modifies this
      ensures files == Stored(old(files), Artifact(feedId, statusCode, rModified, rEtag, rUrl, body), now)
      ensures var code := FiledCode(statusCode, body);
        && (code == FileSizeExceededCode <==> Utf8Length(body) > MaxBodyLength || statusCode == FileSizeExceededCode)
        && files.Keys == old(files).Keys + {FileName(feedId, code)}
        && (forall name :: name in old(files) && name != FileName(feedId, code) ==> files[name] == old(files)[name])
    {
      var statusCodePrefix := statusCode;
      if Utf8Length(body) > MaxBodyLength {
        statusCodePrefix := FileSizeExceededCode;
      }
      var directory := FeedsDirectory;
      if statusCodePrefix == 301 || statusCodePrefix == 308 {
        directory := RedirectsDirectory;
      }
      var fileName := directory + "/" + Decimal(feedId) + "_" + Decimal(statusCodePrefix) + ".txt";
      var content := Decimal(rModified) + "\n";
      content := content + rEtag + "\n";
      content := content + rUrl + "\n";
      content := content + Decimal(now) + "\n";
      if statusCodePrefix != FileSizeExceededCode {
        content := content + body;
      }
      assert statusCodePrefix == FiledCode(statusCode, body) && directory == Directory(statusCodePrefix);
      assert content == FileContent(rModified, rEtag, rUrl, now, statusCodePrefix, body);
      files := files[fileName := content];
    }
  }
}
