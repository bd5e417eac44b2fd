/** The release list as the upstream releases API returns it, and the pure decisions
    `GitHubReleases` makes over it (helpers/git_releases.py). */
module Releases {

  import opened Wrappers
  import opened Text

  /** An asset object: its `name` and `browser_download_url`, `None` when absent or null. */
  datatype Asset = Asset(name: Option<string>, url: Option<string>)

  /** A release object: its `tag_name` (`None` when absent or null) and its `assets`. */
  datatype Release = Release(tag: Option<string>, assets: seq<Asset>)

  /** An object of the changelog document: its `version` (`None` when absent) and its `changes`. */
  datatype ChangelogEntry = ChangelogEntry(version: Option<string>, changes: seq<string>)

  /** Why an upstream request did not produce a usable answer (connection error, timeout,
      an error status under `raise_for_status`, a body that is not JSON). */
  datatype RequestError = RequestError(reason: string)

  // ---------------------------------------------------------------------------------------------
  // Searching a list for the first element with a property.

  /** The index of the first element satisfying `p`, or `|s|` when there is none. */
  function FirstIndex<T>(s: seq<T>, p: T -> bool): (i: nat)
    ensures i <= |s|
    ensures i < |s| ==> p(s[i])
    ensures forall k :: 0 <= k < i ==> !p(s[k])
  {
    if s == [] then 0
    else if p(s[0]) then 0
    else 1 + FirstIndex(s[1..], p)
  }

  // ---------------------------------------------------------------------------------------------
  // Tag extraction: the tag of every release whose tag is present and non-empty, in upstream order.

  /** A release whose tag is present and non-empty (truthy in Python). */
  predicate Tagged(r: Release) {
    r.tag.Some? && r.tag.value != ""
  }

  /** The tag list `get_releases` answers: never longer than the release list, no empty tag. */
  function Tags(releases: seq<Release>): (tags: seq<string>)
    ensures |tags| <= |releases|
    ensures forall k :: 0 <= k < |tags| ==> tags[k] != ""
  {
    if releases == [] then []
    else (if Tagged(releases[0]) then [releases[0].tag.value] else []) + Tags(releases[1..])
  }

  /** Extraction distributes over concatenation: the upstream order is kept exactly. */
  lemma {:induction false} TagsAppend(a: seq<Release>, b: seq<Release>)
    ensures Tags(a + b) == Tags(a) + Tags(b)
  {
    if a == [] {
      assert a + b == b;
    } else {
      assert (a + b)[0] == a[0];
      assert (a + b)[1..] == a[1..] + b;
      TagsAppend(a[1..], b);
    }
  }

  /** A tagged release contributes its tag at its own place; an untagged one contributes nothing. */
  lemma {:induction false} TagsAt(releases: seq<Release>, i: nat)
    requires i < |releases|
    ensures Tags(releases) ==
      Tags(releases[..i]) + (if Tagged(releases[i]) then [releases[i].tag.value] else []) + Tags(releases[i + 1..])
  {
    var x, y, z := releases[..i], [releases[i]], releases[i + 1..];
    assert releases == (x + y) + z;
    TagsAppend(x + y, z);
    TagsAppend(x, y);
    assert y[1..] == [];
    assert Tags(y) == (if Tagged(releases[i]) then [releases[i].tag.value] else []) + Tags([]);
  }

  /** Exactly the present, non-empty tags appear in the list. */
  lemma {:induction false} TagsMembership(releases: seq<Release>, t: string)
    ensures t in Tags(releases) <==> t != "" && exists i :: 0 <= i < |releases| && releases[i].tag == Some(t)
  {
    if releases != [] {
      TagsMembership(releases[1..], t);
      if t != "" && releases[0].tag != Some(t) {
        if exists i :: 0 <= i < |releases| && releases[i].tag == Some(t) {
          var i :| 0 <= i < |releases| && releases[i].tag == Some(t);
          assert releases[1..][i - 1] == releases[i];
        }
      }
      if t in Tags(releases[1..]) {
        var i :| 0 <= i < |releases[1..]| && releases[1..][i].tag == Some(t);
        assert releases[i + 1] == releases[1..][i];
      }
    }
  }

  // ---------------------------------------------------------------------------------------------
  // `get_latest_version` and `get_next_version` over the extracted tags.

  /** The first (newest) tag, or `None` for an empty list. */
  function Latest(tags: seq<string>): (r: Option<string>)
    ensures r.None? <==> tags == []
    ensures r.Some? ==> r.value in tags && r.value == tags[0]
  {
    if tags == [] then None else Some(tags[0])
  }

  /** The latest version is the tag of the first tagged release upstream, or `None` if no
      release is tagged. */
  lemma {:induction false} LatestIsFirstTagged(releases: seq<Release>)
    ensures var i := FirstIndex(releases, Tagged);
      Latest(Tags(releases)) == if i == |releases| then None else Some(releases[i].tag.value)
  {
    if releases != [] && !Tagged(releases[0]) {
      LatestIsFirstTagged(releases[1..]);
      assert FirstIndex(releases, Tagged) == 1 + FirstIndex(releases[1..], Tagged);
    }
  }

  /** `get_next_version`: the tag just before the first occurrence of `current`, or `None` when
      `current` is absent or first. */
  function NextVersion(tags: seq<string>, current: string): (r: Option<string>)
    ensures r.Some? ==> current in tags && r.value in tags && tags[0] != current
  {
    if current !in tags then None
    else
      var i := FirstIndex(tags, t => t == current);
      if i > 0 then Some(tags[i - 1]) else None
  }

  /** The successor is found exactly at a first occurrence past the head of the list. */
  lemma NextVersionSome(tags: seq<string>, current: string, next: string)
    ensures NextVersion(tags, current) == Some(next) <==>
      exists i :: 0 < i < |tags| && tags[i] == current && current !in tags[..i] && next == tags[i - 1]
  {
    if NextVersion(tags, current) == Some(next) {
      var i := FirstIndex(tags, t => t == current);
      NotBeforeFirst(tags, current, i);
    }
    if exists j :: 0 < j < |tags| && tags[j] == current && current !in tags[..j] && next == tags[j - 1] {
      var j :| 0 < j < |tags| && tags[j] == current && current !in tags[..j] && next == tags[j - 1];
      FirstOccurrence(tags, current, j);
    }
  }

  lemma NotBeforeFirst(tags: seq<string>, current: string, i: nat)
    requires i == FirstIndex(tags, t => t == current)
    ensures current !in tags[..i]
  {
    forall k | 0 <= k < i ensures tags[..i][k] != current {
      assert (t => t == current)(tags[k]) == false;
    }
  }

  /** The first index of `current` is the position before which it does not occur. */
  lemma FirstOccurrence(tags: seq<string>, current: string, j: nat)
    requires j < |tags| && tags[j] == current && current !in tags[..j]
    ensures FirstIndex(tags, t => t == current) == j
  {
    var i := FirstIndex(tags, t => t == current);
    assert forall k :: 0 <= k < j ==> tags[..j][k] == tags[k];
    assert (t => t == current)(tags[j]);
  }

  /** No successor exactly when `current` is absent or is the latest tag. */
  lemma NextVersionNone(tags: seq<string>, current: string)
    ensures NextVersion(tags, current) == None <==> current !in tags || tags[0] == current
  {
    if current in tags && tags[0] == current {
      assert FirstIndex(tags, t => t == current) == 0;
    }
  }

  /** The documented example: with tags `v1.0.2, v1.0.1, v1.0.0` (newest first) the successor
      of `v1.0.0` is `v1.0.1`, and neither `v1.0.2` nor an unknown version has one. */
  lemma NextVersionExample()
    ensures NextVersion(["v1.0.2", "v1.0.1", "v1.0.0"], "v1.0.0") == Some("v1.0.1")
    ensures NextVersion(["v1.0.2", "v1.0.1", "v1.0.0"], "v1.0.2") == None
    ensures NextVersion(["v1.0.2", "v1.0.1", "v1.0.0"], "v9.9.9") == None
  {
    var tags := ["v1.0.2", "v1.0.1", "v1.0.0"];
    assert tags[0] != "v1.0.0" && tags[1] != "v1.0.0" && tags[2] == "v1.0.0";
    assert tags[..2] == ["v1.0.2", "v1.0.1"];
    NextVersionSome(tags, "v1.0.0", "v1.0.1");
    NextVersionNone(tags, "v1.0.2");
    assert tags[0] != "v9.9.9" && tags[1] != "v9.9.9" && tags[2] != "v9.9.9";
    NextVersionNone(tags, "v9.9.9");
  }

  // ---------------------------------------------------------------------------------------------
  // `get_asset_hash`: the search through the release list.

  /** 32 characters from `[0-9a-fA-F]`, the textual form of an MD5 digest; none is whitespace. */
  predicate IsMd5(h: string): (valid: bool)
    ensures valid ==> forall k :: 0 <= k < |h| ==> !IsSpace(h[k])
  {
    |h| == 32 && forall k :: 0 <= k < |h| ==> IsHexDigit(h[k])
  }

  /** What the hash file's download gives: the stripped text if it is an MD5 digest. */
  function HashFromDownload(url: Option<string>, download: string -> Result<string, RequestError>): (r: Option<string>)
    ensures r.Some? ==> url.Some? && IsMd5(r.value)
  {
    if url.None? then None
    else match download(url.value)
      case Failure(_) => None
      case Success(text) => if IsMd5(Strip(text)) then Some(Strip(text)) else None
  }

  /** The answer of the search: look only in the first release tagged `version`, and there only
      at the first asset named `fileName`. */
  function HashLookup(releases: seq<Release>, version: string, fileName: string,
                      download: string -> Result<string, RequestError>): (r: Option<string>)
    ensures r.Some? ==> IsMd5(r.value)
  {
    var i := FirstIndex(releases, (r: Release) => r.tag == Some(version));
    if i == |releases| then None
    else
      var assets := releases[i].assets;
      var j := FirstIndex(assets, (a: Asset) => a.name == Some(fileName));
      if j == |assets| then None else HashFromDownload(assets[j].url, download)
  }

  /** The nested loops of `get_asset_hash` with their early returns. */
  method SearchHash(releases: seq<Release>, version: string, fileName: string,
                    download: string -> Result<string, RequestError>) returns (hash: Option<string>)
    ensures hash == HashLookup(releases, version, fileName, download)
  {
    for i := 0 to |releases|
      invariant forall k :: 0 <= k < i ==> releases[k].tag != Some(version)
    {
      if releases[i].tag == Some(version) {
        var assets := releases[i].assets;
        for j := 0 to |assets|
          invariant forall k :: 0 <= k < j ==> assets[k].name != Some(fileName)
        {
          if assets[j].name == Some(fileName) {
            if assets[j].url.None? {
              // `requests.get(None)` raises, and the exception handler answers `None`
              return None;
            }
            var response := download(assets[j].url.value);
            if response.Failure? {
              return None;
            }
            var text := Strip(response.value);
            if IsMd5(text) {
              return Some(text);
            }
            return None;
          }
        }
        return None;
      }
    }
    return None;
  }

  /** A hash is only ever an MD5 digest, and it is the stripped text of the hash file of the
      first release tagged `version`, case preserved. */
  lemma HashLookupFound(releases: seq<Release>, version: string, fileName: string,
                        download: string -> Result<string, RequestError>, h: string)
    requires HashLookup(releases, version, fileName, download) == Some(h)
    ensures IsMd5(h)
    ensures var i := FirstIndex(releases, (r: Release) => r.tag == Some(version));
      var assets := releases[i].assets;
      var j := FirstIndex(assets, (a: Asset) => a.name == Some(fileName));
      i < |releases| && releases[i].tag == Some(version) && (forall k :: 0 <= k < i ==> releases[k].tag != Some(version))
      && j < |assets| && assets[j].name == Some(fileName) && assets[j].url.Some?
      && download(assets[j].url.value).Success? && Strip(download(assets[j].url.value).value) == h
  {
  }

  /** No release tagged `version`: no hash. */
  lemma HashLookupNoRelease(releases: seq<Release>, version: string, fileName: string,
                            download: string -> Result<string, RequestError>)
    requires forall k :: 0 <= k < |releases| ==> releases[k].tag != Some(version)
    ensures HashLookup(releases, version, fileName, download) == None
  {
    var p := (r: Release) => r.tag == Some(version);
    assert forall k :: 0 <= k < |releases| ==> !p(releases[k]);
  }

  /** No hash file in the first release tagged `version`: no hash. */
  lemma HashLookupMissing(releases: seq<Release>, version: string, fileName: string,
                          download: string -> Result<string, RequestError>, i: nat)
    requires i < |releases| && releases[i].tag == Some(version)
    requires forall k :: 0 <= k < i ==> releases[k].tag != Some(version)
    requires forall k :: 0 <= k < |releases[i].assets| ==> releases[i].assets[k].name != Some(fileName)
    ensures HashLookup(releases, version, fileName, download) == None
  {
    var p := (r: Release) => r.tag == Some(version);
    assert FirstIndex(releases, p) == i by {
      assert p(releases[i]);
      assert forall k :: 0 <= k < i ==> !p(releases[k]);
    }
    var q := (a: Asset) => a.name == Some(fileName);
    assert forall k :: 0 <= k < |releases[i].assets| ==> !q(releases[i].assets[k]);
  }

  /** Conversely, the stripped text of the first matching hash file is returned whenever it is
      an MD5 digest. */
  lemma HashLookupReturns(releases: seq<Release>, version: string, fileName: string,
                          download: string -> Result<string, RequestError>, i: nat, j: nat, text: string)
    requires i < |releases| && releases[i].tag == Some(version)
    requires forall k :: 0 <= k < i ==> releases[k].tag != Some(version)
    requires j < |releases[i].assets| && releases[i].assets[j].name == Some(fileName)
    requires forall k :: 0 <= k < j ==> releases[i].assets[k].name != Some(fileName)
    requires releases[i].assets[j].url.Some? && download(releases[i].assets[j].url.value) == Success(text)
    requires IsMd5(Strip(text))
    ensures HashLookup(releases, version, fileName, download) == Some(Strip(text))
  {
    var p := (r: Release) => r.tag == Some(version);
    assert FirstIndex(releases, p) == i by {
      assert p(releases[i]);
      assert forall k :: 0 <= k < i ==> !p(releases[k]);
    }
    var q := (a: Asset) => a.name == Some(fileName);
    assert FirstIndex(releases[i].assets, q) == j by {
      assert q(releases[i].assets[j]);
      assert forall k :: 0 <= k < j ==> !q(releases[i].assets[k]);
    }
  }

  /** Releases after the first one tagged `version` are never searched. */
  lemma HashLookupIgnoresLater(releases: seq<Release>, later: seq<Release>, version: string, fileName: string,
                               download: string -> Result<string, RequestError>, i: nat)
    requires i < |releases| && releases[i].tag == Some(version)
    ensures HashLookup(releases + later, version, fileName, download) == HashLookup(releases, version, fileName, download)
  {
    var p := (r: Release) => r.tag == Some(version);
    var n := FirstIndex(releases, p);
    assert n < |releases|;
    var m := FirstIndex(releases + later, p);
    assert forall k :: 0 <= k < |releases| ==> (releases + later)[k] == releases[k];
    assert m == n;
  }

  // ---------------------------------------------------------------------------------------------
  // `get_changelog`: the filter against the cached tags.

  /** The set of tags of the cached releases; a null tag contributes `None`. */
  function TagSet(releases: seq<Release>): (tags: set<Option<string>>)
    ensures forall r :: r in releases ==> r.tag in tags
    ensures forall t :: t in tags ==> exists r :: r in releases && r.tag == t
  {
    set r | r in releases :: r.tag
  }

  /** The entries whose version (`None` when absent) is in `known`, in document order. */
  function KeepKnown(entries: seq<ChangelogEntry>, known: set<Option<string>>): (kept: seq<ChangelogEntry>)
    ensures |kept| <= |entries|
    ensures forall k :: 0 <= k < |kept| ==> kept[k].version in known
  {
    if entries == [] then []
    else (if entries[0].version in known then [entries[0]] else []) + KeepKnown(entries[1..], known)
  }

  /** `a` is `b` with some elements removed, the rest in their order. */
  predicate IsSubsequence<T(==)>(a: seq<T>, b: seq<T>) {
    if a == [] then true
    else if b == [] then false
    else if a[0] == b[0] then IsSubsequence(a[1..], b[1..])
    else IsSubsequence(a, b[1..])
  }

  /** The filter keeps an entry exactly when its version is a known tag. */
  lemma {:induction false} KeepKnownMembership(entries: seq<ChangelogEntry>, known: set<Option<string>>, e: ChangelogEntry)
    ensures e in KeepKnown(entries, known) <==> e in entries && e.version in known
  {
    if entries != [] {
      KeepKnownMembership(entries[1..], known, e);
      assert entries == [entries[0]] + entries[1..];
    }
  }

  /** The filter keeps the relative order of the entries it keeps. */
  lemma {:induction false} KeepKnownIsSubsequence(entries: seq<ChangelogEntry>, known: set<Option<string>>)
    ensures IsSubsequence(KeepKnown(entries, known), entries)
  {
    if entries != [] {
      KeepKnownIsSubsequence(entries[1..], known);
      var rest := KeepKnown(entries[1..], known);
      if entries[0].version in known {
        assert KeepKnown(entries, known) == [entries[0]] + rest;
        assert ([entries[0]] + rest)[1..] == rest;
      } else {
        assert KeepKnown(entries, known) == rest;
        SubsequenceOfTail(rest, entries);
      }
    }
  }

  lemma SubsequenceOfTail<T>(a: seq<T>, b: seq<T>)
    requires b != [] && IsSubsequence(a, b[1..])
    ensures IsSubsequence(a, b)
  {
    if a != [] && a[0] == b[0] {
      SubsequenceDropHead(a, b[1..]);
    }
  }

  lemma {:induction false} SubsequenceDropHead<T>(a: seq<T>, b: seq<T>)
    requires a != [] && IsSubsequence(a, b)
    ensures IsSubsequence(a[1..], b)
  {
    if b != [] {
      if a[0] == b[0] {
        if a[1..] != [] {
          SubsequenceDropHead(a[1..], b[1..]);
        }
        SubsequenceOfTail(a[1..], b);
      } else {
        SubsequenceDropHead(a, b[1..]);
        SubsequenceOfTail(a[1..], b);
      }
    }
  }

  /** Filtering distributes over concatenation. */
  lemma {:induction false} KeepKnownAppend(a: seq<ChangelogEntry>, b: seq<ChangelogEntry>, known: set<Option<string>>)
    ensures KeepKnown(a + b, known) == KeepKnown(a, known) + KeepKnown(b, known)
  {
    if a == [] {
      assert a + b == b;
    } else {
      assert (a + b)[0] == a[0];
      assert (a + b)[1..] == a[1..] + b;
      KeepKnownAppend(a[1..], b, known);
    }
  }

  /** The HTTP response to the changelog request: its status and, parsed, its body. */
  datatype ChangelogResponse = ChangelogResponse(status: int, body: Result<seq<ChangelogEntry>, RequestError>)

  /** What `get_changelog` answers once the release list is at hand: the filtered document on
      status 200, an empty list on any other status or when the request or its parsing fails. */
  function ChangelogFor(releases: seq<Release>, response: Result<ChangelogResponse, RequestError>): (entries: seq<ChangelogEntry>)
    ensures entries != [] ==> response.Success? && response.value.status == 200 && response.value.body.Success?
    ensures forall k :: 0 <= k < |entries| ==> exists r :: r in releases && r.tag == entries[k].version
  {
    match response
    case Failure(_) => []
    case Success(r) =>
      if r.status != 200 then []
      else match r.body
        case Failure(_) => []
        case Success(entries) =>
          var known := TagSet(releases);
          var kept := KeepKnown(entries, known);
          assert forall k :: 0 <= k < |kept| ==> kept[k].version in known;
          kept
  }

  /** On status 200 the answer is exactly the entries naming a cached tag, in their order;
      on any other status it is empty. */
  lemma ChangelogForSpec(releases: seq<Release>, response: Result<ChangelogResponse, RequestError>, e: ChangelogEntry)
    ensures response.Failure? || response.value.status != 200 || response.value.body.Failure? ==>
      ChangelogFor(releases, response) == []
    ensures response.Success? && response.value.status == 200 && response.value.body.Success? ==>
      var entries := response.value.body.value;
      IsSubsequence(ChangelogFor(releases, response), entries)
      && (e in ChangelogFor(releases, response) <==>
            e in entries && exists r :: r in releases && r.tag == e.version)
  {
    if response.Success? && response.value.status == 200 && response.value.body.Success? {
      var entries := response.value.body.value;
      KeepKnownIsSubsequence(entries, TagSet(releases));
      KeepKnownMembership(entries, TagSet(releases), e);
    }
  }
}
