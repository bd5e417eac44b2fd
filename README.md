# Release cache and version resolution of the XC_VM update API

This project models `GitHubReleases` from `helpers/git_releases.py`. The class keeps a
time-bounded cache of the upstream release list. From that list it answers four questions:
the tags in upstream order, the latest tag, the successor of a given tag, and the MD5 digest
published beside a release asset. It also filters a changelog document against the cached tags.
A static validator checks version strings of the form `vX.Y.Z`.

Modules:

- `Wrappers`: `Option` and `Result`.
- `Text`: ASCII digit, hex and whitespace classes, `str.strip()`, `str.split(sep)` and
  base-10 `int()`.
- `Versions`: `is_valid_version`. It covers the hand-written matcher for
  `^v[0-9]+\.[0-9]+\.[0-9]+$`, the per-part loop, and a reference description of the
  accepted strings.
- `Releases`: the release, asset and changelog-entry values. It holds tag extraction, the
  latest and next version, the hash search (a method with the source's nested loops, plus
  the function that specifies it) and the changelog filter.
- `GitReleases`: the class `GitHubReleases`. Its fields are `cache` and `ts` (`_cache` and
  `_cache_timestamp`), a constant `ttl` of 1800 seconds, and a ghost count of upstream
  requests. Its methods take the clock reading `now` and the outcome of each network request
  as parameters.

Several behaviours of the code are easy to assume otherwise. The model follows the code:

- `get_next_version` does not validate its argument with `is_valid_version`.
- `get_asset_hash` and `get_changelog` reuse a valid cache. They fetch the release list only
  when the cache is not valid.
- Once the TTL has passed, a failed fetch is reported to the caller (raised, `None` or `[]`).
  The old list stays in the fields but is never served.
- There is no single-flight refresh, and no locking.

The validator is modelled exactly, including one Python behaviour. Under `re.match`, `$` also
matches just before one final newline, and `int()` ignores that newline. So `"v1.0.1\n"` is
accepted. `"v1.0.0\n"` is rejected, because its last part `"0\n"` has two characters and
starts with `0`.

## Model

| member | source | states |
|---|---|---|
| `Versions.IsValidVersion` | helpers/git_releases.py:316-347 | Strings over 20 characters give `TooLong` (`ValueError`) whatever their content. Shorter strings never give an error, and the answer is `true` exactly when the string is well formed. |
| `Versions.MatchesVersionPattern` | helpers/git_releases.py:320-321 | A string the pattern matches starts with `v` and is at least as long as `v0.0.0`. |
| `Versions.Runs` | helpers/git_releases.py:320-321 | Text the automaton for `[0-9]+(\.[0-9]+){n}` accepts has at least `2n + 1` characters, or `2n` when a digit run has already started. |
| `Versions.PartAccepted` | helpers/git_releases.py:331-342 | A part that passes `int()`, the sign check and the leading-zero check is non-empty, and a part starting with `0` is `0` alone. |
| `Versions.WellFormedVersion` | helpers/git_releases.py:320-344 | A well-formed version starts with `v` and has at least six characters; together with `VersionCharacterization` this is the reference grammar of what the validator accepts. |
| `Versions.VersionCharacterization` | helpers/git_releases.py:320-344 | The pattern check followed by the three-part loop accepts exactly the well-formed versions: `v` and three non-empty ASCII digit runs joined by `.`, with no leading zero on a part longer than one character. A single trailing newline is allowed, and it counts as part of the last component. |
| `Versions.WellFormedIsAccepted` | helpers/git_releases.py:320-344 | Every well-formed version matches the pattern and splits into three parts that each pass `int()`, the sign check and the leading-zero check. |
| `Versions.AcceptedIsWellFormed` | helpers/git_releases.py:320-344 | A string that matches the pattern and whose three parts pass the loop is well formed. |
| `Versions.PatternComponents` | helpers/git_releases.py:320-321 | A string the regular expression matches is `v` plus three non-empty digit runs, optionally followed by one newline. |
| `Versions.ThreeRuns` | helpers/git_releases.py:320-321 | Text the automaton accepts with two dots is three non-empty digit runs joined by `.`. |
| `Versions.ComponentsMatch` | helpers/git_releases.py:320-323 | `v` plus three non-empty digit runs, with or without a final newline, matches the pattern. |
| `Versions.ComponentsAccepted` | helpers/git_releases.py:326-344 | The three parts of a well-formed version all pass the loop, so the validator reaches `return True`. |
| `Versions.RunsSplit` | helpers/git_releases.py:320-326 | The hand-written automaton for `[0-9]+(\.[0-9]+){n}` accepts exactly the texts whose `.`-separated pieces are `n + 1` non-empty digit runs. |
| `Versions.VersionTextPieces` | helpers/git_releases.py:320-326 | For `v<a>.<b>.<c>` with an optional newline, the pattern stops before the newline, and splitting after the `v` gives `[a, b, c + newline]`. |
| `Versions.ComponentAccepted` | helpers/git_releases.py:331-342 | A component without a redundant leading zero passes the loop body. With the trailing newline it passes if it does not start with `0`. |
| `Versions.AcceptedComponent` | helpers/git_releases.py:331-342 | A digit run that passes the loop body has no redundant leading zero. If the newline follows it, it does not start with `0`. |
| `Versions.AcceptedExamples` | helpers/git_releases.py:305-306 | `v1.0.0` is well formed, and so is `v1.0.1` followed by a newline. |
| `Versions.RejectedTwoParts` | helpers/git_releases.py:307-308 | `v1.0` is not well formed. |
| `Versions.RejectedLeadingZero` | helpers/git_releases.py:309-310 | `v01.0.0` is not well formed. |
| `Versions.RejectedZeroBeforeNewline` | helpers/git_releases.py:336-342 | `v1.0.0` followed by a newline is not well formed, because its last part is `"0\n"`. |
| `Text.Strip` | helpers/git_releases.py:191 | The result is the slice of the input left after removing whitespace at both ends. It is empty, or it starts and ends with a non-space. |
| `Text.LeadingSpace` | helpers/git_releases.py:191 | Counts exactly the whitespace characters that begin the string. |
| `Text.TrailingSpace` | helpers/git_releases.py:191 | Counts exactly the whitespace characters that end the string. |
| `Text.StripAppendedSpace` | helpers/git_releases.py:191 | Stripping removes whitespace appended to a string that starts and ends with a non-space, and changes nothing else. |
| `Text.Split` | helpers/git_releases.py:326 | `split(sep)` always gives at least one piece, and no piece contains the separator. |
| `Text.JoinSplit` | helpers/git_releases.py:326 | Joining the pieces of `split(sep)` with `sep` gives back the original string. |
| `Text.SplitAtSeparator` | helpers/git_releases.py:326 | Splitting `a + sep + b` gives the pieces of `a` followed by the pieces of `b`. |
| `Text.SplitWithoutSeparator` | helpers/git_releases.py:326 | A string without the separator splits into itself alone. |
| `Text.ParseInt` | helpers/git_releases.py:332 | `int()` succeeds only when the stripped text is non-empty and ends in a digit. A negative result needs a leading `-`. |
| `Text.ParseDigits` | helpers/git_releases.py:332 | `int()` of a non-empty ASCII digit run, with trailing whitespace or without, succeeds with its non-negative decimal value. |
| `Releases.FirstIndex` | helpers/git_releases.py:135 | Returns the index of the first element with the property, or the length of the list when there is none. |
| `Releases.Tags` | helpers/git_releases.py:74-78 | The tag list is never longer than the release list and holds no empty tag. |
| `Releases.TagsAppend` | helpers/git_releases.py:74-78 | Tag extraction distributes over concatenation, so the upstream order is kept exactly. |
| `Releases.TagsAt` | helpers/git_releases.py:88-92 | Each release contributes its tag at its own position if the tag is present and non-empty, and contributes nothing otherwise. |
| `Releases.TagsMembership` | helpers/git_releases.py:74-78 | A string appears in the tag list exactly when it is non-empty and is the `tag_name` of some release. |
| `Releases.Latest` | helpers/git_releases.py:114 | The latest version is `None` exactly when the tag list is empty, and otherwise its first tag. |
| `Releases.LatestIsFirstTagged` | helpers/git_releases.py:113-114 | The latest version is the tag of the first release with a present, non-empty tag. It is `None` when no release has one. |
| `Releases.NextVersion` | helpers/git_releases.py:131-136 | A successor exists only when `current` is among the tags and is not the first one, and the successor is itself one of the tags. |
| `Releases.NextVersionSome` | helpers/git_releases.py:131-136 | The successor is `w` exactly when `v` first occurs at some index `i > 0` and `w` is the tag at `i - 1`. |
| `Releases.FirstOccurrence` | helpers/git_releases.py:135 | `releases.index(v)` is the position `j` with `v` there and nowhere before. |
| `Releases.NextVersionNone` | helpers/git_releases.py:132-136 | There is no successor exactly when `v` is absent from the list or is its first tag. |
| `Releases.NextVersionExample` | helpers/git_releases.py:126-129 | With tags `v1.0.2, v1.0.1, v1.0.0`, `v1.0.0` gives `v1.0.1`, while `v1.0.2` and `v9.9.9` give `None`. |
| `Releases.IsMd5` | helpers/git_releases.py:193 | A string passing the digest check contains no whitespace. |
| `Releases.HashFromDownload` | helpers/git_releases.py:185-202 | A hash is produced only from a present download URL, and it is always an MD5 digest. |
| `Releases.HashLookup` | helpers/git_releases.py:178-210 | Whatever the release list and the downloads, a returned hash is an MD5 digest. |
| `Releases.SearchHash` | helpers/git_releases.py:178-210 | The nested loops with early returns compute the hash lookup. They search only the first release tagged `version`, and in it only the first asset with the hash file's name. |
| `Releases.HashLookupFound` | helpers/git_releases.py:178-197 | A returned hash is 32 hexadecimal characters. It is the stripped text downloaded for the first asset named `asset_name + suffix` in the first release tagged `version`, with its case preserved. |
| `Releases.HashLookupReturns` | helpers/git_releases.py:178-197 | When the first release tagged `version` has, as its first asset named `asset_name + suffix`, a file whose download succeeds and whose stripped text is an MD5 digest, that stripped text is the hash. |
| `Releases.HashLookupNoRelease` | helpers/git_releases.py:209-210 | If no release is tagged `version`, there is no hash. |
| `Releases.HashLookupMissing` | helpers/git_releases.py:204-207 | If the first release tagged `version` has no asset with the hash file's name, there is no hash. |
| `Releases.HashLookupIgnoresLater` | helpers/git_releases.py:178-207 | Once a release carries the tag, releases appended after it do not change the answer. |
| `Releases.TagSet` | helpers/git_releases.py:258 | The set of valid versions holds the tag of every cached release and nothing else. |
| `Releases.KeepKnown` | helpers/git_releases.py:260-263 | The filtered changelog is no longer than the document, and every entry in it has a version in the known set. |
| `Releases.ChangelogFor` | helpers/git_releases.py:253-283 | A non-empty answer needs a successful request with status 200 and a parsed body, and every entry in it names the tag of a cached release. |
| `Releases.KeepKnownMembership` | helpers/git_releases.py:258-263 | An entry survives the filter exactly when it is in the document and its version is in the set of cached tags. |
| `Releases.KeepKnownIsSubsequence` | helpers/git_releases.py:260-263 | The filtered changelog is a subsequence of the document: relative order is preserved. |
| `Releases.KeepKnownAppend` | helpers/git_releases.py:260-263 | The filter distributes over concatenation. |
| `Releases.ChangelogForSpec` | helpers/git_releases.py:253-288 | A status other than 200, a failed request or an unparsable body gives `[]`. On status 200 the answer is a subsequence of the document, holding exactly the entries whose version is the tag of a cached release. |
| `GitReleases.GitHubReleases.constructor` | helpers/git_releases.py:30-32 | A new object has no cached list, no timestamp, and a TTL of 1800 seconds. |
| `GitReleases.GitHubReleases.IsCacheValid` | helpers/git_releases.py:46-55 | The cache is valid only when both the list and the timestamp are present, and it is invalid from `ttl` seconds after the timestamp on. |
| `GitReleases.GitHubReleases.ClearCache` | helpers/git_releases.py:34-44 | Both fields become absent, and the cache is invalid at every later time. |
| `GitReleases.GitHubReleases.Refresh` | helpers/git_releases.py:81-87 | A valid cache makes no request and leaves the state unchanged. Otherwise one request is made: success replaces the list and sets the timestamp to `now`, and failure changes nothing and returns the error. |
| `GitReleases.GitHubReleases.GetReleases` | helpers/git_releases.py:57-99 | The answer is the tag list of the cached or freshly fetched list. A failed fetch is returned as the error, with the cache and timestamp unchanged. |
| `GitReleases.GitHubReleases.GetLatestVersion` | helpers/git_releases.py:101-114 | The answer is the first tag of that list, or the fetch error. |
| `GitReleases.GitHubReleases.GetNextVersion` | helpers/git_releases.py:116-136 | The answer is the successor of `current` in that list, or the fetch error. The argument is not validated. |
| `GitReleases.GitHubReleases.GetAssetHash` | helpers/git_releases.py:166-214 | A valid cache is reused. A failed fetch gives `None`. Otherwise the answer is the hash lookup over the list. |
| `GitReleases.GitHubReleases.GetAssetHashDefault` | helpers/git_releases.py:138-140 | Called without a suffix, `get_asset_hash` looks for the hash file named `asset_name` followed by `.md5`, with the same caching behaviour. |
| `GitReleases.GitHubReleases.GetChangelog` | helpers/git_releases.py:241-288 | A valid cache is reused. A failed fetch gives `[]`. Otherwise the answer is the changelog filtered against the cached tags. |
| `GitReleases.ClearThenFailedFetch` | helpers/git_releases.py:42-43 | After a successful fetch and a `clear_cache`, a failed fetch makes `get_next_version` fail with the request error instead of answering from the old list. |
| `GitReleases.ReadAfter` | helpers/git_releases.py:53-55 | After one fetch, a read less than 1800 seconds later is answered from the cached list even though the upstream request would fail. A read at least 1800 seconds later fetches again, and its failure is reported. |

## Left out

- Network requests (`requests.get`, `raise_for_status`, `response.json()`, the hash-file
  download) are parameters. The release-list request and the changelog request are `Result`
  values. The download is a function from URL to `Result`. Timeouts, headers, the API URL and
  token handling are not modelled.
- `time.time()` is the parameter `now`, in whole seconds. One call uses one instant for both
  the validity check and the new timestamp. The source reads the clock twice and uses floats.
- Logging, and the `__main__` demonstration.
- The `isinstance(version, str)` check: Dafny's types already guarantee a string.
- The `KeyError` that `release['tag_name']` raises in `get_changelog` when the key is absent.
  The model conflates absent and null tags as `None` and treats both as a null `tag_name`.
- A body of the release list or changelog that is JSON but not a list of objects, and a
  non-list `assets` value. These do not reach the code's own logic.
- `Text.Strip` and `Text.ParseInt`: only ASCII whitespace is stripped, and `int()` accepts no
  underscores or non-ASCII digits. The validator's pattern lets only ASCII digits and a final
  newline reach `int()`, so its result is unaffected.
- `Text.Strip`: because only ASCII whitespace is stripped, hash lookups can differ. A digest
  padded with a non-ASCII space such as U+00A0 or U+3000 is stripped and returned by
  `str.strip()`, but the model rejects it.
- A release-list or changelog body that is not JSON is modelled as a caught request error.
  That matches `requests` 2.27 and later, where the JSON decoding error is a
  `RequestException`. With older versions `get_asset_hash` and `get_changelog` would raise
  `ValueError` instead of returning `None` or `[]`.
- The regular expression for the hash is modelled strictly, as exactly 32 hex characters. The
  `$`-before-newline case cannot occur there, because the text has been stripped.
- Concurrency: the code has no locks and no single-flight refresh, so there is nothing
  concurrent to model.
- `api.py` (the Flask routes, the error-report formatting and the Telegram upload) and
  `helpers/common.py` (configuration loading) are not part of this model. They are I/O
  plumbing around the class.
