/** The `GitHubReleases` object (helpers/git_releases.py): a time-bounded cache of the upstream
    release list and the queries answered from it. The clock reading (`time.time()`) is the
    parameter `now`; the outcome of the release-list request is the parameter `upstream`, which a
    method consults only when the cache is not valid. */
module GitReleases {

  import opened Wrappers
  import opened Releases

  /** `_cache_ttl`: seconds a fetched release list stays valid. */
  const DefaultTtl := 1800

  /** Default `hash_file_suffix` of `get_asset_hash`. */
  const DefaultHashSuffix := ".md5"

  class GitHubReleases {
    /** `_cache`: the release list of the last successful fetch, `None` before one or after clearing. */
    var cache: Option<seq<Release>>
    /** `_cache_timestamp`: when that list was fetched. */
    var ts: Option<int>
    const ttl: int
    /** Number of requests made for the release list so far. */
    ghost var requests: nat

    constructor ()
      ensures cache == None && ts == None && ttl == DefaultTtl && requests == 0
    {
      cache := None;
      ts := None;
      ttl := DefaultTtl;
      requests := 0;
    }

    /** `_is_cache_valid`: a list and its timestamp are present and younger than the TTL. */
    predicate IsCacheValid(now: int): (valid: bool)
      reads this
      ensures valid ==> cache.Some? && ts.Some?
      ensures ts.Some? && now >= ts.value + ttl ==> !valid
    {
      cache.Some? && ts.Some? && now - ts.value < ttl
    }

    /** `clear_cache`: forget the list and its timestamp, so that no later read finds it valid. */
    method ClearCache()
      modifies this
      ensures cache == None && ts == None && requests == old(requests)
      ensures forall now :: !IsCacheValid(now)
    {
      cache := None;
      ts := None;
    }

    /** The state after the refresh step every query begins with: nothing changes and no request
        is made while the cache is valid; otherwise one request is made, and only a successful
        one replaces both the list and its timestamp. */
    twostate predicate Refreshed(now: int, upstream: Result<seq<Release>, RequestError>)
      reads this
    {
      if old(IsCacheValid(now)) then
        cache == old(cache) && ts == old(ts) && requests == old(requests)
      else
        requests == old(requests) + 1
        && if upstream.Success? then cache == Some(upstream.value) && ts == Some(now)
           else cache == old(cache) && ts == old(ts)
    }

    /** The refresh step had to request the list and the request failed. */
    twostate predicate RefreshFailed(now: int, upstream: Result<seq<Release>, RequestError>)
      reads this
    {
      !old(IsCacheValid(now)) && upstream.Failure?
    }

    /** The fetch-when-invalid step shared by `get_releases`, `get_asset_hash` and
        `get_changelog`: the error of a failed request, `None` otherwise. A failed request
        assigns nothing, since the exception comes before the assignments. */
    method Refresh(now: int, upstream: Result<seq<Release>, RequestError>) returns (failure: Option<RequestError>)
      modifies this
      ensures Refreshed(now, upstream)
      ensures failure == if RefreshFailed(now, upstream) then Some(upstream.error) else None
      ensures failure.None? ==> cache.Some?
    {
      if IsCacheValid(now) {
        return None;
      }
      requests := requests + 1;
      match upstream
      case Failure(e) =>
        return Some(e);
      case Success(releases) =>
        cache := Some(releases);
        ts := Some(now);
        return None;
    }

    /** `get_releases`: the tags of the cached or freshly fetched list; a failed request is raised
        to the caller. */
    method GetReleases(now: int, upstream: Result<seq<Release>, RequestError>) returns (r: Result<seq<string>, RequestError>)
      modifies this
      ensures Refreshed(now, upstream)
      ensures !RefreshFailed(now, upstream) ==> cache.Some?
      ensures r == if RefreshFailed(now, upstream) then Failure(upstream.error) else Success(Tags(cache.value))
    {
      var failure := Refresh(now, upstream);
      if failure.Some? {
        return Failure(failure.value);
      }
      return Success(Tags(cache.value));
    }

    /** `get_latest_version`: the first tag, `None` when there is none. */
    method GetLatestVersion(now: int, upstream: Result<seq<Release>, RequestError>) returns (r: Result<Option<string>, RequestError>)
      modifies this
      ensures Refreshed(now, upstream)
      ensures !RefreshFailed(now, upstream) ==> cache.Some?
      ensures r == if RefreshFailed(now, upstream) then Failure(upstream.error) else Success(Latest(Tags(cache.value)))
    {
      var releases := GetReleases(now, upstream);
      if releases.Failure? {
        return Failure(releases.error);
      }
      return Success(Latest(releases.value));
    }

    /** `get_next_version`: the tag before the first occurrence of `current`. The input is not
        validated here. */
    method GetNextVersion(now: int, upstream: Result<seq<Release>, RequestError>, current: string)
      returns (r: Result<Option<string>, RequestError>)
      modifies this
      ensures Refreshed(now, upstream)
      ensures !RefreshFailed(now, upstream) ==> cache.Some?
      ensures r == if RefreshFailed(now, upstream) then Failure(upstream.error)
                   else Success(NextVersion(Tags(cache.value), current))
    {
      var releases := GetReleases(now, upstream);
      if releases.Failure? {
        return Failure(releases.error);
      }
      return Success(NextVersion(releases.value, current));
    }

    /** `get_asset_hash`: reuse the cache when valid, otherwise fetch (a failure gives `None`),
        then search the list. */
    method GetAssetHash(now: int, upstream: Result<seq<Release>, RequestError>, version: string, assetName: string,
                        hashFileSuffix: string, download: string -> Result<string, RequestError>)
      returns (hash: Option<string>)
      modifies this
      ensures Refreshed(now, upstream)
      ensures !RefreshFailed(now, upstream) ==> cache.Some?
      ensures hash == if RefreshFailed(now, upstream) then None
                      else HashLookup(cache.value, version, assetName + hashFileSuffix, download)
    {
      var failure := Refresh(now, upstream);
      if failure.Some? {
        return None;
      }
      hash := SearchHash(cache.value, version, assetName + hashFileSuffix, download);
    }

    /** `get_asset_hash` called without a suffix: the hash file is the asset name followed by
        `.md5`. */
    method GetAssetHashDefault(now: int, upstream: Result<seq<Release>, RequestError>, version: string,
                               assetName: string, download: string -> Result<string, RequestError>)
      returns (hash: Option<string>)
      modifies this
      ensures Refreshed(now, upstream)
      ensures !RefreshFailed(now, upstream) ==> cache.Some?
      ensures hash == if RefreshFailed(now, upstream) then None
                      else HashLookup(cache.value, version, assetName + ".md5", download)
    {
      hash := GetAssetHash(now, upstream, version, assetName, DefaultHashSuffix, download);
    }

    /** `get_changelog`: reuse the cache when valid, otherwise fetch (a failure gives `[]`), then
        filter the changelog document against the cached tags. */
    method GetChangelog(now: int, upstream: Result<seq<Release>, RequestError>,
                        response: Result<ChangelogResponse, RequestError>)
      returns (entries: seq<ChangelogEntry>)
      modifies this
      ensures Refreshed(now, upstream)
      ensures !RefreshFailed(now, upstream) ==> cache.Some?
      ensures entries == if RefreshFailed(now, upstream) then [] else ChangelogFor(cache.value, response)
    {
      var failure := Refresh(now, upstream);
      if failure.Some? {
        return [];
      }
      return ChangelogFor(cache.value, response);
    }
  }

  /** Clearing the cache and then failing to fetch gives the request error, not the list
      fetched before the clear. */
  method ClearThenFailedFetch(releases: seq<Release>, fetchedAt: int, now: int, error: RequestError, current: string)
    returns (r: Result<Option<string>, RequestError>)
    ensures r == Failure(error)
  {
    var repo := new GitHubReleases();
    var first := repo.GetReleases(fetchedAt, Success(releases));
    repo.ClearCache();
    r := repo.GetNextVersion(now, Failure(error), current);
  }

  /** A list fetched at `fetchedAt` answers reads for less than the TTL; from the TTL on, a read
      requests the list again, and a failure is reported rather than the old list being served. */
  method ReadAfter(releases: seq<Release>, fetchedAt: int, elapsed: int, error: RequestError, current: string)
    returns (r: Result<Option<string>, RequestError>)
    ensures elapsed < DefaultTtl ==> r == Success(NextVersion(Tags(releases), current))
    ensures elapsed >= DefaultTtl ==> r == Failure(error)
  {
    var repo := new GitHubReleases();
    var first := repo.GetReleases(fetchedAt, Success(releases));
    r := repo.GetNextVersion(fetchedAt + elapsed, Failure(error), current);
  }
}
