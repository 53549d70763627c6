/** `get_organisation_repos` of repoarchivetool/api_interface.py: the
    `requests`-based search, whose handler for a missing `last` link binds a
    name the rest of the function never reads. */
module ApiInterface {
  import opened Remote
  import opened Cutover
  import opened Search

  /** One entry of the returned list; data_retrieval.py builds the same one. */
  datatype Record = Record(name: string, visibility: string, apiUrl: string, lastCommit: int,
                           contributorsUrl: string, htmlUrl: string)

  function RecordOf(r: Repo): Record
  {
    Record(r.name, r.visibility, r.url, r.pushed, r.contributorsUrl, r.htmlUrl)
  }

  /** The records of the collected repositories, in collection order. */
  function Records(rs: seq<Repo>): seq<Record>
  {
    seq(|rs|, i requires 0 <= i < |rs| => RecordOf(rs[i]))
  }

  /** The search: the first listing call, the page count from its `last`
      link, the bisection and the collector. The first call's failures and
      a missing `last` link end it before the bisection; when it succeeds
      on a sorted, well-paginated listing with successful single-repository
      calls it returns the records of exactly the candidates, and with
      every call succeeding on two or more pages it succeeds. */
  method GetOrganisationRepos(org: Org, cutoff: int) returns (r: Outcome<seq<Record>>)
    requires LinkSane(org)
    ensures org.listing(1).NotResponse? ==> r == Raises
    ensures org.listing(1).Response? && !org.listing(1).Ok() ==> r == Err(TestApiCall)
    ensures org.listing(1).Ok() && org.lastLink.None? ==> r == Raises
    ensures r.Err? ==> r.phase in {TestApiCall, GettingArchiveFlag, GettingPageOfRepositories}
    ensures !r.NoneResult?
    ensures r.Ok? && Paginated(org) && SortedByPush(org) && DetailsOk(org) ==>
              r.value == Records(Candidates(org, cutoff))
    ensures Paginated(org) && |org.pages| >= 2 && ListingsOk(org, 1, |org.pages|) && DetailsOk(org) ==> r.Ok?
  {
    var first := org.listing(1);
    if first.NotResponse? {
      return Raises;
    }
    if !first.Ok() {
      return Err(TestApiCall);
    }
    if org.lastLink.None? {
      // the fallback assigns `lastPage`; reading `last_page` then raises
      return Raises;
    }
    var last := org.lastLink.value;
    if Paginated(org) && |org.pages| >= 2 && ListingsOk(org, 1, |org.pages|) && DetailsOk(org) {
      SearchSucceeds(org, Requests, cutoff);
    }
    var found := Locate(org, Requests, cutoff, last);
    if !found.Ok? {
      return Rethrow(found);
    }
    var P := found.value;
    var kept := Collect(org, Requests, cutoff, P, last);
    if !kept.Ok? {
      return Rethrow(kept);
    }
    if Paginated(org) && SortedByPush(org) && DetailsOk(org) {
      SearchSound(org, Requests, cutoff, P);
    }
    return Ok(Records(kept.value));
  }
}
