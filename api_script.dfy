/** `GetOrgRepos` of repoarchivetool/apiScript.py, the camelCase
    predecessor of api_interface.py: the same search, with a missing `last`
    link read as one page and records without the html url. */
module ApiScript {
  import opened Remote
  import opened Cutover
  import opened Search

  /** One entry of the returned list. */
  datatype Record = Record(name: string, visibility: string, apiUrl: string, lastCommit: int,
                           contributorsUrl: string)

  function RecordOf(r: Repo): Record
  {
    Record(r.name, r.visibility, r.url, r.pushed, r.contributorsUrl)
  }

  /** The records of the collected repositories, in collection order. */
  function Records(rs: seq<Repo>): seq<Record>
  {
    seq(|rs|, i requires 0 <= i < |rs| => RecordOf(rs[i]))
  }

  /** The search. Unlike api_interface.py it runs on a single page; an
      empty organisation is not reported but raises when page 1 is indexed. */
  method GetOrgRepos(org: Org, cutoff: int) returns (r: Outcome<seq<Record>>)
    requires LinkSane(org)
    ensures org.listing(1).NotResponse? ==> r == Raises
    ensures org.listing(1).Response? && !org.listing(1).Ok() ==> r == Err(TestApiCall)
    ensures r.Err? ==> r.phase in {TestApiCall, GettingArchiveFlag, GettingPageOfRepositories}
    ensures !r.NoneResult?
    ensures org.pages == [] && org.lastLink.None? && org.listing(1).Ok() ==> r == Raises
    ensures r.Ok? && Paginated(org) && SortedByPush(org) && DetailsOk(org) ==>
              r.value == Records(Candidates(org, cutoff))
    ensures Paginated(org) && |org.pages| >= 1 && ListingsOk(org, 1, |org.pages|) && DetailsOk(org) ==> r.Ok?
  {
    var first := org.listing(1);
    if first.NotResponse? {
      return Raises;
    }
    if !first.Ok() {
      return Err(TestApiCall);
    }
    var last := LastPage(org.lastLink);
    if Paginated(org) && |org.pages| >= 1 && ListingsOk(org, 1, |org.pages|) && DetailsOk(org) {
      SearchSucceeds(org, Requests, cutoff);
    }
    var found := Locate(org, Requests, cutoff, last);
    if !found.Ok? {
      return Rethrow(found);
    }
    var P := found.value;
    var kept := Collect(org, Requests, cutoff, P, last);
    if !kept.Ok? {
      return Rethrow(kept);
    }
    if Paginated(org) && SortedByPush(org) && DetailsOk(org) {
      SearchSound(org, Requests, cutoff, P);
    }
    return Ok(Records(kept.value));
  }
}
