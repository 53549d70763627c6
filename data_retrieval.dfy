/** `get_organisation_repos` of repoarchivetool/data_retrieval.py, written
    against the toolkit client: a call that produced no response is an
    error message, a response with an error status is skipped, and a first
    call with an error status ends the function without a value. */
module DataRetrieval {
  import opened Remote
  import opened Cutover
  import opened Search
  import ApiInterface

  /** The search. With one or two pages the resolution runs without a probe
      and either reports an empty first page or raises on the undefined
      flag function; an empty organisation is therefore reported. With
      three or more pages, a sorted listing and successful calls it returns
      the records of exactly the candidates. */
  method GetOrganisationRepos(org: Org, cutoff: int) returns (r: Outcome<seq<ApiInterface.Record>>)
    requires LinkSane(org)
    ensures org.listing(1).NotResponse? ==> r == Err(TestApiCall)
    ensures org.listing(1).Response? && !org.listing(1).Ok() ==> r == NoneResult
    ensures org.listing(1).Ok() && LastPage(org.lastLink) <= 2 ==>
              r == (if PageAt(org, 1) == [] then Err(NoRepositoriesFound) else Raises)
    ensures org.pages == [] && org.lastLink.None? && org.listing(1).Ok() ==> r == Err(NoRepositoriesFound)
    ensures r.NoneResult? ==> org.listing(1).Response? && !org.listing(1).Ok()
    ensures r.Ok? ==> LastPage(org.lastLink) >= 3
    ensures r.Ok? && Paginated(org) && SortedByPush(org) && DetailsOk(org) && ListingsOk(org, 1, |org.pages|) ==>
              r.value == ApiInterface.Records(Candidates(org, cutoff))
    ensures Paginated(org) && |org.pages| >= 3 && ListingsOk(org, 1, |org.pages|) && DetailsOk(org) ==> r.Ok?
  {
    var first := org.listing(1);
    if first.NotResponse? {
      return Err(TestApiCall);
    }
    if !first.Ok() {
      return NoneResult;
    }
    var last := LastPage(org.lastLink);
    if last <= 2 {
      ToolkitNeverProbesShortListing(org, cutoff, last);
    }
    if Paginated(org) && |org.pages| >= 3 && ListingsOk(org, 1, |org.pages|) && DetailsOk(org) {
      SearchSucceeds(org, Toolkit, cutoff);
    }
    var found := Locate(org, Toolkit, cutoff, last);
    if !found.Ok? {
      return Rethrow(found);
    }
    var P := found.value;
    var kept := Collect(org, Toolkit, cutoff, P, last);
    if !kept.Ok? {
      return Rethrow(kept);
    }
    if Paginated(org) && SortedByPush(org) && DetailsOk(org) && ListingsOk(org, 1, |org.pages|) {
      SearchSound(org, Toolkit, cutoff, P);
    }
    return Ok(ApiInterface.Records(kept.value));
  }
}
