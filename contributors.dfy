/** The contributors call: `get_repo_contributors` of
    repoarchivetool/api_interface.py, `getRepoContributors` of
    repoarchivetool/apiScript.py (the same code) and the toolkit version of
    repoarchivetool/data_retrieval.py. */
module Contributors {
  import opened Remote
  import opened Search

  /** A contributor as the contributors endpoint lists it. */
  datatype RawContributor = RawContributor(avatarUrl: string, login: string, htmlUrl: string, contributions: int)

  /** A contributor as the tool hands it to the page. */
  datatype Contributor = Contributor(avatar: string, login: string, url: string, contributions: int)

  function Describe(c: RawContributor): Contributor
  {
    Contributor(c.avatarUrl, c.login, c.htmlUrl, c.contributions)
  }

  /** The loop over a 200 body: one record per contributor, in order. */
  method DescribeAll(body: seq<RawContributor>) returns (list: seq<Contributor>)
    ensures |list| == |body|
    ensures forall i :: 0 <= i < |body| ==> list[i] == Describe(body[i])
  {
    list := [];
    for k := 0 to |body|
      invariant |list| == k
      invariant forall i :: 0 <= i < k ==> list[i] == Describe(body[i])
    {
      list := list + [Describe(body[k])];
    }
  }

  /** The `requests` version: any status other than 200 and 204 is an error
      message, 204 (no content) an empty list, 200 the described body. A
      call that produced no response raises inside `requests`. */
  method GetRepoContributors(reply: Reply, body: seq<RawContributor>) returns (r: Outcome<seq<Contributor>>)
    ensures reply.NotResponse? ==> r == Raises
    ensures reply.Response? && reply.status !in {200, 204} ==> r == Err(StatusOnly)
    ensures reply == Response(204) ==> r == Ok([])
    ensures reply.Ok() ==> r.Ok? && |r.value| == |body|
    ensures reply.Ok() ==> forall i :: 0 <= i < |body| ==> r.value[i] == Describe(body[i])
  {
    if reply.NotResponse? {
      return Raises;
    }
    if reply.status !in {200, 204} {
      return Err(StatusOnly);
    }
    var list: seq<Contributor> := [];
    if reply.status == 200 {
      list := DescribeAll(body);
    }
    return Ok(list);
  }

  /** The toolkit version as written: its type test is inverted, so every
      response, successful or not, is reported as an error, and a call that
      produced no response raises when its status is read. No outcome
      carries contributors. */
  method GetRepoContributorsToolkit(reply: Reply, body: seq<RawContributor>) returns (r: Outcome<seq<Contributor>>)
    ensures reply.Response? ==> r == Err(GettingContributors)
    ensures reply.NotResponse? ==> r == Raises
    ensures !r.Ok?
  {
    if reply.Response? {
      return Err(GettingContributors);
    }
    return Raises;
  }

  /** The toolkit version with the type test the other toolkit calls make:
      no response is the error message, and a response with status 200
      gives the described body and any other response an empty list. On a
      200 or 204 it agrees with the `requests` version. */
  method GetRepoContributorsToolkitIntended(reply: Reply, body: seq<RawContributor>) returns (r: Outcome<seq<Contributor>>)
    ensures reply.NotResponse? ==> r == Err(GettingContributors)
    ensures reply.Response? ==> r.Ok?
    ensures reply.Response? && reply.status != 200 ==> r == Ok([])
    ensures reply.Ok() ==> |r.value| == |body| && forall i :: 0 <= i < |body| ==> r.value[i] == Describe(body[i])
  {
    if !reply.Response? {
      return Err(GettingContributors);
    }
    var list: seq<Contributor> := [];
    if reply.status == 200 {
      list := DescribeAll(body);
    }
    return Ok(list);
  }
}
