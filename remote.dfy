/** The remote side of the repository archive tool: an organisation's
    repositories as GitHub's paginated listing returns them, sorted by push
    date with the newest first. Every HTTP call the tool makes is answered by
    an oracle kept in the `Org` value, so each operation modelled elsewhere is
    a function of that value. */
module Remote {

  datatype Option<+T> = None | Some(value: T)

  /** Every listing call asks for two repositories per page (`per_page: 2`). */
  const PerPage: nat := 2

  /** A repository as the listing and the single-repository call describe it.
      `pushed` is the calendar day of `pushed_at` as a day number; the listing
      and the single-repository call are taken to agree on it. */
  datatype Repo = Repo(name: string, visibility: string, url: string, htmlUrl: string,
                       contributorsUrl: string, archived: bool, pushed: int)

  /** What `gh.get` hands back: an HTTP response with its status code, or a
      value that is not a response. The toolkit client of data_retrieval.py
      returns such a value on a transport error; with the `requests`-based
      clients the same event is an exception, so there `NotResponse` raises. */
  datatype Reply = Response(status: int) | NotResponse {
    predicate Ok() { Response? && status == 200 }
  }

  /** An organisation's repositories of the requested type. Page p (1-based)
      is `pages[p - 1]`; `lastLink` is the page number carried by the `last`
      pagination link of page 1, absent when there is at most one page.
      `listing(p)` answers the listing call for page p and `detail(r)` the
      single-repository call on r's url. */
  datatype Org = Org(pages: seq<seq<Repo>>, lastLink: Option<int>,
                     listing: int -> Reply, detail: Repo -> Reply)

  /** The body of a successful listing call for page p: GitHub answers a page
      past the end with an empty array. */
  function PageAt(org: Org, p: int): seq<Repo>
  {
    if 1 <= p <= |org.pages| then org.pages[p - 1] else []
  }

  /** The archive predicate: pushed on a day strictly before the cutoff. */
  predicate Stale(r: Repo, cutoff: int)
  {
    r.pushed < cutoff
  }

  /** GitHub's pagination: every page holds one or two repositories, all but
      the last hold two, and the `last` link is present exactly when there is
      more than one page. */
  ghost predicate Paginated(org: Org)
  {
    && (forall p :: 0 <= p < |org.pages| ==> 1 <= |org.pages[p]| <= PerPage)
    && (forall p :: 0 <= p < |org.pages| - 1 ==> |org.pages[p]| == PerPage)
    && org.lastLink == (if |org.pages| >= 2 then Some(|org.pages|) else None)
  }

  /** `sort=pushed`: across the pages, in listing order, push days never increase. */
  ghost predicate SortedByPush(org: Org)
  {
    forall p, i, q, j ::
      0 <= p < |org.pages| && 0 <= i < |org.pages[p]| &&
      0 <= q < |org.pages| && 0 <= j < |org.pages[q]| &&
      (p < q || (p == q && i <= j))
      ==> org.pages[q][j].pushed <= org.pages[p][i].pushed
  }

  /** Every single-repository call succeeds. */
  ghost predicate DetailsOk(org: Org)
  {
    forall p, i :: 0 <= p < |org.pages| && 0 <= i < |org.pages[p]| ==> org.detail(org.pages[p][i]).Ok()
  }

  /** Every listing call for pages lo..hi succeeds. */
  ghost predicate ListingsOk(org: Org, lo: int, hi: int)
  {
    forall p :: lo <= p <= hi ==> org.listing(p).Ok()
  }

  /** The page count the tool derives from the first listing: the `last`
      link's page number, or one page when the link is absent. */
  function LastPage(link: Option<int>): int
  {
    match link
    case Some(n) => n
    case None => 1
  }

  /** The fallback is right: on a well-paginated listing the derived page
      count is the number of pages, and one page for an empty organisation. */
  lemma LastPageCountsPages(org: Org)
    requires Paginated(org)
    ensures LastPage(org.lastLink) == (if |org.pages| == 0 then 1 else |org.pages|)
    ensures |org.pages| >= 1 ==> LastPage(org.lastLink) == |org.pages|
  {
  }

  /** A `last` link, when present, names a page number of at least one. */
  predicate LinkSane(org: Org)
  {
    org.lastLink.Some? ==> org.lastLink.value >= 1
  }

  /** The repositories in listing order, page after page. */
  function Flatten(pages: seq<seq<Repo>>): seq<Repo>
  {
    if pages == [] then [] else Flatten(pages[..|pages| - 1]) + pages[|pages| - 1]
  }
}
