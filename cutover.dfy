/** The specification the four copies of `get_organisation_repos` share: the
    bisection probe, what a correct cutover page is, and which repositories
    the walk from the cutover page to the last page collects. */
module Cutover {
  import opened Remote

  /** Python's `round(k / 2)` for k >= 0: the nearest integer, and of the
      two nearest the even one when k is odd. */
  function RoundHalfEven(k: nat): (r: nat)
    ensures -1 <= 2 * r - k <= 1
  {
    if k % 2 == 0 then k / 2
    else if (k / 2) % 2 == 0 then k / 2
    else k / 2 + 1
  }

  /** A half is rounded to the even neighbour, and this pins the result
      down: no other natural number is within one half of k / 2 and even
      on a tie. */
  lemma RoundHalfEvenTiesToEven(k: nat, n: nat)
    ensures k % 2 == 1 ==> RoundHalfEven(k) % 2 == 0
    ensures -1 <= 2 * n - k <= 1 && (k % 2 == 1 ==> n % 2 == 0) ==> n == RoundHalfEven(k)
  {
  }

  /** The probed page, `lower + round((upper - lower) / 2)`. With the
      pointers equal or adjacent the rounded half is 0, so the lower pointer
      is returned as it stands. */
  function Midpoint(lower: int, upper: int): int
    requires lower <= upper
  {
    if upper - lower <= 1 then lower else lower + RoundHalfEven(upper - lower)
  }

  /** While the pointers are two or more pages apart, the probe lies strictly
      between them, so either assignment of a pointer narrows the interval. */
  lemma ProbeStrictlyInside(lower: int, upper: int)
    requires upper - lower >= 2
    ensures lower < Midpoint(lower, upper) < upper
  {
  }

  /** With the pointers equal or adjacent the probe is the lower pointer. */
  lemma ProbeAtNarrowGap(lower: int, upper: int)
    requires 0 <= upper - lower <= 1
    ensures Midpoint(lower, upper) == lower
  {
  }

  /** Pages 1..m hold no stale repository. */
  ghost predicate FreshThrough(org: Org, cutoff: int, m: int)
  {
    forall q, j :: 0 <= q < |org.pages| && q < m && 0 <= j < |org.pages[q]| ==> !Stale(org.pages[q][j], cutoff)
  }

  /** Pages m.. hold only stale repositories. */
  ghost predicate StaleFrom(org: Org, cutoff: int, m: int)
  {
    forall q, j :: 0 <= q < |org.pages| && q + 1 >= m && 0 <= j < |org.pages[q]| ==> Stale(org.pages[q][j], cutoff)
  }

  /** P is a cutover page: nothing before it is stale, everything after it is. */
  ghost predicate IsCutover(org: Org, cutoff: int, P: int)
  {
    1 <= P && FreshThrough(org, cutoff, P - 1) && StaleFrom(org, cutoff, P + 1)
  }

  /** What the first and last repository of page m tell under push order:
      a stale first one makes page m and every later page stale, a stale last
      one every later page, a fresh last one page m and every earlier page
      fresh, a fresh first one every earlier page. */
  lemma PageBounds(org: Org, cutoff: int, m: int)
    requires SortedByPush(org)
    requires 1 <= m <= |org.pages| && |org.pages[m - 1]| > 0
    ensures Stale(org.pages[m - 1][0], cutoff) ==> StaleFrom(org, cutoff, m)
    ensures Stale(org.pages[m - 1][|org.pages[m - 1]| - 1], cutoff) ==> StaleFrom(org, cutoff, m + 1)
    ensures !Stale(org.pages[m - 1][|org.pages[m - 1]| - 1], cutoff) ==> FreshThrough(org, cutoff, m)
    ensures !Stale(org.pages[m - 1][0], cutoff) ==> FreshThrough(org, cutoff, m - 1)
  {
    var first := org.pages[m - 1][0];
    var last := org.pages[m - 1][|org.pages[m - 1]| - 1];
    forall q, j | 0 <= q < |org.pages| && q + 1 >= m && 0 <= j < |org.pages[q]|
      ensures org.pages[q][j].pushed <= first.pushed
    {
    }
    forall q, j | 0 <= q < |org.pages| && q + 1 > m && 0 <= j < |org.pages[q]|
      ensures org.pages[q][j].pushed <= last.pushed
    {
    }
    forall q, j | 0 <= q < |org.pages| && q < m && 0 <= j < |org.pages[q]|
      ensures last.pushed <= org.pages[q][j].pushed
    {
    }
    forall q, j | 0 <= q < |org.pages| && q < m - 1 && 0 <= j < |org.pages[q]|
      ensures first.pushed <= org.pages[q][j].pushed
    {
    }
  }

  /** A probe that finds a fresh first and a stale last repository on page m
      has found a cutover page. */
  lemma ProbeFindsCutover(org: Org, cutoff: int, m: int)
    requires SortedByPush(org)
    requires 1 <= m <= |org.pages| && |org.pages[m - 1]| > 0
    requires !Stale(org.pages[m - 1][0], cutoff)
    requires Stale(org.pages[m - 1][|org.pages[m - 1]| - 1], cutoff)
    ensures IsCutover(org, cutoff, m)
  {
    PageBounds(org, cutoff, m);
  }

  /** The copies of the search differ in how they react to failed calls.
      `Requests`: repoarchivetool/api_interface.py and repoarchivetool/apiScript.py,
      where any failure aborts or raises. `Script`: RepoArchiveTool/apiScript.py,
      which skips a page whose listing answered with an error status.
      `Toolkit`: repoarchivetool/data_retrieval.py, which also skips a
      repository whose single-repository call answered with an error status. */
  datatype Variant = Requests | Script | Toolkit

  predicate PageShown(org: Org, p: int, t: Variant)
  {
    t == Requests || org.listing(p).Ok()
  }

  /** Whether the collector keeps r: its call was not skipped, it is not
      archived and, on the cutover page (`dated`), it was pushed before the cutoff. */
  predicate Keeps(org: Org, r: Repo, cutoff: int, dated: bool, t: Variant)
  {
    (t != Toolkit || org.detail(r).Ok()) && !r.archived && (!dated || Stale(r, cutoff))
  }

  /** The repositories of one page the collector keeps, in page order. */
  function Kept(org: Org, page: seq<Repo>, cutoff: int, dated: bool, t: Variant): seq<Repo>
  {
    if page == [] then []
    else
      var r := page[|page| - 1];
      Kept(org, page[..|page| - 1], cutoff, dated, t) + (if Keeps(org, r, cutoff, dated, t) then [r] else [])
  }

  /** What the collector has appended after walking pages lo..hi with cutover P. */
  function Gathered(org: Org, cutoff: int, P: int, lo: int, hi: int, t: Variant): seq<Repo>
    decreases if hi < lo then 0 else hi - lo + 1
  {
    if hi < lo then []
    else
      Gathered(org, cutoff, P, lo, hi - 1, t)
      + (if PageShown(org, hi, t) then Kept(org, PageAt(org, hi), cutoff, hi == P, t) else [])
  }

  /** The reference definition: every repository of the organisation that is
      not archived and was pushed before the cutoff, in listing order. */
  function Candidates(org: Org, cutoff: int): seq<Repo>
  {
    Kept(org, Flatten(org.pages), cutoff, true, Requests)
  }

  lemma {:induction false} KeptAppend(org: Org, a: seq<Repo>, b: seq<Repo>, cutoff: int, dated: bool, t: Variant)
    ensures Kept(org, a + b, cutoff, dated, t) == Kept(org, a, cutoff, dated, t) + Kept(org, b, cutoff, dated, t)
    decreases |b|
  {
    if b == [] {
      assert a + b == a;
    } else {
      var b' := b[..|b| - 1];
      assert (a + b)[..|a + b| - 1] == a + b';
      KeptAppend(org, a, b', cutoff, dated, t);
    }
  }

  /** Every element kept is an element of the page that passes `Keeps`. */
  lemma {:induction false} KeptMembers(org: Org, page: seq<Repo>, cutoff: int, dated: bool, t: Variant)
    ensures forall r :: r in Kept(org, page, cutoff, dated, t) <==> r in page && Keeps(org, r, cutoff, dated, t)
    decreases |page|
  {
    if page != [] {
      var page' := page[..|page| - 1];
      KeptMembers(org, page', cutoff, dated, t);
      assert page == page' + [page[|page| - 1]];
    }
  }

  lemma {:induction false} KeptOnStalePage(org: Org, page: seq<Repo>, cutoff: int, t: Variant)
    requires forall j :: 0 <= j < |page| ==> Stale(page[j], cutoff)
    ensures Kept(org, page, cutoff, false, t) == Kept(org, page, cutoff, true, t)
    decreases |page|
  {
    if page != [] {
      KeptOnStalePage(org, page[..|page| - 1], cutoff, t);
    }
  }

  lemma {:induction false} KeptOnFreshPage(org: Org, page: seq<Repo>, cutoff: int, t: Variant)
    requires forall j :: 0 <= j < |page| ==> !Stale(page[j], cutoff)
    ensures Kept(org, page, cutoff, true, t) == []
    decreases |page|
  {
    if page != [] {
      KeptOnFreshPage(org, page[..|page| - 1], cutoff, t);
    }
  }

  /** When every single-repository call on the page succeeds, skipping
      failed repositories skips nothing. */
  lemma {:induction false} KeptIgnoresVariant(org: Org, page: seq<Repo>, cutoff: int, dated: bool, t: Variant)
    requires forall j :: 0 <= j < |page| ==> org.detail(page[j]).Ok()
    ensures Kept(org, page, cutoff, dated, t) == Kept(org, page, cutoff, dated, Requests)
    decreases |page|
  {
    if page != [] {
      KeptIgnoresVariant(org, page[..|page| - 1], cutoff, dated, t);
    }
  }

  lemma FlattenStep(pages: seq<seq<Repo>>, m: nat)
    requires m < |pages|
    ensures Flatten(pages[..m + 1]) == Flatten(pages[..m]) + pages[m]
  {
    assert pages[..m + 1][..m] == pages[..m];
  }

  /** Before the cutover page nothing is collectable: the stale, unarchived
      repositories of pages 1..m are none when those pages are fresh. */
  lemma {:induction false} NoCandidatesBefore(org: Org, cutoff: int, m: nat)
    requires m <= |org.pages|
    requires FreshThrough(org, cutoff, m)
    ensures Kept(org, Flatten(org.pages[..m]), cutoff, true, Requests) == []
    decreases m
  {
    if m == 0 {
      assert org.pages[..0] == [];
    } else {
      NoCandidatesBefore(org, cutoff, m - 1);
      FlattenStep(org.pages, m - 1);
      KeptAppend(org, Flatten(org.pages[..m - 1]), org.pages[m - 1], cutoff, true, Requests);
      KeptOnFreshPage(org, org.pages[m - 1], cutoff, Requests);
    }
  }

  /** One page further: if walking P..hi-1 matches the candidates of pages
      1..hi-1, walking P..hi matches those of pages 1..hi. */
  lemma GatheredStep(org: Org, cutoff: int, P: int, hi: int)
    requires IsCutover(org, cutoff, P)
    requires P <= hi <= |org.pages|
    requires Gathered(org, cutoff, P, P, hi - 1, Requests) == Kept(org, Flatten(org.pages[..hi - 1]), cutoff, true, Requests)
    ensures Gathered(org, cutoff, P, P, hi, Requests) == Kept(org, Flatten(org.pages[..hi]), cutoff, true, Requests)
  {
    var page := org.pages[hi - 1];
    FlattenStep(org.pages, hi - 1);
    KeptAppend(org, Flatten(org.pages[..hi - 1]), page, cutoff, true, Requests);
    assert Gathered(org, cutoff, P, P, hi, Requests)
        == Gathered(org, cutoff, P, P, hi - 1, Requests) + Kept(org, page, cutoff, hi == P, Requests);
    if hi != P {
      forall j | 0 <= j < |page| ensures Stale(page[j], cutoff) {
        assert org.pages[hi - 1][j] == page[j];
      }
      KeptOnStalePage(org, page, cutoff, Requests);
    }
  }

  /** Walking pages P..hi from a cutover page P collects exactly the stale,
      unarchived repositories of pages 1..hi. */
  lemma {:induction false} GatheredFromCutover(org: Org, cutoff: int, P: int, hi: int)
    requires IsCutover(org, cutoff, P)
    requires P - 1 <= hi <= |org.pages|
    ensures Gathered(org, cutoff, P, P, hi, Requests) == Kept(org, Flatten(org.pages[..hi]), cutoff, true, Requests)
    decreases hi - P + 1
  {
    if hi == P - 1 {
      NoCandidatesBefore(org, cutoff, hi);
    } else {
      GatheredFromCutover(org, cutoff, P, hi - 1);
      GatheredStep(org, cutoff, P, hi);
    }
  }

  /** The collector's end result from any cutover page is the reference set
      of candidates: the repositories pushed before the cutoff that are not
      archived, in listing order. */
  lemma CutoverCollectsCandidates(org: Org, cutoff: int, P: int)
    requires IsCutover(org, cutoff, P) && P <= |org.pages|
    ensures Gathered(org, cutoff, P, P, |org.pages|, Requests) == Candidates(org, cutoff)
  {
    GatheredFromCutover(org, cutoff, P, |org.pages|);
    assert org.pages[..|org.pages|] == org.pages;
  }

  /** When every listing call for pages lo..hi and every single-repository
      call succeeds, the tolerant collectors skip nothing. */
  lemma {:induction false} GatheredIgnoresVariant(org: Org, cutoff: int, P: int, lo: int, hi: int, t: Variant)
    requires ListingsOk(org, lo, hi) && DetailsOk(org)
    ensures Gathered(org, cutoff, P, lo, hi, t) == Gathered(org, cutoff, P, lo, hi, Requests)
    decreases if hi < lo then 0 else hi - lo + 1
  {
    if lo <= hi {
      GatheredIgnoresVariant(org, cutoff, P, lo, hi - 1, t);
      var page := PageAt(org, hi);
      forall j | 0 <= j < |page| ensures org.detail(page[j]).Ok() {
        assert page[j] == org.pages[hi - 1][j];
      }
      KeptIgnoresVariant(org, page, cutoff, hi == P, t);
    }
  }
}
