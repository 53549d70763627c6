/** The bisection for the cutover page and the collector that walks from it
    to the last page, written once for the three variants of the search.
    Each loop follows the shape it has in every copy; where the copies
    differ the body branches on the `Variant`. */
module Search {
  import opened Remote
  import opened Cutover

  /** The "Point of Failure" an error message names. `StatusOnly` is the
      message of the checked contributors call, which names none. */
  datatype Phase =
    | TestApiCall
    | GettingArchiveFlag
    | GettingIndividualRepositories
    | GettingPageOfRepositories
    | NoRepositoriesFound
    | GettingContributors
    | StatusOnly

  /** What a call of the tool ends in: a value, an error message naming its
      phase, Python's `None`, or an exception. */
  datatype Outcome<+T> = Ok(value: T) | Err(phase: Phase) | NoneResult | Raises

  /** A failed outcome handed on unchanged by a caller that returns another type. */
  function Rethrow<T, U>(o: Outcome<T>): Outcome<U>
    requires !o.Ok?
  {
    match o
    case Err(phase) => Err(phase)
    case NoneResult => NoneResult
    case Raises => Raises
  }

  /** The archive flag of one repository: a boolean, an error message, or an
      exception raised while asking for it. */
  datatype FlagReply = Flag(stale: bool) | FlagError | FlagRaise

  /** Python truthiness of a flag: an error message is a non-empty string. */
  predicate Truthy(f: FlagReply)
  {
    f.Flag? ==> f.stale
  }

  /** The nested `archive_flag` / `archiveFlag` and data_retrieval's
      `get_archive_flag`: the single-repository call, then whether the
      repository was pushed before the cutoff. */
  function ArchiveFlag(org: Org, v: Variant, r: Repo, cutoff: int): (f: FlagReply)
    ensures org.detail(r).Ok() ==> f == Flag(Stale(r, cutoff))
    ensures f.FlagError? <==>
      (v == Requests && org.detail(r).Response? && !org.detail(r).Ok()) ||
      (v == Toolkit && org.detail(r).NotResponse?)
    ensures f.FlagRaise? <==> v != Toolkit && org.detail(r).NotResponse?
    ensures f.Flag? && !org.detail(r).Ok() ==> !f.stale
  {
    match org.detail(r)
    case NotResponse => if v == Toolkit then FlagError else FlagRaise
    case Response(status) =>
      if status == 200 then Flag(Stale(r, cutoff))
      else if v == Requests then FlagError
      else Flag(false)
  }

  /** The flags of the first and last repository of a probed page, or why
      there are none. */
  datatype ProbeReply = Flags(first: bool, last: bool) | ProbeErr | ProbeRaise

  /** One probe: list page `mid` and take the archive flags of its first and
      last repository. A failed listing or an empty page raises while the
      body is indexed; an error message from either flag is returned. */
  function ProbePage(org: Org, v: Variant, cutoff: int, mid: int): (p: ProbeReply)
    ensures p.Flags? ==> org.listing(mid).Ok() && |PageAt(org, mid)| > 0
    ensures p.Flags? ==>
              var page := PageAt(org, mid);
              && (org.detail(page[0]).Ok() ==> p.first == Stale(page[0], cutoff))
              && (org.detail(page[|page| - 1]).Ok() ==> p.last == Stale(page[|page| - 1], cutoff))
    ensures p.ProbeErr? ==> v != Script
    ensures (&& org.listing(mid).Ok() && |PageAt(org, mid)| > 0
             && org.detail(PageAt(org, mid)[0]).Ok()
             && org.detail(PageAt(org, mid)[|PageAt(org, mid)| - 1]).Ok())
            ==> p.Flags?
  {
    var page := PageAt(org, mid);
    if !org.listing(mid).Ok() || page == [] then ProbeRaise
    else
      var a := ArchiveFlag(org, v, page[0], cutoff);
      var b := ArchiveFlag(org, v, page[|page| - 1], cutoff);
      if a.FlagRaise? || b.FlagRaise? then ProbeRaise
      else if a.FlagError? || b.FlagError? then ProbeErr
      else Flags(a.stale, b.stale)
  }

  /** The adjacent-pointer branch when no probe has run: page `mid` is
      listed again and its flags taken without checking for error messages.
      data_retrieval.py reports an empty page and otherwise calls an
      undefined name; the earliest script also prints the second
      repository's url, which raises on a one-repository page. */
  function UnprobedFlags(org: Org, v: Variant, cutoff: int, mid: int): (q: Outcome<(bool, bool)>)
    ensures v == Toolkit ==>
      q == (if org.listing(mid).Ok() && PageAt(org, mid) == [] then Err(NoRepositoriesFound) else Raises)
    ensures v != Toolkit ==> q.Ok? || q.Raises?
    ensures q.Ok? ==> v != Toolkit && org.listing(mid).Ok() && |PageAt(org, mid)| > 0
    ensures q.Ok? ==>
              var page := PageAt(org, mid);
              && (org.detail(page[0]).Ok() ==> q.value.0 == Stale(page[0], cutoff))
              && (org.detail(page[|page| - 1]).Ok() ==> q.value.1 == Stale(page[|page| - 1], cutoff))
    ensures (&& v != Toolkit && org.listing(mid).Ok()
             && |PageAt(org, mid)| >= (if v == Script then 2 else 1)
             && org.detail(PageAt(org, mid)[0]).Ok()
             && org.detail(PageAt(org, mid)[|PageAt(org, mid)| - 1]).Ok())
            ==> q.Ok?
  {
    var page := PageAt(org, mid);
    if v == Toolkit then
      if org.listing(mid).Ok() && page == [] then Err(NoRepositoriesFound) else Raises
    else if !org.listing(mid).Ok() || page == [] then Raises
    else
      var a := ArchiveFlag(org, v, page[0], cutoff);
      var b := ArchiveFlag(org, v, page[|page| - 1], cutoff);
      if a.FlagRaise? || b.FlagRaise? || (v == Script && |page| < 2) then Raises
      else Ok((Truthy(a), Truthy(b)))
  }

  /** The earliest script's loop tests only `upper - lower != 1`, so with a
      single page it probes page 1 with both pointers on it. When that probe
      neither fails nor finds the page split, no pointer moves. */
  ghost predicate SpinsOnOnePage(org: Org, cutoff: int)
  {
    && ProbePage(org, Script, cutoff, 1).Flags?
    && (ProbePage(org, Script, cutoff, 1).first || !ProbePage(org, Script, cutoff, 1).last)
  }

  /** The pointer update after a probe with flags (first, last) at `mid`:
      the new lower pointer, upper pointer and whether the page was found. */
  function Advance(lower: int, upper: int, mid: int, first: bool, last: bool): (s: (int, int, bool))
    ensures !first && last ==> s == (lower, upper, true)
    ensures first && last ==> s == (lower, mid, false)
    ensures !last ==> s == (mid, upper, false)
  {
    if !first && last then (lower, upper, true)
    else if first && last then (lower, mid, false)
    else (mid, upper, false)
  }

  /** The earliest script on a one-page organisation: when the probe of
      page 1 leaves it unsplit, the loop state after an iteration equals
      the state before it, and the loop never ends. */
  lemma SpinningProbeChangesNothing(org: Org, cutoff: int)
    requires SpinsOnOnePage(org, cutoff)
    ensures Midpoint(1, 1) == 1
    ensures var p := ProbePage(org, Script, cutoff, Midpoint(1, 1));
      Advance(1, 1, Midpoint(1, 1), p.first, p.last) == (1, 1, false)
  {
  }

  /** An organisation with one page whose two repositories were both pushed
      on or after the cutoff makes the earliest script spin. */
  lemma OneFreshPageSpins(r1: Repo, r2: Repo, cutoff: int, listing: int -> Reply, detail: Repo -> Reply)
    requires r1.pushed >= cutoff && r2.pushed >= cutoff
    requires listing(1) == Response(200) && detail(r1) == Response(200) && detail(r2) == Response(200)
    ensures SpinsOnOnePage(Org([[r1, r2]], None, listing, detail), cutoff)
  {
  }

  /** Whether the loop probes: the earliest script probes unless the
      pointers are adjacent, the other copies unless they are adjacent or equal. */
  predicate ProbeGuard(v: Variant, gap: int)
  {
    if v == Script then gap != 1 else gap != 1 && gap != 0
  }

  /** The adjacent-pointer resolution: both flags stale gives the lower
      pointer, both fresh the upper one, otherwise the midpoint stays. */
  function Resolve(lower: int, upper: int, mid: int, first: bool, last: bool): (page: int)
    ensures page == lower || page == upper || page == mid
    ensures first && last ==> page == lower
    ensures !first && !last ==> page == upper
    ensures first != last ==> page == mid
  {
    if first && last then lower else if !first && !last then upper else mid
  }

  /** The adjacent-pointer branch: the flags of the last probe, or when no
      probe has run those of page `mid` taken afresh, decide the page. */
  function Settle(org: Org, v: Variant, cutoff: int, lower: int, upper: int, mid: int,
                  seen: Option<(bool, bool)>): (r: Outcome<int>)
    ensures r.Ok? ==> r.value == lower || r.value == upper || r.value == mid
    ensures r.Err? ==> v == Toolkit && r.phase == NoRepositoriesFound
    ensures r.Ok? || r.Err? || r.Raises?
    ensures seen.Some? ==> r == Ok(Resolve(lower, upper, mid, seen.value.0, seen.value.1))
    ensures seen.None? && v == Toolkit ==> !r.Ok?
  {
    var flags := if seen.Some? then Ok(seen.value) else UnprobedFlags(org, v, cutoff, mid);
    match flags
    case Ok(ab) => Ok(Resolve(lower, upper, mid, ab.0, ab.1))
    case Err(phase) => Err(phase)
    case _ => Raises
  }

  /** The bisection as a function of the loop state: the pointers, the last
      probed page, and the flags of the last probe once one has run (`seen`;
      in the source these names are unbound until then). */
  function Bisect(org: Org, v: Variant, cutoff: int, lower: int, upper: int, mid: int,
                  seen: Option<(bool, bool)>): (r: Outcome<int>)
    requires 1 <= lower <= mid <= upper
    requires v == Script && lower == upper ==> lower == 1 && !SpinsOnOnePage(org, cutoff)
    decreases upper - lower
  {
    if ProbeGuard(v, upper - lower) then
      var m := Midpoint(lower, upper);
      match ProbePage(org, v, cutoff, m)
      case ProbeRaise => Raises
      case ProbeErr => Err(GettingArchiveFlag)
      case Flags(a, b) =>
        var s := Advance(lower, upper, m, a, b);
        if s.2 then Ok(m) else Bisect(org, v, cutoff, s.0, s.1, m, Some((a, b)))
    else
      Settle(org, v, cutoff, lower, upper, mid, seen)
  }

  /** The earliest script with both pointers on page 1 and a probe that
      yields flags settles on page 1. */
  lemma OnePageSettles(org: Org, cutoff: int, seen: Option<(bool, bool)>)
    requires !SpinsOnOnePage(org, cutoff)
    requires ProbePage(org, Script, cutoff, 1).Flags?
    ensures Bisect(org, Script, cutoff, 1, 1, 1, seen) == Ok(1)
  {
    ProbeAtNarrowGap(1, 1);
  }

  /** With both pointers on page 1, a probe without flags raises. */
  lemma OnePageFails(org: Org, cutoff: int, seen: Option<(bool, bool)>)
    requires !SpinsOnOnePage(org, cutoff)
    requires !ProbePage(org, Script, cutoff, 1).Flags?
    ensures Bisect(org, Script, cutoff, 1, 1, 1, seen) == Raises
  {
    ProbeAtNarrowGap(1, 1);
  }

  /** One probe with the pointers two or more pages apart: the bisection
      settles only through a probe that yields flags, and then continues
      on the half the flags select. */
  lemma BisectProbeStep(org: Org, v: Variant, cutoff: int, lower: int, upper: int, mid: int,
                        seen: Option<(bool, bool)>)
    requires 1 <= lower <= mid <= upper && upper - lower >= 2
    ensures var m := Midpoint(lower, upper);
      var p := ProbePage(org, v, cutoff, m);
      var r := Bisect(org, v, cutoff, lower, upper, mid, seen);
      && lower < m < upper
      && (p.ProbeRaise? ==> r == Raises)
      && (p.ProbeErr? ==> r == Err(GettingArchiveFlag))
      && (p.Flags? ==>
            r == if !p.first && p.last then Ok(m)
                 else if p.first && p.last then Bisect(org, v, cutoff, lower, m, m, Some((p.first, p.last)))
                 else Bisect(org, v, cutoff, m, upper, m, Some((p.first, p.last))))
  {
    ProbeStrictlyInside(lower, upper);
  }

  /** Adjacent pointers (or, outside the earliest script, equal ones) end
      the bisection in the resolution. */
  lemma BisectSettleStep(org: Org, v: Variant, cutoff: int, lower: int, upper: int, mid: int,
                         seen: Option<(bool, bool)>)
    requires 1 <= lower <= mid <= upper
    requires v == Script && lower == upper ==> lower == 1 && !SpinsOnOnePage(org, cutoff)
    requires !ProbeGuard(v, upper - lower)
    ensures Bisect(org, v, cutoff, lower, upper, mid, seen) == Settle(org, v, cutoff, lower, upper, mid, seen)
  {
  }

  /** data_retrieval.py over one or two pages never probes: page 1 listed
      empty is reported as no repositories found, anything else raises. */
  lemma ToolkitNeverProbesShortListing(org: Org, cutoff: int, last: int)
    requires 1 <= last <= 2
    ensures Bisect(org, Toolkit, cutoff, 1, last, 1, None)
         == if org.listing(1).Ok() && PageAt(org, 1) == [] then Err(NoRepositoriesFound) else Raises
  {
  }

  /** What the loop knows about the pages between its pointers when the
      listing is sorted and every single-repository call succeeds. */
  ghost predicate Bracketed(org: Org, cutoff: int, lower: int, upper: int, mid: int, seen: Option<(bool, bool)>)
  {
    && upper <= |org.pages|
    && (lower > 1 ==> FreshThrough(org, cutoff, lower))
    && (upper < |org.pages| ==> StaleFrom(org, cutoff, upper))
    && (seen.None? ==> lower == 1 && mid == 1)
    && (seen.Some? ==>
          var (a, b) := seen.value;
          && lower < upper
          && (a || !b)
          && (a ==> b && StaleFrom(org, cutoff, upper))
          && (!a ==> lower > 1 && mid == lower))
  }

  /** One probe on a sorted listing keeps what the loop knows: a split page
      is a cutover page, a stale page becomes the upper pointer and a fresh
      one the lower pointer. */
  lemma ProbeKeepsBracket(org: Org, v: Variant, cutoff: int, lower: int, upper: int, mid: int,
                          seen: Option<(bool, bool)>, m: int)
    requires 1 <= lower <= mid <= upper
    requires SortedByPush(org) && DetailsOk(org)
    requires Bracketed(org, cutoff, lower, upper, mid, seen)
    requires lower < m < upper
    requires ProbePage(org, v, cutoff, m).Flags?
    ensures var p := ProbePage(org, v, cutoff, m);
      && (!p.first && p.last ==> IsCutover(org, cutoff, m))
      && (p.first && p.last ==> Bracketed(org, cutoff, lower, m, m, Some((p.first, p.last))))
      && (!p.last ==> Bracketed(org, cutoff, m, upper, m, Some((p.first, p.last))))
  {
    var page := org.pages[m - 1];
    assert PageAt(org, m) == page;
    PageBounds(org, cutoff, m);
  }

  /** The adjacent-pointer resolution on a sorted listing settles on a
      cutover page. */
  lemma SettleFindsCutover(org: Org, v: Variant, cutoff: int, lower: int, upper: int, mid: int,
                           seen: Option<(bool, bool)>)
    requires 1 <= lower <= mid <= upper
    requires upper - lower <= 1
    requires SortedByPush(org) && DetailsOk(org)
    requires Bracketed(org, cutoff, lower, upper, mid, seen)
    ensures var r := Settle(org, v, cutoff, lower, upper, mid, seen);
      r.Ok? ==> IsCutover(org, cutoff, r.value)
  {
    if seen.None? {
      var q := UnprobedFlags(org, v, cutoff, mid);
      if q.Ok? {
        assert PageAt(org, 1) == org.pages[0];
        PageBounds(org, cutoff, 1);
      }
    }
  }

  /** The earliest script's probe of a single page, when it does not spin
      and yields flags, has found a cutover page. */
  lemma OnePageProbeFindsCutover(org: Org, cutoff: int)
    requires |org.pages| >= 1
    requires SortedByPush(org) && DetailsOk(org)
    requires !SpinsOnOnePage(org, cutoff) && ProbePage(org, Script, cutoff, 1).Flags?
    ensures IsCutover(org, cutoff, 1)
  {
    var page := org.pages[0];
    assert PageAt(org, 1) == page;
    assert org.detail(page[0]).Ok() && org.detail(page[|page| - 1]).Ok();
    ProbeFindsCutover(org, cutoff, 1);
  }

  /** What a bisection between `lower` and `upper` can end in: a page
      between the pointers, an error message only from the copies that
      check the flag for one, never `None`, and in data_retrieval.py a page
      only after a probe has run. */
  predicate Plausible(v: Variant, lower: int, upper: int, seen: Option<(bool, bool)>, r: Outcome<int>)
  {
    && (r.Ok? ==> lower <= r.value <= upper)
    && (r.Err? ==>
          || (v == Requests && r.phase == GettingArchiveFlag)
          || (v == Toolkit && (r.phase == GettingArchiveFlag || r.phase == NoRepositoriesFound)))
    && !r.NoneResult?
    && (r.Ok? && v == Toolkit && seen.None? ==> upper - lower >= 2)
  }

  /** Every bisection ends in a plausible outcome. */
  lemma {:induction false} BisectOutcomes(org: Org, v: Variant, cutoff: int, lower: int, upper: int, mid: int,
                                           seen: Option<(bool, bool)>)
    requires 1 <= lower <= mid <= upper
    requires v == Script && lower == upper ==> lower == 1 && !SpinsOnOnePage(org, cutoff)
    ensures Plausible(v, lower, upper, seen, Bisect(org, v, cutoff, lower, upper, mid, seen))
    decreases upper - lower
  {
    if !ProbeGuard(v, upper - lower) {
      BisectSettleStep(org, v, cutoff, lower, upper, mid, seen);
    } else if upper - lower >= 2 {
      BisectProbeStep(org, v, cutoff, lower, upper, mid, seen);
      var m := Midpoint(lower, upper);
      var p := ProbePage(org, v, cutoff, m);
      if p.Flags? {
        if p.first && p.last {
          BisectOutcomes(org, v, cutoff, lower, m, m, Some((p.first, p.last)));
        } else if !(!p.first && p.last) {
          BisectOutcomes(org, v, cutoff, m, upper, m, Some((p.first, p.last)));
        }
      }
    } else if ProbePage(org, Script, cutoff, 1).Flags? {
      OnePageSettles(org, cutoff, seen);
    } else {
      OnePageFails(org, cutoff, seen);
    }
  }

  /** Soundness: on a sorted listing with successful single-repository
      calls, a page the bisection settles on is a cutover page. */
  lemma {:induction false} BisectFindsCutover(org: Org, v: Variant, cutoff: int, lower: int, upper: int, mid: int,
                                               seen: Option<(bool, bool)>)
    requires 1 <= lower <= mid <= upper
    requires v == Script && lower == upper ==> lower == 1 && !SpinsOnOnePage(org, cutoff)
    requires SortedByPush(org) && DetailsOk(org)
    requires Bracketed(org, cutoff, lower, upper, mid, seen)
    ensures var r := Bisect(org, v, cutoff, lower, upper, mid, seen);
      r.Ok? ==> IsCutover(org, cutoff, r.value)
    decreases upper - lower
  {
    if !ProbeGuard(v, upper - lower) {
      SettleFindsCutover(org, v, cutoff, lower, upper, mid, seen);
    } else if upper == lower {
      if ProbePage(org, v, cutoff, 1).Flags? {
        OnePageSettles(org, cutoff, seen);
        OnePageProbeFindsCutover(org, cutoff);
      } else {
        OnePageFails(org, cutoff, seen);
      }
    } else {
      BisectProbeStep(org, v, cutoff, lower, upper, mid, seen);
      var m := Midpoint(lower, upper);
      var p := ProbePage(org, v, cutoff, m);
      if p.Flags? {
        ProbeKeepsBracket(org, v, cutoff, lower, upper, mid, seen, m);
        if !p.first && p.last {
        } else if p.first && p.last {
          BisectFindsCutover(org, v, cutoff, lower, m, m, Some((p.first, p.last)));
        } else {
          BisectFindsCutover(org, v, cutoff, m, upper, m, Some((p.first, p.last)));
        }
      }
    }
  }

  /** On a well-paginated listing where every call succeeds, a probe inside
      the listing yields flags. */
  lemma ProbeSucceeds(org: Org, v: Variant, cutoff: int, m: int)
    requires 1 <= m <= |org.pages|
    requires Paginated(org) && ListingsOk(org, 1, |org.pages|) && DetailsOk(org)
    ensures ProbePage(org, v, cutoff, m).Flags?
  {
    assert PageAt(org, m) == org.pages[m - 1];
  }

  /** On a well-paginated listing where every call succeeds, the
      resolution settles unless data_retrieval.py has not probed. */
  lemma SettleSucceeds(org: Org, v: Variant, cutoff: int, lower: int, upper: int, mid: int,
                       seen: Option<(bool, bool)>)
    requires 1 <= lower <= mid <= upper <= |org.pages|
    requires v == Script ==> upper - lower == 1
    requires Paginated(org) && ListingsOk(org, 1, |org.pages|) && DetailsOk(org)
    requires seen.None? ==> lower == 1 && mid == 1 && v != Toolkit
    ensures Settle(org, v, cutoff, lower, upper, mid, seen).Ok?
  {
    if seen.None? {
      assert PageAt(org, 1) == org.pages[0];
    }
  }

  /** data_retrieval.py's adjacent-pointer branch with no earlier probe, as
      intended: the flags of page `mid` taken with `get_archive_flag`, as
      its probe takes them, instead of the unbound `archive_flag`. A failed
      listing still raises when its body is indexed, and an empty page is
      still reported. A flag message is a non-empty string, so it counts as
      true. */
  function UnprobedFlagsToolkitIntended(org: Org, cutoff: int, mid: int): (q: Outcome<(bool, bool)>)
    ensures q.Err? <==> org.listing(mid).Ok() && PageAt(org, mid) == []
    ensures q.Err? ==> q.phase == NoRepositoriesFound
    ensures q.Ok? <==> org.listing(mid).Ok() && |PageAt(org, mid)| > 0
    ensures q.Ok? ==>
              var page := PageAt(org, mid);
              && (org.detail(page[0]).Ok() ==> q.value.0 == Stale(page[0], cutoff))
              && (org.detail(page[|page| - 1]).Ok() ==> q.value.1 == Stale(page[|page| - 1], cutoff))
  {
    var page := PageAt(org, mid);
    if !org.listing(mid).Ok() then Raises
    else if page == [] then Err(NoRepositoriesFound)
    else Ok((Truthy(ArchiveFlag(org, Toolkit, page[0], cutoff)),
             Truthy(ArchiveFlag(org, Toolkit, page[|page| - 1], cutoff))))
  }

  /** With the intended flags, data_retrieval.py over one or two pages
      settles on a cutover page of a sorted listing whose calls succeed,
      where as written it raises. */
  lemma ToolkitIntendedSettlesShortListing(org: Org, cutoff: int)
    requires 1 <= |org.pages| <= 2
    requires Paginated(org) && SortedByPush(org) && ListingsOk(org, 1, |org.pages|) && DetailsOk(org)
    ensures var q := UnprobedFlagsToolkitIntended(org, cutoff, 1);
      q.Ok? && IsCutover(org, cutoff, Resolve(1, |org.pages|, 1, q.value.0, q.value.1))
  {
    var last := |org.pages|;
    assert PageAt(org, 1) == org.pages[0];
    SettleSucceeds(org, Requests, cutoff, 1, last, 1, None);
    SettleFindsCutover(org, Requests, cutoff, 1, last, 1, None);
  }

  /** Liveness: on a well-paginated listing where every call succeeds the
      bisection settles, except that data_retrieval.py needs a probe. */
  lemma {:induction false} BisectSettles(org: Org, v: Variant, cutoff: int, lower: int, upper: int, mid: int,
                                          seen: Option<(bool, bool)>)
    requires 1 <= lower <= mid <= upper <= |org.pages|
    requires v == Script && lower == upper ==> lower == 1 && !SpinsOnOnePage(org, cutoff)
    requires Paginated(org) && ListingsOk(org, 1, |org.pages|) && DetailsOk(org)
    requires seen.None? ==> lower == 1 && mid == 1 && (v == Toolkit ==> upper - lower >= 2)
    ensures Bisect(org, v, cutoff, lower, upper, mid, seen).Ok?
    decreases upper - lower
  {
    if !ProbeGuard(v, upper - lower) {
      BisectSettleStep(org, v, cutoff, lower, upper, mid, seen);
      SettleSucceeds(org, v, cutoff, lower, upper, mid, seen);
    } else if upper - lower >= 2 {
      BisectProbeStep(org, v, cutoff, lower, upper, mid, seen);
      var m := Midpoint(lower, upper);
      ProbeSucceeds(org, v, cutoff, m);
      var p := ProbePage(org, v, cutoff, m);
      if p.first && p.last {
        BisectSettles(org, v, cutoff, lower, m, m, Some((p.first, p.last)));
      } else if !(!p.first && p.last) {
        BisectSettles(org, v, cutoff, m, upper, m, Some((p.first, p.last)));
      }
    } else {
      ProbeSucceeds(org, Script, cutoff, 1);
      OnePageSettles(org, cutoff, seen);
    }
  }

  /** End to end on a sorted listing with successful single-repository
      calls: the page the bisection settles on is a cutover page, and
      walking from it to the last page with the strict collector gives the
      reference candidates. */
  lemma BisectCollectsCandidates(org: Org, v: Variant, cutoff: int, last: int)
    requires last >= 1
    requires v == Script && last == 1 ==> !SpinsOnOnePage(org, cutoff)
    requires last == |org.pages| && SortedByPush(org) && DetailsOk(org)
    requires Bisect(org, v, cutoff, 1, last, 1, None).Ok?
    ensures var P := Bisect(org, v, cutoff, 1, last, 1, None).value;
      && IsCutover(org, cutoff, P) && 1 <= P <= last
      && Gathered(org, cutoff, P, P, last, Requests) == Candidates(org, cutoff)
  {
    BisectOutcomes(org, v, cutoff, 1, last, 1, None);
    BisectFindsCutover(org, v, cutoff, 1, last, 1, None);
    CutoverCollectsCandidates(org, cutoff, Bisect(org, v, cutoff, 1, last, 1, None).value);
  }

  /** Finds the cutover page: the bisection loop with its adjacent-pointer
      resolution over `last` pages, proved to compute `Bisect` from the
      initial pointers. What the result means is proved about `Bisect`:
      `BisectFindsCutover`, `BisectSettles`, `ToolkitNeverProbesShortListing`. */
  method Locate(org: Org, v: Variant, cutoff: int, last: int) returns (r: Outcome<int>)
    requires last >= 1
    requires v == Script && last == 1 ==> !SpinsOnOnePage(org, cutoff)
    ensures r == Bisect(org, v, cutoff, 1, last, 1, None)
    ensures r.Ok? ==> 1 <= r.value <= last
    ensures r.Err? ==>
              || (v == Requests && r.phase == GettingArchiveFlag)
              || (v == Toolkit && (r.phase == GettingArchiveFlag || r.phase == NoRepositoriesFound))
    ensures !r.NoneResult?
    ensures r.Ok? && v == Toolkit ==> last >= 3
  {
    BisectOutcomes(org, v, cutoff, 1, last, 1, None);
    ghost var goal := Bisect(org, v, cutoff, 1, last, 1, None);
    var lower, upper, mid := 1, last, 1;
    var found := false;
    var seen: Option<(bool, bool)> := None;
    while !found
      invariant 1 <= lower <= mid <= upper <= last
      invariant lower == upper ==> lower == 1 && upper == last
      invariant !found ==> goal == Bisect(org, v, cutoff, lower, upper, mid, seen)
      invariant found ==> goal == Ok(mid)
      decreases (if found then 0 else 1), upper - lower
    {
      if ProbeGuard(v, upper - lower) {
        if upper - lower >= 2 {
          BisectProbeStep(org, v, cutoff, lower, upper, mid, seen);
        } else if ProbePage(org, v, cutoff, 1).Flags? {
          ProbeAtNarrowGap(lower, upper);
          OnePageSettles(org, cutoff, seen);
        } else {
          ProbeAtNarrowGap(lower, upper);
          OnePageFails(org, cutoff, seen);
        }
        mid := Midpoint(lower, upper);
        var p := ProbePage(org, v, cutoff, mid);
        if p.ProbeRaise? {
          return Raises;
        }
        if p.ProbeErr? {
          return Err(GettingArchiveFlag);
        }
        seen := Some((p.first, p.last));
        if !p.first && p.last {
          found := true;
        } else if p.first && p.last {
          upper := mid;
        } else {
          lower := mid;
        }
      } else {
        BisectSettleStep(org, v, cutoff, lower, upper, mid, seen);
        if seen.None? {
          var q := UnprobedFlags(org, v, cutoff, mid);
          if q.Err? {
            return Err(q.phase);
          } else if !q.Ok? {
            return Raises;
          }
          seen := Some(q.value);
        }
        var (first, lastFlag) := seen.value;
        if first && lastFlag {
          mid := lower;
        }
        if !first && !lastFlag {
          mid := upper;
        }
        found := true;
      }
    }
    r := Ok(mid);
  }

  /** The collector refuses a page's listing: for `Requests` any failure,
      for the others only a call that produced no response. */
  predicate PageFatal(v: Variant, reply: Reply)
  {
    if v == Requests then !reply.Ok() else reply.NotResponse?
  }

  /** The collector refuses a single-repository call: for `Toolkit` only a
      call that produced no response, for the others any failure. */
  predicate DetailFatal(v: Variant, reply: Reply)
  {
    if v == Toolkit then reply.NotResponse? else !reply.Ok()
  }

  /** With every call succeeding, the whole search succeeds: the bisection
      settles on a page of the listing and the collector from it to the
      last page is refused nothing. */
  lemma SearchSucceeds(org: Org, v: Variant, cutoff: int)
    requires Paginated(org) && |org.pages| >= 1 && ListingsOk(org, 1, |org.pages|) && DetailsOk(org)
    requires v == Script && |org.pages| == 1 ==> !SpinsOnOnePage(org, cutoff)
    requires v == Toolkit ==> |org.pages| >= 3
    ensures var last := LastPage(org.lastLink);
      var b := Bisect(org, v, cutoff, 1, last, 1, None);
      && last == |org.pages| && b.Ok? && 1 <= b.value <= last && Unfaulted(org, v, b.value, last)
  {
    var last := LastPage(org.lastLink);
    LastPageCountsPages(org);
    BisectSettles(org, v, cutoff, 1, last, 1, None);
    BisectOutcomes(org, v, cutoff, 1, last, 1, None);
    AllOkUnfaulted(org, v, Bisect(org, v, cutoff, 1, last, 1, None).value, last);
  }

  /** On a sorted listing whose single-repository calls succeed, what any
      copy collects from the page its bisection settles on is exactly the
      candidates. */
  lemma SearchSound(org: Org, v: Variant, cutoff: int, P: int)
    requires Paginated(org) && SortedByPush(org) && DetailsOk(org)
    requires v != Requests ==> ListingsOk(org, 1, |org.pages|)
    requires LastPage(org.lastLink) >= 1
    requires v == Script && LastPage(org.lastLink) == 1 ==> !SpinsOnOnePage(org, cutoff)
    requires Bisect(org, v, cutoff, 1, LastPage(org.lastLink), 1, None) == Ok(P)
    ensures Gathered(org, cutoff, P, P, LastPage(org.lastLink), v) == Candidates(org, cutoff)
  {
    var last := LastPage(org.lastLink);
    LastPageCountsPages(org);
    if |org.pages| >= 1 {
      BisectCollectsCandidates(org, v, cutoff, last);
      if v != Requests {
        GatheredIgnoresVariant(org, cutoff, P, P, last, v);
      }
    }
  }

  /** No call the collector makes for pages lo..hi is refused. */
  ghost predicate Unfaulted(org: Org, v: Variant, lo: int, hi: int)
  {
    forall p :: lo <= p <= hi ==> PageUnfaulted(org, v, p)
  }

  /** No call the collector makes for page p is refused. */
  ghost predicate PageUnfaulted(org: Org, v: Variant, p: int)
  {
    && !PageFatal(v, org.listing(p))
    && (org.listing(p).Ok() ==> forall j :: 0 <= j < |PageAt(org, p)| ==> !DetailFatal(v, org.detail(PageAt(org, p)[j])))
  }

  /** When every listing and single-repository call succeeds, no call is refused. */
  lemma AllOkUnfaulted(org: Org, v: Variant, lo: int, hi: int)
    requires ListingsOk(org, lo, hi) && DetailsOk(org)
    ensures Unfaulted(org, v, lo, hi)
  {
    forall p | lo <= p <= hi
      ensures forall j :: 0 <= j < |PageAt(org, p)| ==> org.detail(PageAt(org, p)[j]).Ok()
    {
      if 1 <= p <= |org.pages| {
        assert PageAt(org, p) == org.pages[p - 1];
      }
    }
  }

  /** The inner loop of the collector over one listed page: each
      repository's single-repository call, then the repository is kept as
      `Keeps` says. It succeeds exactly when no call is refused. */
  method KeepPage(org: Org, v: Variant, cutoff: int, page: seq<Repo>, dated: bool) returns (r: Outcome<seq<Repo>>)
    ensures r.Ok? <==> forall j :: 0 <= j < |page| ==> !DetailFatal(v, org.detail(page[j]))
    ensures r.Ok? ==> r.value == Kept(org, page, cutoff, dated, v)
    ensures r.Err? ==> v == Toolkit && r.phase == GettingIndividualRepositories
    ensures r.Ok? || r.Err? || r.Raises?
  {
    var acc: seq<Repo> := [];
    var j := 0;
    while j < |page|
      invariant 0 <= j <= |page|
      invariant acc == Kept(org, page[..j], cutoff, dated, v)
      invariant forall k :: 0 <= k < j ==> !DetailFatal(v, org.detail(page[k]))
    {
      var repo := page[j];
      var d := org.detail(repo);
      if d.Ok() {
        if !repo.archived && (!dated || Stale(repo, cutoff)) {
          acc := acc + [repo];
        }
      } else if v == Toolkit && d.Response? {
        // an error status for one repository skips it
      } else if v == Toolkit {
        return Err(GettingIndividualRepositories);
      } else {
        return Raises;
      }
      assert page[..j + 1][..j] == page[..j];
      j := j + 1;
    }
    assert page[..j] == page;
    return Ok(acc);
  }

  /** The inner loop as documented: a refused single-repository call ends
      the walk with the "Getting Individual Repositories" message in every
      copy, instead of the `requests` copies raising while they read a
      message out of the page's list body. */
  method KeepPageIntended(org: Org, v: Variant, cutoff: int, page: seq<Repo>, dated: bool) returns (r: Outcome<seq<Repo>>)
    ensures r.Ok? <==> forall j :: 0 <= j < |page| ==> !DetailFatal(v, org.detail(page[j]))
    ensures r.Ok? ==> r.value == Kept(org, page, cutoff, dated, v)
    ensures !r.Ok? ==> r == Err(GettingIndividualRepositories)
  {
    var acc: seq<Repo> := [];
    var j := 0;
    while j < |page|
      invariant 0 <= j <= |page|
      invariant acc == Kept(org, page[..j], cutoff, dated, v)
      invariant forall k :: 0 <= k < j ==> !DetailFatal(v, org.detail(page[k]))
    {
      var repo := page[j];
      var d := org.detail(repo);
      if d.Ok() {
        if !repo.archived && (!dated || Stale(repo, cutoff)) {
          acc := acc + [repo];
        }
      } else if v == Toolkit && d.Response? {
        // an error status for one repository skips it
      } else {
        return Err(GettingIndividualRepositories);
      }
      assert page[..j + 1][..j] == page[..j];
      j := j + 1;
    }
    assert page[..j] == page;
    return Ok(acc);
  }

  /** The collector: walks pages P..last and keeps each repository that is
      not archived and, on page P, was pushed before the cutoff. It succeeds
      exactly when no call is refused, and then returns what `Gathered`
      describes. */
  method Collect(org: Org, v: Variant, cutoff: int, P: int, last: int) returns (r: Outcome<seq<Repo>>)
    requires 1 <= P <= last
    ensures r.Ok? <==> Unfaulted(org, v, P, last)
    ensures r.Ok? ==> r.value == Gathered(org, cutoff, P, P, last, v)
    ensures r.Err? ==> v != Script && r.phase in {GettingPageOfRepositories, GettingIndividualRepositories}
    ensures r.Err? && v == Requests ==> r.phase == GettingPageOfRepositories
    ensures !r.NoneResult?
  {
    var acc: seq<Repo> := [];
    var i := P;
    while i <= last
      invariant P <= i <= last + 1
      invariant acc == Gathered(org, cutoff, P, P, i - 1, v)
      invariant Unfaulted(org, v, P, i - 1)
    {
      var reply := org.listing(i);
      if reply.Ok() {
        var kept := KeepPage(org, v, cutoff, PageAt(org, i), i == P);
        if !kept.Ok? {
          assert !PageUnfaulted(org, v, i);
          return kept;
        }
        acc := acc + kept.value;
      } else if v != Requests && reply.Response? {
        // an error status for a listing skips the page
      } else if (v == Requests && reply.Response?) || v == Toolkit {
        assert !PageUnfaulted(org, v, i);
        return Err(GettingPageOfRepositories);
      } else {
        assert !PageUnfaulted(org, v, i);
        return Raises;
      }
      i := i + 1;
    }
    return Ok(acc);
  }
}
