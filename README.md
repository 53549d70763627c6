# GitHub repository archive tool — a Dafny model

The tool finds an organisation's repositories that have not been pushed
to since a cutoff date. It keeps them in a ledger (repositories.json),
archives those that have waited long enough, and records each archive pass
as a batch (archived.json) that can be undone.

This project models two parts of it and proves their properties:

* **The search** for the repositories to archive (`get_organisation_repos` /
  `GetOrgRepos`). It exists in four copies:
  * repoarchivetool/api_interface.py;
  * repoarchivetool/apiScript.py;
  * repoarchivetool/data_retrieval.py;
  * the earliest script, RepoArchiveTool/apiScript.py.

  The listing is sorted by push date, newest first, two repositories per
  page. Each copy bisects over the pages for the *cutover page*, where the
  stale repositories begin, then walks from that page to the last one and
  keeps the unarchived repositories, re-checking dates only on the cutover
  page. `Search` holds the bisection (`Bisect`, and the loop `Locate` proved
  to compute it) and the collector (`Collect`), written once. Where the
  copies differ, the code branches on a `Variant`:
  * `Requests` covers api_interface.py and apiScript.py, whose loops are the
    same;
  * `Toolkit` covers data_retrieval.py;
  * `Script` covers the earliest script.

  Each copy's top-level method, in its own module, states its error cases and
  two guarantees. Soundness: on a sorted listing with working calls, the
  result is exactly `Candidates`, the unarchived repositories pushed before the
  cutoff, in listing order. Liveness: on a well-paginated listing where every
  call succeeds, the search returns a list from one page on for apiScript.py,
  from one page on for the earliest script when no probe spins, from two pages
  on for api_interface.py and from three pages on for data_retrieval.py. An
  empty organisation never yields a list.
* **The ledger routes** of repoarchivetool/app.py, modelled as the class
  `App.Store`, whose fields hold the two stored lists:
  * admission of newly found repositories, skipping names already listed;
  * the reconcile on load, which ends passed exemptions;
  * setting and clearing an exemption;
  * the archive pass;
  * undoing a batch.

  Each route is a method proved against a specification function in
  `Ledger`. The properties of those functions are proved as lemmas:
  * name uniqueness is kept;
  * admission is idempotent;
  * exactly the eligible entries are attempted, with one row each;
  * removal by shifted index deletes exactly the archived entries and keeps
    the order;
  * batch ids stay sequential;
  * undo works head first and stops at the first failure.

Every remote call is an oracle inside the input, either an `Org` or a
`Ledger.Github`. Dates are day numbers. The current moment is a
`Ledger.Clock` parameter (day, and seconds into the day).

Where the tool's documentation and its code differ, the model follows the
code:

* A batch is appended when the pass wrote at least one row, Success or
  Failed, not only when something was archived (app.py:303).
* Popping at `i - pop_count` over ascending indexes removes exactly the
  archived entries (app.py:309-312). Nothing is lost.
* data_retrieval.py's search returns `None` on a first call that gets an
  error status (lines 83-84 have no else branch).
* A single-repository call that fails during the walk does not give the
  documented "Getting Individual Repositories" message in the `requests`
  copies. They read `["message"]` from the page's list body, which raises
  (api_interface.py:277, apiScript.py:276). The earliest script raises in
  the same way before its `break` (RepoArchiveTool/apiScript.py:218-219).
* Undo leaves a repository in its batch when the repository was unarchived
  but its restore failed (app.py:388-402).
* On one or two pages that search raises, because lines 162-163 call
  `archive_flag`, a name the function only binds later (line 214). The only
  exception is an empty page 1, which gives "No repositories found".

## Model

| member | source | states |
|---|---|---|
| Remote.LastPageCountsPages | repoarchivetool/apiScript.py:167-171 | On a well-paginated listing, the page count read from the `last` link, or 1 without it, is the number of pages. |
| Cutover.RoundHalfEven | repoarchivetool/api_interface.py:185 | Python's `round(k / 2)` lies within one half of k / 2. |
| Cutover.RoundHalfEvenTiesToEven | repoarchivetool/api_interface.py:185 | A tie rounds to the even neighbour, and this pins the result down: any n within a half of k / 2 that is even on a tie equals it. |
| Cutover.ProbeStrictlyInside | repoarchivetool/api_interface.py:182-206 | While the pointers are two or more apart, the probe lies strictly between them, so either pointer update narrows the interval. |
| Cutover.ProbeAtNarrowGap | RepoArchiveTool/apiScript.py:122-125 | With equal or adjacent pointers the probe is the lower pointer. |
| Cutover.PageBounds | repoarchivetool/api_interface.py:201-206 | Under push order, a stale first or last repository of page m makes every later page stale, and a fresh one makes every earlier page fresh (the loop invariant on the pointers). |
| Cutover.ProbeFindsCutover | repoarchivetool/api_interface.py:201-202 | A probe with a fresh first and a stale last repository has found a cutover page. |
| Cutover.KeptMembers | repoarchivetool/api_interface.py:259-267 | The collector keeps a repository of a page iff it is not archived and, on the cutover page, pushed before the cutoff. |
| Cutover.KeptAppend | repoarchivetool/api_interface.py:247-275 | Keeping distributes over concatenation, so output follows page order, then in-page order. |
| Cutover.KeptOnStalePage | repoarchivetool/api_interface.py:258-264 | On an all-stale page the date check changes nothing. |
| Cutover.KeptOnFreshPage | repoarchivetool/api_interface.py:262-264 | A dated all-fresh page yields nothing. |
| Cutover.KeptIgnoresVariant | repoarchivetool/data_retrieval.py:196-197 | When every single-repository call succeeds, skipping failed repositories skips nothing. |
| Cutover.FlattenStep | repoarchivetool/api_interface.py:239 | Listing order is page after page. |
| Cutover.NoCandidatesBefore | repoarchivetool/api_interface.py:231-233 | Pages before the cutover page hold no candidate. |
| Cutover.GatheredStep | repoarchivetool/api_interface.py:239-275 | One more page walked from a cutover page adds exactly that page's candidates. |
| Cutover.GatheredFromCutover | repoarchivetool/api_interface.py:239-281 | Walking pages P..hi from a cutover page P collects exactly the candidates of pages 1..hi. |
| Cutover.CutoverCollectsCandidates | repoarchivetool/api_interface.py:231-281 | From any cutover page the collector's result is the reference `Candidates`. |
| Cutover.GatheredIgnoresVariant | repoarchivetool/data_retrieval.py:187-231 | When every listing and single-repository call succeeds, the tolerant collector's result is the strict one's. |
| Search.ArchiveFlag | repoarchivetool/api_interface.py:142-156 | On 200 the flag is "pushed before the cutoff". The `requests` copies turn an error status into the "Getting Archive Flag" message and raise on a missing response. data_retrieval.py (lines 27-42) gives `False` for an error status and the message only without a response. The earliest script (lines 51-65) gives `False` for an error status, with no error value. |
| Search.ProbePage | repoarchivetool/api_interface.py:185-198 | A probe yields flags only for a listed, non-empty page; the flags are the first and last repository's staleness. A flag message is returned unless the copy is the earliest one. When all its calls succeed the probe yields flags. |
| Search.UnprobedFlags | repoarchivetool/data_retrieval.py:144-163 | The adjacent-pointer branch with no earlier probe: data_retrieval.py reports an empty page and otherwise raises. The other copies take the flags unchecked; the earliest one raises on a one-repository page. |
| Search.Advance | repoarchivetool/api_interface.py:201-206 | A fresh first and a stale last repository end the loop with the pointers unchanged. Both stale make the probed page the upper pointer. A fresh last repository makes it the lower pointer. |
| Search.SpinningProbeChangesNothing | RepoArchiveTool/apiScript.py:122-145 | On one page, a probe that does not find page 1 split leaves the loop state unchanged, so the loop never ends. |
| Search.OneFreshPageSpins | RepoArchiveTool/apiScript.py:122-145 | One page of two repositories pushed on or after the cutoff makes the earliest script spin. |
| Search.Resolve | repoarchivetool/api_interface.py:224-229 | Both flags stale give the lower pointer, both fresh the upper, and mixed flags keep the probed page. |
| Search.Settle | repoarchivetool/api_interface.py:208-229 | The adjacent-pointer branch settles on the lower pointer, upper pointer or last probe. data_retrieval.py never settles there without an earlier probe. |
| Search.BisectOutcomes | repoarchivetool/api_interface.py:182-229 | The bisection ends on a page between its pointers, with a message only from copies that check flags, never `None`. In data_retrieval.py it ends on a page only after a probe. |
| Search.BisectProbeStep | repoarchivetool/api_interface.py:183-206 | With pointers two or more apart, one probe continues on the half its flags select, or stops on a split page or a failed probe. |
| Search.BisectSettleStep | repoarchivetool/api_interface.py:208-229 | Adjacent pointers, or equal ones outside the earliest script, end the bisection in the resolution. |
| Search.OnePageSettles | RepoArchiveTool/apiScript.py:122-145 | The earliest script on one page settles on page 1 when its probe yields flags and does not spin. |
| Search.OnePageFails | RepoArchiveTool/apiScript.py:127-131 | The earliest script on one page raises when its probe yields no flags. |
| Search.ToolkitNeverProbesShortListing | repoarchivetool/data_retrieval.py:144-170 | Over one or two pages data_retrieval.py never probes. An empty page 1 gives "No repositories found"; anything else raises. |
| Search.ProbeKeepsBracket | repoarchivetool/api_interface.py:201-206 | On a sorted listing a probe keeps the invariant: pages before the lower pointer are fresh, pages after the upper pointer stale. A split page is a cutover page. |
| Search.SettleFindsCutover | repoarchivetool/api_interface.py:208-229 | On a sorted listing the resolution settles on a cutover page, including the one- and two-page paths that probe without an earlier probe. |
| Search.OnePageProbeFindsCutover | RepoArchiveTool/apiScript.py:122-145 | A one-page probe that does not spin has found a cutover page. |
| Search.BisectFindsCutover | repoarchivetool/api_interface.py:182-229 | Soundness: on a sorted listing with working single-repository calls, the page the bisection settles on is a cutover page. |
| Search.ProbeSucceeds | repoarchivetool/api_interface.py:187-198 | On a well-paginated listing with working calls, a probe inside the listing yields flags. |
| Search.SettleSucceeds | repoarchivetool/api_interface.py:215-229 | On such a listing the resolution settles, except in data_retrieval.py without an earlier probe. |
| Search.UnprobedFlagsToolkitIntended | repoarchivetool/data_retrieval.py:144-163 | As intended, the unprobed branch takes its flags with `get_archive_flag`, as the probe at lines 120-121 does. A listed empty page is reported and a listed non-empty page yields the staleness of its first and last repository. |
| Search.ToolkitIntendedSettlesShortListing | repoarchivetool/data_retrieval.py:104-170 | With those flags, a sorted one- or two-page listing whose calls succeed settles on a cutover page. As written, it raises. |
| Search.BisectSettles | repoarchivetool/api_interface.py:182-229 | Liveness: on such a listing the bisection settles. This holds for the earliest script too when its single page does not spin, and for data_retrieval.py from three pages. |
| Search.BisectCollectsCandidates | repoarchivetool/api_interface.py:182-281 | End to end: the settled page is a cutover page within the listing, and walking from it gives `Candidates`. |
| Search.Locate | repoarchivetool/api_interface.py:173-229 | The bisection loop computes `Bisect` from the initial pointers, ends on a page within the listing and fails only in the documented ways. |
| Search.SearchSucceeds | repoarchivetool/api_interface.py:173-281 | With every call succeeding, the bisection settles on a listed page and no collector call is refused. |
| Search.SearchSound | repoarchivetool/api_interface.py:173-281 | Whatever page any copy settles on, its collector's result on a sorted listing is `Candidates`. |
| Search.AllOkUnfaulted | repoarchivetool/api_interface.py:239-279 | When every call succeeds no collector call is refused. |
| Search.KeepPage | repoarchivetool/api_interface.py:247-277 | One listed page is kept as `Kept` says, and succeeds iff no single-repository call is refused. data_retrieval.py reports a refusal; the others raise. |
| Search.KeepPageIntended | repoarchivetool/api_interface.py:247-277 | As documented, one listed page is kept as `Kept` says, and every refused single-repository call ends the walk with the "Getting Individual Repositories" message in every copy. |
| Search.Collect | repoarchivetool/api_interface.py:236-281 | The collector succeeds iff no call for pages P..last is refused, and then returns `Gathered`. Its messages name the page or repository phase. |
| ApiInterface.GetOrganisationRepos | repoarchivetool/api_interface.py:159-283 | An error status on the first call gives "Test API Call". A missing `last` link raises. Other failures are phase messages, never `None`. The result on a sorted listing is `Candidates`; from two pages with working calls it is a list. |
| ApiScript.GetOrgRepos | repoarchivetool/apiScript.py:159-282 | As api_interface.py, but a missing `last` link means one page. An empty organisation raises. The result on a sorted listing is `Candidates`; from one page with working calls it is a list. |
| DataRetrieval.GetOrganisationRepos | repoarchivetool/data_retrieval.py:78-235 | Only a missing response gives "Test API Call"; an error status gives `None`. One or two pages give "No repositories found" or raise. A list comes only from three or more pages and, on a sorted listing, is `Candidates`. |
| Earliest.ReadDate | RepoArchiveTool/apiScript.py:72-74 | The cutoff is read day-month-year, against year-month-day in the later copies. A date comes out iff there are exactly three fields and they name a calendar day `datetime.date` accepts (`ValidDate`: year 1-9999, month 1-12, a day the month has, leap years included). Otherwise the script raises. |
| Earliest.DateOrdersAgree | RepoArchiveTool/apiScript.py:72-74 | An input both readings accept names the same date under both iff its first and third numbers are equal. A day-first date with a year above 31 is refused by the year-first reading. |
| Earliest.RepoTypeFor | RepoArchiveTool/apiScript.py:83-94 | The menu maps 2, 3 and 4 to public, private and internal, and anything else to all. |
| Earliest.GetOrgRepos | RepoArchiveTool/apiScript.py:96-229 | An error status on the first call ends with `None`; no failure is an error message. An empty organisation raises. On a sorted listing the urls are those of `Candidates`; with working calls a result is reached. |
| Contributors.DescribeAll | repoarchivetool/api_interface.py:309-320 | One record per contributor, in order. |
| Contributors.GetRepoContributors | repoarchivetool/api_interface.py:303-322 | A status outside {200, 204} is an error, 204 gives `[]`, and 200 gives the described body in order. |
| Contributors.GetRepoContributorsToolkit | repoarchivetool/data_retrieval.py:254-274 | As written: every response is reported as an error, so it never returns a list. |
| Contributors.GetRepoContributorsToolkitIntended | repoarchivetool/data_retrieval.py:254-274 | With the type test as in the rest of the file: a missing response is the error. A response gives a list, the described body on 200 and empty otherwise. |
| Ledger.AdmitAppends | repoarchivetool/app.py:118-132 | Admission only appends entries built from found records, dated today and not exempt. Stored entries are untouched, and at most one entry is added per record. |
| Ledger.AdmitKeepsNamesUnique | repoarchivetool/app.py:118-132 | A name-unique ledger stays name-unique, counting entries appended earlier in the same loop. |
| Ledger.AdmitListsFound | repoarchivetool/app.py:118-132 | After admission every found name is listed. |
| Ledger.AdmitNamesKnown | repoarchivetool/app.py:118-132 | No admitted name comes from anywhere but the stored ledger or the found records. |
| Ledger.AdmitListedIsNoop | repoarchivetool/app.py:119 | When every found name is listed, admission adds nothing. |
| Ledger.AdmitIdempotent | repoarchivetool/app.py:118-132 | Admitting the same records twice equals admitting them once. |
| Ledger.AdmitRaisesAt | repoarchivetool/app.py:118-132 | Admission raises iff some record, not yet listed when the loop reaches it, has a contributors call that gets no response (app.py:120). |
| Ledger.AdmitStoresNoRaise | repoarchivetool/app.py:118-132 | When admission does not raise, every added entry holds the contributors list or message its call returned. |
| Ledger.ReconciledSettles | repoarchivetool/app.py:164-167 | After the reconcile no exemption has passed, and a second reconcile changes nothing. Only the two date fields change, and the entry changes iff its exemption had passed. An entry whose exemption has just passed restarts its wait and is not eligible for archiving at that moment. |
| Ledger.ClearAfterSet | repoarchivetool/app.py:221-224 | Clearing undoes any exemption set before it. Both touch only entries of the given name. A cleared entry is not expired. |
| Ledger.RowFor | repoarchivetool/app.py:283-300 | A row is a success iff the archive call returned 200. |
| Ledger.AttemptsAreEligible | repoarchivetool/app.py:278-300 | The pass attempts exactly the not-exempt entries at least 30 days old, in ledger order, one row each. A row is a success iff its call returned 200. |
| Ledger.RemainingMembers | repoarchivetool/app.py:303-312 | An entry remains iff it was listed and not archived. |
| Ledger.ArchiveAccounting | repoarchivetool/app.py:292 | Remaining entries plus success rows equal the old ledger length. |
| Ledger.RemainingSkipsStretch | repoarchivetool/app.py:309-312 | Between two archived positions, the entries are kept as they are. |
| Ledger.RemainingStep | repoarchivetool/app.py:309-312 | One more entry is kept unless it was archived. |
| Ledger.EmptyReadArchivesNothing | repoarchivetool/app.py:274 | A pass over the empty list that a missing file reads as attempts nothing. A ledger with an archivable entry would have lost it. |
| Ledger.SameLengthRemainingIsAll | repoarchivetool/app.py:303-312 | Removal never grows the ledger; if it keeps the length it keeps everything. |
| Ledger.PyIndex | repoarchivetool/app.py:382 | `archive_list[batch_id - 1]` selects a batch iff the index is within Python's negative-index range. Id 0 selects the last batch. |
| Ledger.UndoFrom | repoarchivetool/app.py:384-432 | Undo works head first and stops at the first failure; it finishes iff every row was undone. At most one more row is unarchived than undone, and then the stop is a failed or raising restore. It only appends entries, each dated today, not exempt, and holding a contributors list or message. |
| Ledger.UndoStep | repoarchivetool/app.py:386-428 | A row is undone, and the rest follow, only when its unarchive succeeded and, if it was restored, its fetch succeeded and its contributors call got a response. Otherwise nothing more changes, and the row counts as unarchived iff its unarchive call returned 200. |
| Ledger.UndoStrandsRow | repoarchivetool/app.py:386-402 | As written, a restore fetch that fails after a successful unarchive leaves the unarchived row in the batch. |
| Ledger.UndoFromIntended | repoarchivetool/app.py:384-432 | As documented, every row whose repository was unarchived leaves the batch, and a finished undo has emptied it. |
| Ledger.UndoIntendedUnstrands | repoarchivetool/app.py:384-432 | The documented undo unarchives the same repositories as the code, leaves the same ledger and stops the same way. It differs only in taking every unarchived row off the batch. |
| Ledger.UndoRestoresNames | repoarchivetool/app.py:397-422 | When repositories keep their names, undo keeps the ledger name-unique and lists every undone row's name. |
| App.PopArchived | repoarchivetool/app.py:309-312 | Popping at `i - pop_count` over the ascending archived positions leaves exactly `Remaining`. |
| App.Store.constructor | repoarchivetool/storage_interface.py:150-151 | Files that do not exist read as empty lists. |
| App.Store.FindRepos | repoarchivetool/app.py:101-136 | An error message from the search leaves the ledger alone and is shown. Any other failure raises, and so does admission when a new record's contributors call gets no response (`AdmitRaises`); then nothing is written. Otherwise the ledger becomes `Admit` of the found records, and the reported count is the number of entries added. |
| App.Store.ManageRepos | repoarchivetool/app.py:164-169 | Every entry becomes its reconciled self; the length and the batches are unchanged. |
| App.Store.ClearRepos | repoarchivetool/app.py:173-181 | The ledger becomes empty and the batches are kept. |
| App.Store.SetExemptDate | repoarchivetool/app.py:184-211 | On a posted form, entries of the given name get the new exemption and nothing else changes. Without a name, or without a post, nothing changes. |
| App.Store.ClearExemptDate | repoarchivetool/app.py:214-228 | With a name, entries of that name are re-dated to today and lose their exemption; nothing else changes. |
| App.Store.ArchiveRepos | repoarchivetool/app.py:262-314 | The pass raises iff an attempted call gets no response. Nothing is written when it raises or writes no row. Otherwise batch `len+1`, dated today with the rows of `Attempts`, is appended, and the ledger becomes `Remaining`. Sequential ids are kept. |
| App.Store.ArchiveAsWritten | repoarchivetool/app.py:274 | As written, the pass reads repositories.txt and changes nothing, whatever the stored ledger holds. |
| App.Store.ArchiveStored | repoarchivetool/app.py:262-314 | The pass over the stored ledger, with the same guarantees as `ArchiveRepos`. |
| App.Store.UndoBatch | repoarchivetool/app.py:375-432 | No id changes nothing. An id out of Python's range raises and changes nothing. Otherwise the ledger becomes `UndoFrom`'s, including its stop on a restore whose contributors call raises. The batch loses exactly its undone rows while staying in the history. |

## Left out

- Flask routing, sessions, templates and the personal access token check are left out, as are the routes that only render (`index`, `login`, `logout`, `recently_archived`, `confirm_action`).
- The HTTP client classes are replaced by oracles. So are the GitHub App token exchange and the S3 storage: reading a file is reading a field, and writing is assigning it. Every write is taken to succeed, although `storage_interface.write_file` takes three parameters and app.py calls it with two.
- Date formatting, `relativedelta(months=…)` and `datetime.now()` are left out. Dates are day numbers, and the exempt-until date of `set_exempt_date` is the parameter `until`. Reading the cutoff is modelled only for the earliest script (`Earliest.ReadDate`), from fields already converted by `int()`. A field that is not a number raises in the source.
- The earliest script never builds its client: `gh` is read (RepoArchiveTool/apiScript.py:52, 97, 127, 157, 188, 196) but never bound, and `GetOrgRepos` is never called. As written it raises at line 97 unless an importer sets `gh`. The model gives the client as the `Org` oracle.
- `Ledger.Github.contributors` is left unconstrained. The source's `get_repo_contributors` only ever gives a list, a status message or an exception (`Contributors.GetRepoContributors`), and no ledger property depends on which.
- `Org.listing` is one fixed reply per page. The first call, a probe and a later fetch of the same page all see the same reply and the same repositories.
- `Ledger.Expired` counts time in whole seconds. On the exemption's own day the source already treats the exemption as passed within the first second, once a microsecond has elapsed (app.py:164-167).
- App.Store.ClearRepos: does not model that `os.remove` raises when repositories.json does not exist (app.py:180). The model reads a missing ledger and an empty one alike.
- Message texts are left out. An error message is its phase. Reading `.json()["message"]` from an error body is taken to succeed, except where the body is a page's list, which raises.
- App.Store.ManageRepos: does not model the sort by name that `read_file(…, "name")` applies before the reconcile and that is then written back. The ledger keeps its order.
- Earliest.GetOrgRepos: requires that the probe of a single page does not spin, because in that case the script never returns (`Search.SpinningProbeChangesNothing`).
- ApiInterface.GetOrganisationRepos: requires a `last` link, when present, to name a page of at least 1 (`LinkSane`), as GitHub's links do.
- ApiScript.GetOrgRepos: requires the same well-formed `last` link.
- DataRetrieval.GetOrganisationRepos: requires the same well-formed `last` link.
- The earliest script's `input()` and `print` calls, its progress bars and its writing of archive.txt are left out. Its result is the list it would write.
- The single-repository call and the listing are taken to agree on a repository's push day.
- Ledger.UndoRestoresNames: assumes the name GitHub now reports equals the batch row's name. Undo re-admits an entry under the reported name while its presence check uses the row's name, so a renamed repository can be admitted twice.

## Findings

| source | as written | input that shows it | evidently intended | confidence | as-written member | corrected member |
|---|---|---|---|---|---|---|
| repoarchivetool/api_interface.py:167-173 | Without a `last` link the fallback assigns `lastPage`, so reading `last_page` at line 173 raises. | a one-page organisation whose first listing returns 200 without a `last` link | fall back to one page, as apiScript.py:167-171 does | not executed | ApiInterface.GetOrganisationRepos | ApiScript.GetOrgRepos |
| RepoArchiveTool/apiScript.py:122-145 | The loop guard tests only `upperPointer - lowerPointer != 1`. With one page it probes page 1 and, unless the page is split, moves no pointer. | one page of two repositories both pushed on or after the cutoff | stop on equal pointers as well, as api_interface.py:183 does | not executed | Search.OneFreshPageSpins | Search.BisectSettles |
| repoarchivetool/data_retrieval.py:256-257 | The type test is inverted, so every response is reported as an error and no contributor list is ever returned. | a 200 response listing one contributor | report only a reply that is not a response, as lines 30 and 83 do | not executed | Contributors.GetRepoContributorsToolkit | Contributors.GetRepoContributorsToolkitIntended |
| repoarchivetool/app.py:274 | The archive pass reads repositories.txt, a file nothing writes; a missing file reads as empty, so the pass archives nothing. | a ledger with one entry added 30 days ago, not exempt, whose archive call returns 200 | read repositories.json like every other ledger access | not executed | App.Store.ArchiveAsWritten | App.Store.ArchiveStored |
| repoarchivetool/api_interface.py:276-277 | On a failed single-repository call the collector reads `["message"]` from the page's list body, which raises instead of returning the message. The same read is at apiScript.py:276 and RepoArchiveTool/apiScript.py:218. | a page whose first repository's single-repository call returns 404 | read the message from `repo_response` and return "Getting Individual Repositories" | not executed | Search.KeepPage | Search.KeepPageIntended |
| repoarchivetool/app.py:386-402 | A repository is unarchived before its restore, and a failed restore returns before the row is popped. The row stays in the batch although the repository is no longer archived. | a batch of one row whose unarchive returns 200, whose name is not in the ledger, and whose fetch returns 404 | take the row off the batch once it is unarchived | not executed | Ledger.UndoStrandsRow | Ledger.UndoFromIntended |
| repoarchivetool/data_retrieval.py:162-163 | The adjacent-pointer branch with no earlier probe calls `archive_flag`, a name bound only later in the function, so it raises an UnboundLocalError (a lint suppression hides it). | a sorted two-page organisation whose calls all succeed | take the flags with `get_archive_flag`, as the probe at lines 120-121 does | not executed | Search.ToolkitNeverProbesShortListing | Search.UnprobedFlagsToolkitIntended |
