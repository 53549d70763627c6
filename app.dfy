/** The ledger routes of repoarchivetool/app.py over the two stored lists:
    the tracked repositories (repositories.json) and the archive batches
    (archived.json). Reading and writing the files is taken to be reading
    and assigning the fields. */
module App {
  import opened Remote
  import opened Search
  import opened Ledger
  import ApiInterface

  /** The pass's removal loop: with `toRemove` the ascending positions of
      the archived entries, popping at `position - popped` removes exactly
      those entries and keeps the others in order. */
  method PopArchived(listed: seq<Entry>, toRemove: seq<int>, now: Clock, gh: Github) returns (kept: seq<Entry>)
    requires IndexesArchived(listed, |listed|, toRemove, now, gh)
    ensures kept == Remaining(listed, now, gh)
  {
    kept := listed;
    PartlyPoppedAtStart(listed, toRemove, now, gh);
    for popCount := 0 to |toRemove|
      invariant PartlyPopped(listed, toRemove, popCount, kept, now, gh)
    {
      PopStep(listed, toRemove, popCount, kept, now, gh);
      kept := kept[..toRemove[popCount] - popCount] + kept[toRemove[popCount] - popCount + 1..];
    }
    PartlyPoppedAtEnd(listed, toRemove, kept, now, gh);
  }

  /** After `c` pops the list is the cleaned stretch up to the last popped
      position followed by the untouched rest. */
  predicate PartlyPopped(listed: seq<Entry>, toRemove: seq<int>, c: int, kept: seq<Entry>, now: Clock, gh: Github)
    requires 0 <= c <= |toRemove|
    requires IndexesArchived(listed, |listed|, toRemove, now, gh)
  {
    var b := PoppedThrough(toRemove, c);
    && 0 <= b <= |listed|
    && |Remaining(listed[..b], now, gh)| == b - c
    && kept == Remaining(listed[..b], now, gh) + listed[b..]
  }

  lemma PartlyPoppedAtStart(listed: seq<Entry>, toRemove: seq<int>, now: Clock, gh: Github)
    requires IndexesArchived(listed, |listed|, toRemove, now, gh)
    ensures PartlyPopped(listed, toRemove, 0, listed, now, gh)
  {
    assert listed[..0] == [] && listed[0..] == listed;
  }

  lemma PartlyPoppedAtEnd(listed: seq<Entry>, toRemove: seq<int>, kept: seq<Entry>, now: Clock, gh: Github)
    requires IndexesArchived(listed, |listed|, toRemove, now, gh)
    requires PartlyPopped(listed, toRemove, |toRemove|, kept, now, gh)
    ensures kept == Remaining(listed, now, gh)
  {
    LastPop(listed, toRemove, now, gh);
    RemainingSkipsStretch(listed, now, gh, PoppedThrough(toRemove, |toRemove|), |listed|);
    assert listed[..|listed|] == listed;
  }

  /** One turn of the removal loop: popping at `toRemove[c] - c` takes the
      list from `c` pops to `c + 1`. */
  lemma PopStep(listed: seq<Entry>, toRemove: seq<int>, c: int, kept: seq<Entry>, now: Clock, gh: Github)
    requires IndexesArchived(listed, |listed|, toRemove, now, gh)
    requires 0 <= c < |toRemove|
    requires PartlyPopped(listed, toRemove, c, kept, now, gh)
    ensures 0 <= toRemove[c] - c < |kept|
    ensures PartlyPopped(listed, toRemove, c + 1, kept[..toRemove[c] - c] + kept[toRemove[c] - c + 1..], now, gh)
  {
    NextPop(listed, toRemove, c, now, gh);
    PopOne(listed, now, gh, PoppedThrough(toRemove, c), toRemove[c], c, kept);
  }

  /** The position just past the last entry popped after `c` pops. */
  function PoppedThrough(toRemove: seq<int>, c: int): int
    requires 0 <= c <= |toRemove|
  {
    if c == 0 then 0 else toRemove[c - 1] + 1
  }

  /** The next position to pop lies at or after the last one popped, is
      archived, and no entry between them is. */
  lemma NextPop(listed: seq<Entry>, toRemove: seq<int>, c: int, now: Clock, gh: Github)
    requires IndexesArchived(listed, |listed|, toRemove, now, gh)
    requires 0 <= c < |toRemove|
    ensures 0 <= PoppedThrough(toRemove, c) <= toRemove[c] < |listed|
    ensures Archived(listed[toRemove[c]], now, gh)
    ensures forall j :: PoppedThrough(toRemove, c) <= j < toRemove[c] ==> !Archived(listed[j], now, gh)
  {
    var b := PoppedThrough(toRemove, c);
    assert forall k :: 0 <= k < c ==> toRemove[k] < b;
    assert forall k :: c <= k < |toRemove| ==> toRemove[c] <= toRemove[k];
  }

  /** After the last pop no archived entry is left. */
  lemma LastPop(listed: seq<Entry>, toRemove: seq<int>, now: Clock, gh: Github)
    requires IndexesArchived(listed, |listed|, toRemove, now, gh)
    ensures 0 <= PoppedThrough(toRemove, |toRemove|) <= |listed|
    ensures forall j :: PoppedThrough(toRemove, |toRemove|) <= j < |listed| ==> !Archived(listed[j], now, gh)
  {
    var b := PoppedThrough(toRemove, |toRemove|);
    assert forall k :: 0 <= k < |toRemove| ==> toRemove[k] < b;
  }

  /** One pop of the removal loop: the entry at `t - popCount` of the
      partly cleaned list is the archived entry at `t`, and removing it
      extends the cleaned stretch through `t`. */
  lemma PopOne(listed: seq<Entry>, now: Clock, gh: Github, b: int, t: int, popCount: int, kept: seq<Entry>)
    requires 0 <= b <= t < |listed|
    requires forall j :: b <= j < t ==> !Archived(listed[j], now, gh)
    requires Archived(listed[t], now, gh)
    requires |Remaining(listed[..b], now, gh)| == b - popCount
    requires kept == Remaining(listed[..b], now, gh) + listed[b..]
    ensures 0 <= t - popCount < |kept|
    ensures kept[..t - popCount] + kept[t - popCount + 1..] == Remaining(listed[..t + 1], now, gh) + listed[t + 1..]
    ensures |Remaining(listed[..t + 1], now, gh)| == t + 1 - (popCount + 1)
  {
    RemainingSkipsStretch(listed, now, gh, b, t);
    RemainingStep(listed, now, gh, t);
    var before := Remaining(listed[..b], now, gh);
    assert kept[..t - popCount] == before + listed[b..t];
    assert kept[t - popCount + 1..] == listed[t + 1..];
  }

  class Store {
    /** repositories.json */
    var repos: seq<Entry>
    /** archived.json */
    var batches: seq<Batch>

    /** No file yet: both lists read as empty. */
    constructor()
      ensures repos == [] && batches == []
    {
      repos := [];
      batches := [];
    }

    /** `find_repos`: when the search returned a list, the records whose
        names are not yet in the ledger are admitted, and the number added
        is reported. An error message from the search is shown and leaves
        the ledger as it was; any other outcome raises, as does a
        contributors call that produces no response, before anything is
        written. */
    method FindRepos(found: Outcome<seq<ApiInterface.Record>>, today: int, gh: Github) returns (r: Outcome<int>)
      modifies this
      ensures batches == old(batches)
      ensures found.Err? ==> r == Err(found.phase) && repos == old(repos)
      ensures found.NoneResult? || found.Raises? ==> r == Raises && repos == old(repos)
      ensures found.Ok? && AdmitRaises(old(repos), found.value, today, gh) ==> r == Raises && repos == old(repos)
      ensures found.Ok? && !AdmitRaises(old(repos), found.value, today, gh) ==>
                repos == Admit(old(repos), found.value, today, gh) && r == Ok(|repos| - |old(repos)|)
    {
      if found.Err? {
        return Err(found.phase);
      }
      if !found.Ok? {
        return Raises;
      }
      var stored := repos;
      var reposAdded := 0;
      for i := 0 to |found.value|
        invariant stored == Admit(repos, found.value[..i], today, gh)
        invariant reposAdded == |stored| - |repos|
        invariant !AdmitRaises(repos, found.value[..i], today, gh)
      {
        var rec := found.value[i];
        assert found.value[..i + 1][..i] == found.value[..i];
        if !Listed(rec.name, stored) {
          if gh.contributors(rec.contributorsUrl).Raises? {
            AdmitRaisesAt(repos, found.value, today, gh);
            assert RaisesAt(repos, found.value, i, today, gh);
            return Raises;
          }
          stored := stored + [Admitted(rec, today, gh)];
          reposAdded := reposAdded + 1;
        }
      }
      assert found.value[..|found.value|] == found.value;
      repos := stored;
      return Ok(reposAdded);
    }

    /** `manage_repos`: every entry whose exemption has passed is
        reconciled; nothing else changes. */
    method ManageRepos(now: Clock)
      modifies this
      ensures batches == old(batches)
      ensures |repos| == |old(repos)|
      ensures forall i :: 0 <= i < |repos| ==> repos[i] == Reconciled(old(repos)[i], now)
    {
      for i := 0 to |repos|
        invariant |repos| == |old(repos)|
        invariant batches == old(batches)
        invariant forall j :: 0 <= j < i ==> repos[j] == Reconciled(old(repos)[j], now)
        invariant forall j :: i <= j < |repos| ==> repos[j] == old(repos)[j]
      {
        if Expired(repos[i], now) {
          repos := repos[i := repos[i].(exemptUntil := NoExemption, dateAdded := now.day)];
        }
      }
    }

    /** `clear_repos`: repositories.json is deleted, so the ledger next
        reads as empty; the archive batches are kept. */
    method ClearRepos()
      modifies this
      ensures repos == [] && batches == old(batches)
    {
      repos := [];
    }

    /** `set_exempt_date`: on a submitted form naming a repository, the
        entries of that name are exempt until `until`; without a name, or
        when the form is only displayed, nothing changes. */
    method SetExemptDate(name: Option<string>, posted: bool, until: int)
      modifies this
      ensures batches == old(batches)
      ensures |repos| == |old(repos)|
      ensures name.None? || !posted ==> repos == old(repos)
      ensures name.Some? && posted ==> forall i :: 0 <= i < |repos| ==> repos[i] == WithExemption(old(repos)[i], name.value, until)
    {
      if name.None? || !posted {
        return;
      }
      for i := 0 to |repos|
        invariant |repos| == |old(repos)|
        invariant batches == old(batches)
        invariant forall j :: 0 <= j < i ==> repos[j] == WithExemption(old(repos)[j], name.value, until)
        invariant forall j :: i <= j < |repos| ==> repos[j] == old(repos)[j]
      {
        if repos[i].name == name.value {
          repos := repos[i := repos[i].(exemptUntil := until)];
        }
      }
    }

    /** `clear_exempt_date`: the entries of the named repository lose their
        exemption and re-enter the ledger today. */
    method ClearExemptDate(name: Option<string>, today: int)
      modifies this
      ensures batches == old(batches)
      ensures |repos| == |old(repos)|
      ensures name.None? ==> repos == old(repos)
      ensures name.Some? ==> forall i :: 0 <= i < |repos| ==> repos[i] == Cleared(old(repos)[i], name.value, today)
    {
      if name.None? {
        return;
      }
      for i := 0 to |repos|
        invariant |repos| == |old(repos)|
        invariant batches == old(batches)
        invariant forall j :: 0 <= j < i ==> repos[j] == Cleared(old(repos)[j], name.value, today)
        invariant forall j :: i <= j < |repos| ==> repos[j] == old(repos)[j]
      {
        if repos[i].name == name.value {
          repos := repos[i := repos[i].(dateAdded := today, exemptUntil := NoExemption)];
        }
      }
    }

    /** `archive_repos` over the ledger it reads, `listed`. It raises, with
        nothing written, when an archiving call produced no response.
        Otherwise, when it attempted at least one entry, it appends a batch
        numbered after the existing ones holding one row per attempt and
        stores `listed` without the archived entries; when it attempted
        none, nothing changes. */
    method ArchiveRepos(listed: seq<Entry>, now: Clock, gh: Github) returns (raised: bool)
      modifies this
      ensures raised <==> PassRaises(listed, now, gh)
      ensures raised || Attempts(listed, now, gh) == [] ==> repos == old(repos) && batches == old(batches)
      ensures !raised && Attempts(listed, now, gh) != [] ==>
                && batches == old(batches) + [Batch(|old(batches)| + 1, now.day, Attempts(listed, now, gh))]
                && repos == Remaining(listed, now, gh)
      ensures IdsSequential(old(batches)) ==> IdsSequential(batches)
    {
      var rows: seq<Row> := [];
      var toRemove: seq<int> := [];
      for i := 0 to |listed|
        invariant rows == Attempts(listed[..i], now, gh)
        invariant forall j :: 0 <= j < i ==> !Raising(listed[j], now, gh)
        invariant IndexesArchived(listed, i, toRemove, now, gh)
      {
        var e := listed[i];
        assert listed[..i + 1][..i] == listed[..i];
        if e.exemptUntil == NoExemption && now.day - e.dateAdded >= ArchiveThresholdDays {
          var reply := gh.archive(e.apiUrl);
          if reply.NotResponse? {
            assert Raising(listed[i], now, gh);
            return true;
          }
          rows := rows + [RowFor(e, reply)];
          if reply.status == 200 {
            toRemove := toRemove + [i];
          }
        }
      }
      assert listed[..|listed|] == listed;
      if |rows| > 0 {
        batches := batches + [Batch(|batches| + 1, now.day, rows)];
        var kept := PopArchived(listed, toRemove, now, gh);
        repos := kept;
      }
      return false;
    }

    /** The pass as written reads repositories.txt, a file the tool never
        writes, which therefore reads as empty: it never archives anything. */
    method ArchiveAsWritten(now: Clock, gh: Github) returns (raised: bool)
      modifies this
      ensures !raised
      ensures repos == old(repos) && batches == old(batches)
    {
      raised := ArchiveRepos([], now, gh);
    }

    /** The pass over the stored ledger. */
    method ArchiveStored(now: Clock, gh: Github) returns (raised: bool)
      modifies this
      ensures raised <==> PassRaises(old(repos), now, gh)
      ensures raised || Attempts(old(repos), now, gh) == [] ==> repos == old(repos) && batches == old(batches)
      ensures !raised && Attempts(old(repos), now, gh) != [] ==>
                && batches == old(batches) + [Batch(|old(batches)| + 1, now.day, Attempts(old(repos), now, gh))]
                && repos == Remaining(old(repos), now, gh)
      ensures IdsSequential(old(batches)) ==> IdsSequential(batches)
    {
      raised := ArchiveRepos(repos, now, gh);
    }

    /** `undo_batch`: without an id nothing happens, and an id that selects
        no batch raises. Otherwise the selected batch is undone head first
        as `UndoFrom` describes: the undone rows are gone from it, the
        others stay, the ledger holds the restored entries, and the batch
        itself is kept. */
    method UndoBatch(batchId: Option<int>, today: int, gh: Github) returns (r: Option<Stop>)
      modifies this
      ensures batchId.None? ==> r == None && repos == old(repos) && batches == old(batches)
      ensures batchId.Some? && PyIndex(batchId.value - 1, |old(batches)|).None? ==>
                r == Some(Raised) && repos == old(repos) && batches == old(batches)
      ensures batchId.Some? && PyIndex(batchId.value - 1, |old(batches)|).Some? ==>
                var ix := PyIndex(batchId.value - 1, |old(batches)|).value;
                var u := UndoFrom(old(batches)[ix].rows, old(repos), today, gh);
                && r == Some(u.stop)
                && repos == u.repos
                && batches == old(batches)[ix := old(batches)[ix].(rows := old(batches)[ix].rows[u.done..])]
    {
      if batchId.None? {
        return None;
      }
      var found := PyIndex(batchId.value - 1, |batches|);
      if found.None? {
        return Some(Raised);
      }
      var ix := found.value;
      ghost var oldRows := batches[ix].rows;
      ghost var goal := UndoFrom(oldRows, repos, today, gh);
      var n := |batches[ix].rows|;
      var i := 0;
      while i < n
        invariant 0 <= i <= n == |oldRows|
        invariant i <= goal.done
        invariant batches == old(batches)[ix := old(batches)[ix].(rows := oldRows[i..])]
        invariant UndoFrom(oldRows[i..], repos, today, gh) == goal.(done := goal.done - i, patched := goal.patched - i)
      {
        var row := batches[ix].rows[0];
        assert row == oldRows[i];
        UndoStep(oldRows[i..], repos, today, gh);
        var reply := gh.unarchive(row.apiUrl);
        if reply.NotResponse? {
          return Some(Raised);
        }
        if !reply.Ok() {
          return Some(UnarchiveFailed);
        }
        if !Listed(row.name, repos) {
          var fetched := gh.fetch(row.apiUrl);
          if fetched.NotResponse? {
            return Some(Raised);
          }
          if !fetched.Ok() {
            return Some(RestoreFailed);
          }
          if gh.contributors(gh.details(row.apiUrl).contributorsUrl).Raises? {
            return Some(Raised);
          }
          repos := repos + [Restored(row, today, gh)];
        }
        batches := batches[ix := batches[ix].(rows := batches[ix].rows[1..])];
        assert oldRows[i..][1..] == oldRows[i + 1..];
        i := i + 1;
      }
      return Some(Finished);
    }
  }
}
