/** The tracked-repository ledger of repoarchivetool/app.py and its archive
    batches, as functions of the stored lists. Dates are day numbers
    (proleptic Gregorian ordinals, as Python's `date.toordinal`); a stored
    date string and its day number are taken to be interchangeable. */
module Ledger {
  import opened Remote
  import opened Search
  import Contributors
  import ApiInterface

  /** `"1900-01-01"`, the exemption date that means "not exempt". */
  const NoExemption: int := 693596

  /** `archive_threshold_days`: days an entry waits in the ledger before it is archived. */
  const ArchiveThresholdDays: int := 30

  /** The moment a route runs: the calendar day and the seconds elapsed in it. */
  datatype Clock = Clock(day: int, second: nat)

  /** The remote calls the routes make, as oracles keyed by url:
      archiving and unarchiving PATCHes, the single-repository GET of a
      restore and its body, and the contributors call. */
  datatype Github = Github(archive: string -> Reply, unarchive: string -> Reply, fetch: string -> Reply,
                           details: string -> Repo,
                           contributors: string -> Outcome<seq<Contributors.Contributor>>)

  /** One entry of repositories.json. `contributors` holds whatever the
      contributors call returned, a list or an error message. */
  datatype Entry = Entry(name: string, visibility: string,
                         contributors: Outcome<seq<Contributors.Contributor>>,
                         apiUrl: string, lastCommit: int, dateAdded: int, exemptUntil: int)

  /** Some entry of the ledger has this name. */
  predicate Listed(name: string, repos: seq<Entry>)
  {
    exists i :: 0 <= i < |repos| && repos[i].name == name
  }

  /** No two entries of the ledger share a name. */
  predicate NamesUnique(repos: seq<Entry>)
  {
    forall i, j :: 0 <= i < j < |repos| ==> repos[i].name != repos[j].name
  }

  /** The entry `find_repos` stores for a newly found repository. */
  function Admitted(rec: ApiInterface.Record, today: int, gh: Github): Entry
  {
    Entry(rec.name, rec.visibility, gh.contributors(rec.contributorsUrl), rec.apiUrl, rec.lastCommit,
          today, NoExemption)
  }

  /** The ledger after the admission loop over `found`: each record is
      appended unless an entry of its name is already stored, counting the
      entries appended for earlier records. */
  function Admit(stored: seq<Entry>, found: seq<ApiInterface.Record>, today: int, gh: Github): seq<Entry>
  {
    if found == [] then stored
    else
      var prev := Admit(stored, found[..|found| - 1], today, gh);
      var rec := found[|found| - 1];
      if Listed(rec.name, prev) then prev else prev + [Admitted(rec, today, gh)]
  }

  /** The admission loop reaches a record whose name is not yet listed and
      whose contributors call produced no response: `find_repos` raises
      there, before the ledger is written. */
  predicate AdmitRaises(stored: seq<Entry>, found: seq<ApiInterface.Record>, today: int, gh: Github)
  {
    if found == [] then false
    else
      var prev := found[..|found| - 1];
      var rec := found[|found| - 1];
      || AdmitRaises(stored, prev, today, gh)
      || (!Listed(rec.name, Admit(stored, prev, today, gh)) && gh.contributors(rec.contributorsUrl).Raises?)
  }

  /** The record at position k is not yet listed when the admission loop
      reaches it, and its contributors call produced no response. */
  predicate RaisesAt(stored: seq<Entry>, found: seq<ApiInterface.Record>, k: int, today: int, gh: Github)
  {
    && 0 <= k < |found|
    && !Listed(found[k].name, Admit(stored, found[..k], today, gh))
    && gh.contributors(found[k].contributorsUrl).Raises?
  }

  /** Admission raises exactly when some record, not yet listed when the
      loop reaches it, has a contributors call that produced no response. */
  lemma {:induction false} AdmitRaisesAt(stored: seq<Entry>, found: seq<ApiInterface.Record>, today: int, gh: Github)
    ensures AdmitRaises(stored, found, today, gh) <==> exists k :: RaisesAt(stored, found, k, today, gh)
    decreases |found|
  {
    if found != [] {
      var n := |found| - 1;
      var prev := found[..n];
      AdmitRaisesAt(stored, prev, today, gh);
      if AdmitRaises(stored, prev, today, gh) {
        var k :| RaisesAt(stored, prev, k, today, gh);
        assert prev[k] == found[k] && prev[..k] == found[..k];
        assert RaisesAt(stored, found, k, today, gh);
      } else if AdmitRaises(stored, found, today, gh) {
        assert RaisesAt(stored, found, n, today, gh);
      }
      if exists k :: RaisesAt(stored, found, k, today, gh) {
        var k :| RaisesAt(stored, found, k, today, gh);
        if k < n {
          assert prev[k] == found[k] && prev[..k] == found[..k];
          assert RaisesAt(stored, prev, k, today, gh);
        }
      }
    }
  }

  /** Admission that does not raise stores, for every added entry, the list
      or the error message its contributors call returned. */
  lemma {:induction false} AdmitStoresNoRaise(stored: seq<Entry>, found: seq<ApiInterface.Record>, today: int, gh: Github)
    requires !AdmitRaises(stored, found, today, gh)
    ensures var after := Admit(stored, found, today, gh);
      forall i :: |stored| <= i < |after| ==> !after[i].contributors.Raises?
    decreases |found|
  {
    if found != [] {
      var prev := found[..|found| - 1];
      AdmitStoresNoRaise(stored, prev, today, gh);
      AdmitAppends(stored, prev, today, gh);
    }
  }

  /** Admission only appends: the stored entries stay as they were, at most
      one entry is added per record, and every added entry is a found
      record admitted today with no exemption. */
  lemma {:induction false} AdmitAppends(stored: seq<Entry>, found: seq<ApiInterface.Record>, today: int, gh: Github)
    ensures var after := Admit(stored, found, today, gh);
      && |stored| <= |after| <= |stored| + |found|
      && after[..|stored|] == stored
      && forall i :: |stored| <= i < |after| ==>
           && after[i].dateAdded == today && after[i].exemptUntil == NoExemption
           && exists k :: 0 <= k < |found| && after[i] == Admitted(found[k], today, gh)
    decreases |found|
  {
    if found != [] {
      var prefix := found[..|found| - 1];
      AdmitAppends(stored, prefix, today, gh);
      var prev := Admit(stored, prefix, today, gh);
      var after := Admit(stored, found, today, gh);
      forall i | |stored| <= i < |after|
        ensures exists k :: 0 <= k < |found| && after[i] == Admitted(found[k], today, gh)
      {
        if i < |prev| {
          var k :| 0 <= k < |prefix| && prev[i] == Admitted(prefix[k], today, gh);
          assert found[k] == prefix[k];
        } else {
          assert after[i] == Admitted(found[|found| - 1], today, gh);
        }
      }
    }
  }

  /** Admission keeps a name-unique ledger name-unique. */
  lemma {:induction false} AdmitKeepsNamesUnique(stored: seq<Entry>, found: seq<ApiInterface.Record>, today: int, gh: Github)
    requires NamesUnique(stored)
    ensures NamesUnique(Admit(stored, found, today, gh))
    decreases |found|
  {
    if found != [] {
      AdmitKeepsNamesUnique(stored, found[..|found| - 1], today, gh);
      var prev := Admit(stored, found[..|found| - 1], today, gh);
      var rec := found[|found| - 1];
      if !Listed(rec.name, prev) {
        var after := prev + [Admitted(rec, today, gh)];
        forall i, j | 0 <= i < j < |after| ensures after[i].name != after[j].name {
          if j == |prev| {
            assert prev[i].name != rec.name;
          }
        }
      }
    }
  }

  /** After admission every found name is in the ledger. */
  lemma {:induction false} AdmitListsFound(stored: seq<Entry>, found: seq<ApiInterface.Record>, today: int, gh: Github)
    ensures forall k :: 0 <= k < |found| ==> Listed(found[k].name, Admit(stored, found, today, gh))
    decreases |found|
  {
    if found != [] {
      var prefix := found[..|found| - 1];
      var rec := found[|found| - 1];
      AdmitListsFound(stored, prefix, today, gh);
      var prev := Admit(stored, prefix, today, gh);
      var after := Admit(stored, found, today, gh);
      assert |prev| <= |after| && after[..|prev|] == prev;
      forall k | 0 <= k < |found| ensures Listed(found[k].name, after) {
        if k < |prefix| {
          assert found[k] == prefix[k];
          var i :| 0 <= i < |prev| && prev[i].name == prefix[k].name;
          assert after[i] == prev[i];
        } else if Listed(rec.name, prev) {
          var i :| 0 <= i < |prev| && prev[i].name == rec.name;
          assert after[i] == prev[i];
        } else {
          assert after[|prev|].name == rec.name;
        }
      }
    }
  }

  /** No entry after admission bears a name that was neither stored before
      nor found. */
  lemma {:induction false} AdmitNamesKnown(stored: seq<Entry>, found: seq<ApiInterface.Record>, today: int, gh: Github)
    ensures forall i :: 0 <= i < |Admit(stored, found, today, gh)| ==>
              var name := Admit(stored, found, today, gh)[i].name;
              Listed(name, stored) || exists k :: 0 <= k < |found| && found[k].name == name
    decreases |found|
  {
    if found != [] {
      var prefix := found[..|found| - 1];
      AdmitNamesKnown(stored, prefix, today, gh);
      var prev := Admit(stored, prefix, today, gh);
      assert forall i :: 0 <= i < |prev| ==>
        Listed(prev[i].name, stored) || exists k :: 0 <= k < |prefix| && prefix[k].name == prev[i].name;
      var after := Admit(stored, found, today, gh);
      assert |prev| <= |after| && after[..|prev|] == prev;
      forall i | 0 <= i < |after|
        ensures Listed(after[i].name, stored) || exists k :: 0 <= k < |found| && found[k].name == after[i].name
      {
        if i < |prev| {
          assert after[i] == prev[i];
          if !Listed(prev[i].name, stored) {
            var k :| 0 <= k < |prefix| && prefix[k].name == prev[i].name;
            assert found[k] == prefix[k];
          }
        } else {
          assert after[i].name == found[|found| - 1].name;
        }
      }
    }
  }

  /** When every found name is already in the ledger, admission adds nothing. */
  lemma {:induction false} AdmitListedIsNoop(stored: seq<Entry>, found: seq<ApiInterface.Record>, today: int, gh: Github)
    requires forall k :: 0 <= k < |found| ==> Listed(found[k].name, stored)
    ensures Admit(stored, found, today, gh) == stored
    decreases |found|
  {
    if found != [] {
      var prefix := found[..|found| - 1];
      forall k | 0 <= k < |prefix| ensures Listed(prefix[k].name, stored) {
        assert prefix[k] == found[k];
      }
      AdmitListedIsNoop(stored, prefix, today, gh);
    }
  }

  /** Running the admission again on the same records changes nothing. */
  lemma AdmitIdempotent(stored: seq<Entry>, found: seq<ApiInterface.Record>, today: int, gh: Github)
    ensures var after := Admit(stored, found, today, gh);
      Admit(after, found, today, gh) == after
  {
    AdmitListsFound(stored, found, today, gh);
    AdmitListedIsNoop(Admit(stored, found, today, gh), found, today, gh);
  }

  /** An exemption has passed: it is not the sentinel and its day, read as
      midnight, lies before the current moment. On the exemption's own day
      it has passed as soon as the day has begun. */
  predicate Expired(e: Entry, now: Clock)
  {
    e.exemptUntil != NoExemption && (e.exemptUntil < now.day || (e.exemptUntil == now.day && now.second > 0))
  }

  /** The load-time reconcile of one entry: a passed exemption is cleared
      and the entry re-enters the ledger today. */
  function Reconciled(e: Entry, now: Clock): Entry
  {
    if Expired(e, now) then e.(exemptUntil := NoExemption, dateAdded := now.day) else e
  }

  /** After the reconcile no exemption has passed, a second reconcile at the
      same moment changes nothing, and only the two date fields can differ. */
  lemma ReconciledSettles(e: Entry, now: Clock)
    ensures !Expired(Reconciled(e, now), now)
    ensures Reconciled(Reconciled(e, now), now) == Reconciled(e, now)
    ensures Reconciled(e, now).(exemptUntil := e.exemptUntil, dateAdded := e.dateAdded) == e
    ensures Reconciled(e, now) != e <==> Expired(e, now)
    ensures Expired(e, now) ==> !Eligible(Reconciled(e, now), now)
  {
  }

  /** `set_exempt_date` on one entry: the exemption of an entry of that name
      becomes `until`. */
  function WithExemption(e: Entry, name: string, until: int): Entry
  {
    if e.name == name then e.(exemptUntil := until) else e
  }

  /** `clear_exempt_date` on one entry: an entry of that name loses its
      exemption and re-enters the ledger today. */
  function Cleared(e: Entry, name: string, today: int): Entry
  {
    if e.name == name then e.(dateAdded := today, exemptUntil := NoExemption) else e
  }

  /** Clearing undoes any exemption set before it, and an entry of another
      name is untouched by both. */
  lemma ClearAfterSet(e: Entry, name: string, until: int, today: int)
    ensures Cleared(WithExemption(e, name, until), name, today) == Cleared(e, name, today)
    ensures e.name != name ==> WithExemption(e, name, until) == e && Cleared(e, name, today) == e
    ensures e.name == name ==> !Expired(Cleared(e, name, today), Clock(today, 0))
  {
  }

  /** An entry the archive pass attempts: it is not exempt and has been in
      the ledger for at least the threshold number of whole days. */
  predicate Eligible(e: Entry, now: Clock)
  {
    e.exemptUntil == NoExemption && now.day - e.dateAdded >= ArchiveThresholdDays
  }

  /** An attempted entry whose archiving call produced no response: the
      pass raises before anything is written. */
  predicate Raising(e: Entry, now: Clock, gh: Github)
  {
    Eligible(e, now) && gh.archive(e.apiUrl).NotResponse?
  }

  /** An attempted entry whose archiving call returned 200. */
  predicate Archived(e: Entry, now: Clock, gh: Github)
  {
    Eligible(e, now) && gh.archive(e.apiUrl).Ok()
  }

  predicate PassRaises(s: seq<Entry>, now: Clock, gh: Github)
  {
    exists j :: 0 <= j < |s| && Raising(s[j], now, gh)
  }

  /** One row of an archive batch: "Success" or "Failed", with the status
      of the archiving call. */
  datatype Row = Row(name: string, apiUrl: string, success: bool, status: int)

  /** An archive batch: its id, the day of the pass and its rows. */
  datatype Batch = Batch(id: int, date: int, rows: seq<Row>)

  function RowFor(e: Entry, reply: Reply): (row: Row)
    requires reply.Response?
    ensures row.success <==> reply.status == 200
  {
    Row(e.name, e.apiUrl, reply.Ok(), reply.status)
  }

  /** The rows the pass writes, one per attempted entry in ledger order. */
  function Attempts(s: seq<Entry>, now: Clock, gh: Github): seq<Row>
  {
    if s == [] then []
    else
      var e := s[|s| - 1];
      Attempts(s[..|s| - 1], now, gh)
        + (if Eligible(e, now) && gh.archive(e.apiUrl).Response? then [RowFor(e, gh.archive(e.apiUrl))] else [])
  }

  /** The ledger without its archived entries, in order. */
  function Remaining(s: seq<Entry>, now: Clock, gh: Github): seq<Entry>
  {
    if s == [] then []
    else Remaining(s[..|s| - 1], now, gh) + (if Archived(s[|s| - 1], now, gh) then [] else [s[|s| - 1]])
  }

  /** The eligible entries of the ledger, in order. */
  function EligibleOnes(s: seq<Entry>, now: Clock): seq<Entry>
  {
    if s == [] then []
    else EligibleOnes(s[..|s| - 1], now) + (if Eligible(s[|s| - 1], now) then [s[|s| - 1]] else [])
  }

  /** The number of "Success" rows. */
  function Successes(rows: seq<Row>): nat
  {
    if rows == [] then 0 else Successes(rows[..|rows| - 1]) + (if rows[|rows| - 1].success then 1 else 0)
  }

  /** When the pass does not raise, it attempts exactly the eligible
      entries, in ledger order, one row each, and a row reports success
      exactly when its call returned 200. */
  lemma {:induction false} AttemptsAreEligible(s: seq<Entry>, now: Clock, gh: Github)
    requires !PassRaises(s, now, gh)
    ensures var rows := Attempts(s, now, gh);
      var es := EligibleOnes(s, now);
      && |rows| == |es|
      && forall k :: 0 <= k < |rows| ==>
           && gh.archive(es[k].apiUrl).Response?
           && rows[k] == RowFor(es[k], gh.archive(es[k].apiUrl))
           && (rows[k].success <==> Archived(es[k], now, gh))
    decreases |s|
  {
    if s != [] {
      var prefix := s[..|s| - 1];
      forall j | 0 <= j < |prefix| ensures !Raising(prefix[j], now, gh) {
        assert prefix[j] == s[j];
      }
      AttemptsAreEligible(prefix, now, gh);
      assert !Raising(s[|s| - 1], now, gh);
    }
  }

  /** An entry remains after the pass exactly when it was in the ledger and
      was not archived. */
  lemma {:induction false} RemainingMembers(s: seq<Entry>, now: Clock, gh: Github, e: Entry)
    ensures e in Remaining(s, now, gh) <==> e in s && !Archived(e, now, gh)
    decreases |s|
  {
    if s != [] {
      var prefix := s[..|s| - 1];
      RemainingMembers(prefix, now, gh, e);
      assert s == prefix + [s[|s| - 1]];
    }
  }

  /** Every "Success" row stands for exactly one removed entry. */
  lemma {:induction false} ArchiveAccounting(s: seq<Entry>, now: Clock, gh: Github)
    ensures |Remaining(s, now, gh)| + Successes(Attempts(s, now, gh)) == |s|
    decreases |s|
  {
    if s != [] {
      var prefix := s[..|s| - 1];
      ArchiveAccounting(prefix, now, gh);
      var e := s[|s| - 1];
      var tail := if Eligible(e, now) && gh.archive(e.apiUrl).Response? then [RowFor(e, gh.archive(e.apiUrl))] else [];
      var rows := Attempts(prefix, now, gh) + tail;
      assert Attempts(s, now, gh) == rows;
      assert Remaining(s, now, gh) == Remaining(prefix, now, gh) + (if Archived(e, now, gh) then [] else [e]);
      if tail != [] {
        assert rows[..|rows| - 1] == Attempts(prefix, now, gh);
        assert Successes(rows) == Successes(Attempts(prefix, now, gh)) + (if Archived(e, now, gh) then 1 else 0);
      } else {
        assert rows == Attempts(prefix, now, gh);
      }
    }
  }

  /** Removing the archived entries up to position `t`, when no entry in
      `[b, t)` was archived, keeps that stretch whole. */
  lemma {:induction false} RemainingSkipsStretch(s: seq<Entry>, now: Clock, gh: Github, b: int, t: int)
    requires 0 <= b <= t <= |s|
    requires forall j :: b <= j < t ==> !Archived(s[j], now, gh)
    ensures Remaining(s[..t], now, gh) == Remaining(s[..b], now, gh) + s[b..t]
    decreases t - b
  {
    if t > b {
      RemainingSkipsStretch(s, now, gh, b, t - 1);
      assert s[..t][..t - 1] == s[..t - 1];
      assert s[b..t] == s[b..t - 1] + [s[t - 1]];
    }
  }

  /** One more entry of the ledger, seen by `Remaining`. */
  lemma RemainingStep(s: seq<Entry>, now: Clock, gh: Github, t: int)
    requires 0 <= t < |s|
    ensures Remaining(s[..t + 1], now, gh) ==
              Remaining(s[..t], now, gh) + (if Archived(s[t], now, gh) then [] else [s[t]])
  {
    assert s[..t + 1][..t] == s[..t];
  }

  /** `idx` lists, in ascending order, exactly the positions below `n` whose
      entries were archived. */
  predicate IndexesArchived(s: seq<Entry>, n: int, idx: seq<int>, now: Clock, gh: Github)
    requires 0 <= n <= |s|
  {
    && (forall k :: 0 <= k < |idx| ==> 0 <= idx[k] < n && Archived(s[idx[k]], now, gh))
    && (forall k1, k2 :: 0 <= k1 < k2 < |idx| ==> idx[k1] < idx[k2])
    && (forall j :: 0 <= j < n && Archived(s[j], now, gh) ==> j in idx)
  }

  /** The archive batches are numbered 1, 2, ... in order. */
  predicate IdsSequential(batches: seq<Batch>)
  {
    forall k :: 0 <= k < |batches| ==> batches[k].id == k + 1
  }

  /** A pass that reads an empty ledger writes nothing, while a pass over a
      ledger holding an archivable entry writes a batch and removes it. */
  lemma {:induction false} EmptyReadArchivesNothing(s: seq<Entry>, now: Clock, gh: Github, k: int)
    requires 0 <= k < |s| && Archived(s[k], now, gh)
    ensures Attempts([], now, gh) == []
    ensures Attempts(s, now, gh) != []
    ensures |Remaining(s, now, gh)| < |s|
  {
    RemainingMembers(s, now, gh, s[k]);
    ArchiveAccounting(s, now, gh);
    if Attempts(s, now, gh) == [] {
      assert Successes(Attempts(s, now, gh)) == 0;
      SameLengthRemainingIsAll(s, now, gh);
    }
    if |Remaining(s, now, gh)| == |s| {
      SameLengthRemainingIsAll(s, now, gh);
    }
  }

  /** `Remaining` never grows, and when it keeps the length it keeps everything. */
  lemma {:induction false} SameLengthRemainingIsAll(s: seq<Entry>, now: Clock, gh: Github)
    ensures |Remaining(s, now, gh)| <= |s|
    ensures |Remaining(s, now, gh)| == |s| ==> Remaining(s, now, gh) == s
    decreases |s|
  {
    if s != [] {
      var prefix := s[..|s| - 1];
      var e := s[|s| - 1];
      SameLengthRemainingIsAll(prefix, now, gh);
      var before := Remaining(prefix, now, gh);
      if Archived(e, now, gh) {
        assert Remaining(s, now, gh) == before;
      } else {
        assert Remaining(s, now, gh) == before + [e];
        if |before| == |prefix| {
          assert s == prefix + [e];
        }
      }
    }
  }

  /** The batch Python's `archive_list[batch_id - 1]` selects among `n`
      batches: a negative position counts from the end, and a position out
      of range raises (`None`). */
  function PyIndex(i: int, n: nat): (r: Option<nat>)
    ensures r.Some? <==> 0 <= n + i && i < n
    ensures r.Some? ==> r.value < n && (r.value == i || r.value == n + i)
  {
    if 0 <= i < n then Some(i) else if 0 <= n + i && i < 0 then Some(n + i) else None
  }

  /** How an undo ends: every row undone, a failed unarchive, a failed
      restore fetch, or a call that produced no response. */
  datatype Stop = Finished | UnarchiveFailed | RestoreFailed | Raised

  /** The outcome of undoing a batch: the number of rows undone (taken off
      the head of the batch), the number of rows whose repository was
      unarchived, the ledger after them, and how it ended. */
  datatype Undo = Undo(done: nat, patched: nat, repos: seq<Entry>, stop: Stop)

  /** The contributors call of a restore produced no response, so the
      restore raises after the repository was unarchived. */
  predicate RestoreRaises(row: Row, gh: Github)
  {
    gh.contributors(gh.details(row.apiUrl).contributorsUrl).Raises?
  }

  /** The entry an undo restores for a row, built from the repository as it
      is fetched again: its current name, visibility, url and push date. */
  function Restored(row: Row, today: int, gh: Github): Entry
  {
    var d := gh.details(row.apiUrl);
    Entry(d.name, d.visibility, gh.contributors(d.contributorsUrl), d.url, d.pushed, today, NoExemption)
  }

  /** Undoing the rows head first: each row is unarchived and, when no entry
      bears its name, restored to the ledger; the first failure stops the
      undo with the rows undone before it already gone from the batch. A
      failure while restoring comes after the row's repository was
      unarchived, and the row stays in the batch. */
  function UndoFrom(rows: seq<Row>, repos: seq<Entry>, today: int, gh: Github): (u: Undo)
    ensures u.done <= u.patched <= u.done + 1 && u.patched <= |rows|
    ensures u.stop == Finished <==> u.done == |rows|
    ensures u.patched == u.done + 1 ==> u.stop == RestoreFailed || u.stop == Raised
    ensures |repos| <= |u.repos| <= |repos| + u.done
    ensures u.repos[..|repos|] == repos
    ensures forall i :: |repos| <= i < |u.repos| ==>
              && u.repos[i].dateAdded == today && u.repos[i].exemptUntil == NoExemption
              && !u.repos[i].contributors.Raises?
    decreases |rows|
  {
    if rows == [] then Undo(0, 0, repos, Finished)
    else
      var row := rows[0];
      var reply := gh.unarchive(row.apiUrl);
      if reply.NotResponse? then Undo(0, 0, repos, Raised)
      else if !reply.Ok() then Undo(0, 0, repos, UnarchiveFailed)
      else if Listed(row.name, repos) then
        var u := UndoFrom(rows[1..], repos, today, gh);
        u.(done := u.done + 1, patched := u.patched + 1)
      else
        var fetched := gh.fetch(row.apiUrl);
        if fetched.NotResponse? then Undo(0, 1, repos, Raised)
        else if !fetched.Ok() then Undo(0, 1, repos, RestoreFailed)
        else if RestoreRaises(row, gh) then Undo(0, 1, repos, Raised)
        else
          var u := UndoFrom(rows[1..], repos + [Restored(row, today, gh)], today, gh);
          u.(done := u.done + 1, patched := u.patched + 1)
  }

  /** A row the undo gets past: its repository was unarchived and, if its
      name was missing, fetched again along with its contributors. */
  predicate Undoes(row: Row, repos: seq<Entry>, gh: Github)
  {
    gh.unarchive(row.apiUrl).Ok() && (Listed(row.name, repos) || (gh.fetch(row.apiUrl).Ok() && !RestoreRaises(row, gh)))
  }

  /** The ledger after undoing one row. */
  function AfterRow(row: Row, repos: seq<Entry>, today: int, gh: Github): seq<Entry>
  {
    if Listed(row.name, repos) then repos else repos + [Restored(row, today, gh)]
  }

  /** One step of the undo: a row that is undone is followed by the undo of
      the rest, and a row that is not undone ends the undo there. */
  lemma UndoStep(rows: seq<Row>, repos: seq<Entry>, today: int, gh: Github)
    requires rows != []
    ensures var u := UndoFrom(rows, repos, today, gh);
      if Undoes(rows[0], repos, gh) then
        var rest := UndoFrom(rows[1..], AfterRow(rows[0], repos, today, gh), today, gh);
        u == rest.(done := rest.done + 1, patched := rest.patched + 1)
      else
        && u.done == 0 && u.repos == repos && u.stop != Finished
        && (u.patched == 1 <==> gh.unarchive(rows[0].apiUrl).Ok())
  {
  }

  /** A restore that fails after its repository was unarchived leaves the
      row in the batch: the repository is unarchived, yet the batch still
      lists it as archived. */
  lemma UndoStrandsRow(rows: seq<Row>, repos: seq<Entry>, today: int, gh: Github)
    requires rows != [] && gh.unarchive(rows[0].apiUrl).Ok() && !Listed(rows[0].name, repos)
    requires gh.fetch(rows[0].apiUrl).Response? && !gh.fetch(rows[0].apiUrl).Ok()
    ensures var u := UndoFrom(rows, repos, today, gh);
      u.patched == 1 && u.done == 0 && u.stop == RestoreFailed
  {
  }

  /** The undo as documented: a row leaves the batch as soon as its
      repository is unarchived, and a failed restore then ends the undo. */
  function UndoFromIntended(rows: seq<Row>, repos: seq<Entry>, today: int, gh: Github): (u: Undo)
    ensures u.done == u.patched <= |rows|
    ensures u.stop == Finished ==> u.done == |rows|
    decreases |rows|
  {
    if rows == [] then Undo(0, 0, repos, Finished)
    else
      var row := rows[0];
      var reply := gh.unarchive(row.apiUrl);
      if reply.NotResponse? then Undo(0, 0, repos, Raised)
      else if !reply.Ok() then Undo(0, 0, repos, UnarchiveFailed)
      else if Listed(row.name, repos) then
        var u := UndoFromIntended(rows[1..], repos, today, gh);
        u.(done := u.done + 1, patched := u.patched + 1)
      else
        var fetched := gh.fetch(row.apiUrl);
        if fetched.NotResponse? then Undo(1, 1, repos, Raised)
        else if !fetched.Ok() then Undo(1, 1, repos, RestoreFailed)
        else if RestoreRaises(row, gh) then Undo(1, 1, repos, Raised)
        else
          var u := UndoFromIntended(rows[1..], repos + [Restored(row, today, gh)], today, gh);
          u.(done := u.done + 1, patched := u.patched + 1)
  }

  /** The documented undo differs from the code only in what stays in the
      batch: it unarchives the same repositories, leaves the same ledger and
      ends the same way, and it takes every unarchived row off the batch. */
  lemma {:induction false} UndoIntendedUnstrands(rows: seq<Row>, repos: seq<Entry>, today: int, gh: Github)
    ensures var w := UndoFrom(rows, repos, today, gh);
      var u := UndoFromIntended(rows, repos, today, gh);
      u == w.(done := w.patched)
    decreases |rows|
  {
    if rows != [] && gh.unarchive(rows[0].apiUrl).Ok() {
      if Listed(rows[0].name, repos) {
        UndoIntendedUnstrands(rows[1..], repos, today, gh);
      } else if gh.fetch(rows[0].apiUrl).Ok() && !RestoreRaises(rows[0], gh) {
        UndoIntendedUnstrands(rows[1..], repos + [Restored(rows[0], today, gh)], today, gh);
      }
    }
  }

  /** When every repository keeps its name, an undo keeps a name-unique
      ledger name-unique and every undone row's name is in the ledger
      afterwards. */
  lemma {:induction false} UndoRestoresNames(rows: seq<Row>, repos: seq<Entry>, today: int, gh: Github)
    requires NamesUnique(repos)
    requires forall k :: 0 <= k < |rows| ==> gh.details(rows[k].apiUrl).name == rows[k].name
    ensures var u := UndoFrom(rows, repos, today, gh);
      && NamesUnique(u.repos)
      && forall k :: 0 <= k < u.done ==> Listed(rows[k].name, u.repos)
    decreases |rows|
  {
    if rows != [] {
      var u := UndoFrom(rows, repos, today, gh);
      UndoStep(rows, repos, today, gh);
      if Undoes(rows[0], repos, gh) {
        var next := AfterRow(rows[0], repos, today, gh);
        if !Listed(rows[0].name, repos) {
          forall i, j | 0 <= i < j < |next| ensures next[i].name != next[j].name {
            if j == |repos| {
              assert repos[i].name != rows[0].name;
            }
          }
          assert next[|repos|].name == rows[0].name;
        }
        assert Listed(rows[0].name, next);
        var rest := rows[1..];
        forall k | 0 <= k < |rest| ensures gh.details(rest[k].apiUrl).name == rest[k].name {
          assert rest[k] == rows[k + 1];
        }
        UndoRestoresNames(rest, next, today, gh);
        var v := UndoFrom(rest, next, today, gh);
        assert u.repos == v.repos;
        forall k | 0 <= k < u.done ensures Listed(rows[k].name, u.repos) {
          if k == 0 {
            var i :| 0 <= i < |next| && next[i].name == rows[0].name;
            assert u.repos[i] == next[i];
          } else {
            assert rows[k] == rest[k - 1];
          }
        }
      }
    }
  }
}
