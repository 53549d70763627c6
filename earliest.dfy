/** `GetOrgRepos` of RepoArchiveTool/apiScript.py, the earliest copy of the
    search: a console script that reads its inputs from the terminal and
    writes the html urls it collects to a file. The terminal and the file
    are not modelled; the cutoff, the repository type and the client are
    parameters. */
module Earliest {
  import opened Remote
  import opened Cutover
  import opened Search

  /** A calendar date as the script builds it from three numbers. */
  datatype CalendarDate = CalendarDate(year: int, month: int, day: int)

  /** Gregorian leap years. */
  predicate LeapYear(year: int)
  {
    year % 4 == 0 && (year % 100 != 0 || year % 400 == 0)
  }

  function DaysInMonth(year: int, month: int): int
  {
    if month == 2 then (if LeapYear(year) then 29 else 28)
    else if month in {4, 6, 9, 11} then 30
    else 31
  }

  /** The numbers `datetime.date(year, month, day)` accepts: a year from 1
      to 9999, a month from 1 to 12 and a day that month has. Any others
      raise. */
  predicate ValidDate(year: int, month: int, day: int)
  {
    1 <= year <= 9999 && 1 <= month <= 12 && 1 <= day <= DaysInMonth(year, month)
  }

  /** The date read from the `-`-separated fields of the input, already
      converted to numbers. The script unpacks exactly three fields as day,
      month and year; the later copies unpack year, month and day. Any
      other number of fields, or numbers that name no calendar day, raise
      (`None` here). */
  function ReadDate(fields: seq<int>, dayFirst: bool): (d: Option<CalendarDate>)
    ensures d.Some? <==>
              && |fields| == 3
              && if dayFirst then ValidDate(fields[2], fields[1], fields[0]) else ValidDate(fields[0], fields[1], fields[2])
    ensures d.Some? ==> d.value.month == fields[1]
    ensures d.Some? && dayFirst ==> d.value.day == fields[0] && d.value.year == fields[2]
    ensures d.Some? && !dayFirst ==> d.value.year == fields[0] && d.value.day == fields[2]
  {
    if |fields| != 3 then None
    else
      var date := if dayFirst then CalendarDate(fields[2], fields[1], fields[0])
                  else CalendarDate(fields[0], fields[1], fields[2]);
      if ValidDate(date.year, date.month, date.day) then Some(date) else None
  }

  /** The earliest script and the later copies disagree on almost every
      input. An input both accept names the same date under both readings
      exactly when its first and last fields are equal. A day-first date
      whose year is above 31, which is every date the script is meant for,
      is refused by the year-first reading. */
  lemma DateOrdersAgree(fields: seq<int>)
    requires |fields| == 3
    ensures ReadDate(fields, true).Some? && ReadDate(fields, false).Some? ==>
              (ReadDate(fields, true) == ReadDate(fields, false) <==> fields[0] == fields[2])
    ensures ReadDate(fields, true).Some? && fields[2] > 31 ==> ReadDate(fields, false).None?
  {
    if ReadDate(fields, true).Some? && ReadDate(fields, false).Some? && ReadDate(fields, true) == ReadDate(fields, false) {
      assert ReadDate(fields, true).value.day == ReadDate(fields, false).value.day;
    }
  }

  /** The repository-type menu: 1 all, 2 public, 3 private, 4 internal, and
      any other choice all. */
  function RepoTypeFor(choice: int): (t: string)
    ensures t in {"all", "public", "private", "internal"}
    ensures t == "all" <==> choice !in {2, 3, 4}
    ensures choice == 2 <==> t == "public"
    ensures choice == 3 <==> t == "private"
    ensures choice == 4 <==> t == "internal"
  {
    match choice
    case 1 => "all"
    case 2 => "public"
    case 3 => "private"
    case 4 => "internal"
    case _ => "all"
  }

  /** The html urls of the collected repositories, in collection order. */
  function HtmlUrls(rs: seq<Repo>): seq<string>
  {
    seq(|rs|, i requires 0 <= i < |rs| => rs[i].htmlUrl)
  }

  /** The search. A first call with an error status prints and ends the
      script; no failure is reported as an error message. A one-page
      organisation is searched only when the probe of page 1 does not spin
      (`SpinsOnOnePage`). With a sorted listing and successful calls the
      urls are those of exactly the candidates. */
  method GetOrgRepos(org: Org, cutoff: int) returns (r: Outcome<seq<string>>)
    requires LinkSane(org)
    requires LastPage(org.lastLink) == 1 ==> !SpinsOnOnePage(org, cutoff)
    ensures org.listing(1).NotResponse? ==> r == Raises
    ensures org.listing(1).Response? && !org.listing(1).Ok() ==> r == NoneResult
    ensures !r.Err?
    ensures org.pages == [] && org.lastLink.None? && org.listing(1).Ok() ==> r == Raises
    ensures r.Ok? && Paginated(org) && SortedByPush(org) && DetailsOk(org) && ListingsOk(org, 1, |org.pages|) ==>
              r.value == HtmlUrls(Candidates(org, cutoff))
    ensures Paginated(org) && |org.pages| >= 1 && ListingsOk(org, 1, |org.pages|) && DetailsOk(org) ==> r.Ok?
  {
    var first := org.listing(1);
    if first.NotResponse? {
      return Raises;
    }
    if !first.Ok() {
      return NoneResult;
    }
    var last := LastPage(org.lastLink);
    if Paginated(org) && |org.pages| >= 1 && ListingsOk(org, 1, |org.pages|) && DetailsOk(org) {
      SearchSucceeds(org, Script, cutoff);
    }
    var found := Locate(org, Script, cutoff, last);
    if !found.Ok? {
      return Rethrow(found);
    }
    var P := found.value;
    var kept := Collect(org, Script, cutoff, P, last);
    if !kept.Ok? {
      return Rethrow(kept);
    }
    if Paginated(org) && SortedByPush(org) && DetailsOk(org) && ListingsOk(org, 1, |org.pages|) {
      SearchSound(org, Script, cutoff, P);
    }
    return Ok(HtmlUrls(kept.value));
  }
}
