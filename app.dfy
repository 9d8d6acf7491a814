/** The page's top-level chain: project the fetched dataset, then build the age table; a
    failed projection leaves the table as it was and only reports the error. The fetch
    itself is not modelled: the parsed dataset is the input. */
module App {
  import opened Calendar
  import opened Members
  import opened Table

  /** Projects `data` and, if every legislator has a term, fills `body` with the table of
      the projected members, oldest first. Otherwise `body` is left untouched and `ok` is
      false. */
  method ShowCongressAges(data: seq<Legislator>, today: Date, body: TableBody) returns (ok: bool)
    modifies body
    ensures ok <==> forall i :: 0 <= i < |data| ==> |data[i].terms| > 0
    ensures ok ==> body.rows == Rows(SortedByAge(ProjectAll(data).members, today), today)
    ensures !ok ==> body.rows == old(body.rows)
  {
    var p := ProjectAll(data);
    match p
    case NoTerms(_) =>
      ok := false;
    case Projected(ms) =>
      var members := new Member[|ms|](i requires 0 <= i < |ms| => ms[i]);
      assert members[..] == ms;
      BuildTable(body, members, today);
      ok := true;
  }
}
