/**
 * The two text reports the command prints from its results: the table, with its
 * per-status tallies, and the CSV listing.
 */
module Report {
  import opened Wrappers
  import opened Text
  import opened Domain
  import opened Checker
  import Scheduler

  // ---------------------------------------------------------------------------
  // `outputTable`

  /** The number of results with status `status`. */
  function Count(results: seq<DomainCheckResult>, status: DomainStatus): nat {
    if results == [] then 0
    else Count(results[..|results| - 1], status) + (if results[|results| - 1].status == status then 1 else 0)
  }

  /** Every result is counted under exactly one of the three statuses. */
  lemma {:induction false} CountsCoverAll(results: seq<DomainCheckResult>)
    ensures Count(results, Available) + Count(results, Registered) + Count(results, Error) == |results|
  {
    if results != [] {
      CountsCoverAll(results[..|results| - 1]);
    }
  }

  /** PHP's truth value of a string: every string but "" and "0". */
  predicate Truthy(s: string) {
    s != "" && s != "0"
  }

  /** The TLD column: the TLD after a dot when it is truthy, a dash otherwise. */
  function TldCell(tld: Option<string>): string {
    match tld
    case None => "-"
    case Some(t) => if Truthy(t) then "." + t else "-"
  }

  /**
   * The dash stands for a null TLD and also for the two falsy ones, "" and "0"; any other
   * TLD is shown whole after its dot.
   */
  lemma TldCellDash(tld: Option<string>)
    ensures TldCell(tld) == "-" <==> tld.None? || tld == Some("") || tld == Some("0")
    ensures tld.Some? && Truthy(tld.value) ==> TldCell(tld)[0] == '.' && TldCell(tld)[1..] == tld.value
  {
    if tld.Some? && Truthy(tld.value) {
      assert TldCell(tld)[0] == '.';
    }
  }

  /** The status column, with the error message, or "Unknown" in its place when there is none. */
  function StatusText(r: DomainCheckResult): string {
    match r.status
    case Available => "<fg=green>AVAILABLE</>"
    case Registered => "<fg=red>REGISTERED</>"
    case Error =>
      "<fg=yellow>ERROR: " + (match r.errorMessage case Some(m) => m case None => "Unknown") + "</>"
  }

  function TableRow(r: DomainCheckResult): seq<string> {
    [r.domain, TldCell(r.tld), StatusText(r)]
  }

  /** The error column carries the result's own message whenever it has one. */
  lemma ErrorTextCarriesMessage(r: DomainCheckResult)
    requires r.status == Error && r.errorMessage.Some?
    ensures var t := StatusText(r); var m := r.errorMessage.value;
            |t| == 18 + |m| + 3 && t[18..18 + |m|] == m
  {
    var t := StatusText(r);
    var m := r.errorMessage.value;
    assert t == "<fg=yellow>ERROR: " + m + "</>";
  }

  /** `outputTable`: a row per result and the three counters, each raised once per result. */
  method OutputTable(results: seq<DomainCheckResult>)
    returns (rows: seq<seq<string>>, available: nat, registered: nat, errors: nat)
    ensures |rows| == |results| && forall i :: 0 <= i < |results| ==> rows[i] == TableRow(results[i])
    ensures available == Count(results, Available)
    ensures registered == Count(results, Registered)
    ensures errors == Count(results, Error)
    ensures available + registered + errors == |results|
  {
    rows := [];
    available, registered, errors := 0, 0, 0;
    for i := 0 to |results|
      invariant |rows| == i && forall j :: 0 <= j < i ==> rows[j] == TableRow(results[j])
      invariant available == Count(results[..i], Available)
      invariant registered == Count(results[..i], Registered)
      invariant errors == Count(results[..i], Error)
    {
      var r := results[i];
      assert results[..i + 1][..i] == results[..i];
      match r.status {
        case Available => available := available + 1;
        case Registered => registered := registered + 1;
        case Error => errors := errors + 1;
      }
      rows := rows + [TableRow(r)];
    }
    assert results[..|results|] == results;
    CountsCoverAll(results);
  }

  /** Checking the domains read and tallying the results accounts for every domain once. */
  lemma TalliesCoverInput(client: Client, domains: seq<string>, c: nat)
    requires c >= 1
    ensures Scheduler.GroupsOk(Scheduler.Grouped(domains))
    ensures var results := Scheduler.Checked(client, Scheduler.Flatten(Scheduler.Schedule(Scheduler.Grouped(domains), c)));
            Count(results, Available) + Count(results, Registered) + Count(results, Error) == |domains|
  {
    Scheduler.OneResultPerDomain(client, domains, c);
    var results := Scheduler.Checked(client, Scheduler.Flatten(Scheduler.Schedule(Scheduler.Grouped(domains), c)));
    assert |Scheduler.ResultDomains(results)| == |multiset(Scheduler.ResultDomains(results))| == |multiset(domains)| == |domains|;
    CountsCoverAll(results);
  }

  // ---------------------------------------------------------------------------
  // `outputCsv`

  const CsvHeader: string := "domain,tld,status,error"

  /** A nullable field as `sprintf` renders it after `?? ''`. */
  function OrEmpty(field: Option<string>): string {
    match field
    case None => ""
    case Some(v) => v
  }

  /** One line: domain, TLD, status value and error message, comma-separated. */
  function CsvLine(r: DomainCheckResult): string {
    r.domain + "," + OrEmpty(r.tld) + "," + StatusValue(r.status) + "," + OrEmpty(r.errorMessage)
  }

  /** `outputCsv`: the header line, then one line per result in order. */
  method OutputCsv(results: seq<DomainCheckResult>) returns (lines: seq<string>)
    ensures |lines| == |results| + 1 && lines[0] == CsvHeader
    ensures forall i :: 0 <= i < |results| ==> lines[i + 1] == CsvLine(results[i])
  {
    lines := [CsvHeader];
    for i := 0 to |results|
      invariant |lines| == i + 1 && lines[0] == CsvHeader
      invariant forall j :: 0 <= j < i ==> lines[j + 1] == CsvLine(results[j])
    {
      lines := lines + [CsvLine(results[i])];
    }
  }

  lemma StatusValueHasNoComma(s: DomainStatus)
    ensures ',' !in StatusValue(s)
  {
    match s
    case Available => assert StatusValue(s) == "available";
    case Registered => assert StatusValue(s) == "registered";
    case Error => assert StatusValue(s) == "error";
  }

  /** The header names four columns. */
  lemma CsvHeaderFields()
    ensures Split(CsvHeader, ',') == ["domain", "tld", "status", "error"]
  {
    var names := ["domain", "tld", "status", "error"];
    assert CsvHeader == Join(names, ',');
    JoinSplit(names, ',');
  }

  /**
   * When no field holds a comma, a line splits back into exactly its four fields: the
   * domain, the TLD, the status value and the message, with null shown as empty.
   */
  lemma CsvLineFields(r: DomainCheckResult)
    requires ',' !in r.domain && ',' !in OrEmpty(r.tld) && ',' !in OrEmpty(r.errorMessage)
    ensures Split(CsvLine(r), ',') == [r.domain, OrEmpty(r.tld), StatusValue(r.status), OrEmpty(r.errorMessage)]
  {
    var fields := [r.domain, OrEmpty(r.tld), StatusValue(r.status), OrEmpty(r.errorMessage)];
    StatusValueHasNoComma(r.status);
    assert Join(fields[2..], ',') == fields[2] + [','] + fields[3];
    assert Join(fields[1..], ',') == fields[1] + [','] + Join(fields[2..], ',');
    assert CsvLine(r) == Join(fields, ',');
    JoinSplit(fields, ',');
  }

  /** So such a line determines the domain, the status and the two rendered fields. */
  lemma CsvLineDetermines(r1: DomainCheckResult, r2: DomainCheckResult)
    requires ',' !in r1.domain && ',' !in OrEmpty(r1.tld) && ',' !in OrEmpty(r1.errorMessage)
    requires ',' !in r2.domain && ',' !in OrEmpty(r2.tld) && ',' !in OrEmpty(r2.errorMessage)
    requires CsvLine(r1) == CsvLine(r2)
    ensures r1.domain == r2.domain && r1.status == r2.status
    ensures OrEmpty(r1.tld) == OrEmpty(r2.tld) && OrEmpty(r1.errorMessage) == OrEmpty(r2.errorMessage)
  {
    CsvLineFields(r1);
    CsvLineFields(r2);
    StatusValueInjective(r1.status, r2.status);
  }
}
