/**
  The destination spreadsheet: its worksheets by title, each with its header row,
  and the three steps of one upload — resolve the worksheet named for the
  report's hostname (`loadSheet`), build the report record, and reconcile the
  worksheet's header with the record's keys (`mergeHeader`).
 */
module Sheets {
  import opened Headers
  import opened Records
  import opened Reports

  /** The worksheet titles after resolving a hostname: a sheet is added only when no
      sheet has that title yet. */
  function ResolveDirectory(titles: set<string>, hostname: string): (r: set<string>)
    ensures hostname in r
    ensures titles <= r && r - titles <= {hostname}
    ensures hostname in titles <==> r == titles
    ensures |r| == if hostname in titles then |titles| else |titles| + 1
  {
    if hostname in titles then titles else titles + {hostname}
  }

  /** Resolving the same hostname again changes nothing. */
  lemma ResolveIdempotent(titles: set<string>, hostname: string)
    ensures ResolveDirectory(ResolveDirectory(titles, hostname), hostname) == ResolveDirectory(titles, hostname)
  {
  }

  /** The spreadsheet document (`doc`). */
  class Spreadsheet {
    /** Each worksheet's header row, keyed by title (`doc.sheetsByTitle`). */
    var sheetsByTitle: map<string, seq<string>>

    /** `loadSheet`: make sure a worksheet titled with the hostname exists and return
        its title. A new worksheet starts with an empty header row. */
    method LoadSheet(hostname: string) returns (title: string)
      modifies this
      ensures title == hostname && title in sheetsByTitle
      ensures sheetsByTitle.Keys == ResolveDirectory(old(sheetsByTitle).Keys, hostname)
      ensures forall t :: t in old(sheetsByTitle) ==> sheetsByTitle[t] == old(sheetsByTitle)[t]
      ensures hostname !in old(sheetsByTitle) ==> sheetsByTitle[hostname] == []
    {
      if hostname !in sheetsByTitle {
        // doc.addSheet({ title: hostname })
        sheetsByTitle := sheetsByTitle[hostname := []];
      }
      title := hostname;
    }

    /** `mergeHeader`: read the worksheet's header row and write it back with the
        missing names appended. No other worksheet changes. */
    method MergeHeader(title: string, newHeaders: seq<string>)
      requires title in sheetsByTitle
      modifies this
      ensures sheetsByTitle.Keys == old(sheetsByTitle).Keys
      ensures sheetsByTitle[title] == Merge(old(sheetsByTitle)[title], newHeaders)
      ensures forall t :: t in old(sheetsByTitle) && t != title ==> sheetsByTitle[t] == old(sheetsByTitle)[t]
    {
      var currentHeaders := sheetsByTitle[title];
      var diff := Diff(newHeaders, currentHeaders);
      sheetsByTitle := sheetsByTitle[title := currentHeaders + diff];
    }

    /** `uploadReport` for a report whose requested URL has the given hostname: the
        worksheet for the hostname exists afterwards, its header is the old one (empty
        for a new worksheet) with the report record's missing keys appended, and every
        other worksheet is as it was. */
    method UploadReport(report: Report, hostname: string)
      requires WellFormed(report)
      modifies this
      ensures sheetsByTitle.Keys == ResolveDirectory(old(sheetsByTitle).Keys, hostname)
      ensures forall t :: t in old(sheetsByTitle) && t != hostname ==> sheetsByTitle[t] == old(sheetsByTitle)[t]
      ensures sheetsByTitle[hostname] ==
                Merge(if hostname in old(sheetsByTitle) then old(sheetsByTitle)[hostname] else [],
                      Keys(ReportData(report, Flattened(report.audits))))
    {
      var sheet := LoadSheet(hostname);
      var audits := FlattenAudits(report.audits);
      var reportData := ReportData(report, audits);
      MergeHeader(sheet, Keys(reportData));
    }
  }
}
