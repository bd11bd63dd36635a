/** `satprep_diff.py`'s `main` end to end: the delta report, then, unless
    host reports are switched off, one page per host made from that report
    read back. */
module SatprepDiff {
  import opened Wrappers
  import opened PyText
  import opened Schema
  import opened DeltaReport
  import opened DiffRun
  import opened Checklist
  import opened ReportPages

  /** Why the run stops early: a check of the environment or the reports,
      or an exception while the pages are made. */
  datatype Stop = Setup(failure: Failure) | Crash(error: ReportError)

  /** `order` is the order in which the dictionary of column positions
      hands out its keys. */
  method Diff(r0: Report, r1: Report, given: string, noHostReports: bool, m: Machine,
              order: seq<string>) returns (res: Result<(Outcome, seq<Page>), Stop>)
    ensures Header(r0) != Header(r1) ==> res == Err(Setup(HeadersIncompatible))
    ensures res.Err? && res.error.Crash? ==> !noHostReports
    ensures res.Ok? ==>
      && Header(r0) == Header(r1)
      && res.value.0.csv == Header(r0) + Cleanup(Concat(Delta(ReadLines(r0.text), ReadLines(r1.text))))
      && ResolvedFrom(res.value.0.cols, Headers(Header(r0)), DiffColumns)
      && res.value.0.date == Second(r0, r1).day
    ensures res.Ok? && noHostReports ==> res.value.1 == []
    ensures res.Ok? && !noHostReports ==>
      var o := res.value.0;
      Pages(o.csv, o.cols, order, o.date, o.log.Text(), o.log.Valid?) == Ok(res.value.1)
  {
    var run := Run(r0, r1, given, noHostReports, m);
    if run.Err? {
      return Err(Setup(run.error));
    }
    var o := run.value;
    if noHostReports {
      return Ok((o, []));
    }
    var pages := WriteReports(o.csv, o.cols, order, o.date, o.log.Text(), o.log.Valid?);
    if pages.Err? {
      return Err(Crash(pages.error));
    }
    return Ok((o, pages.value));
  }
}
