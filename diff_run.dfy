/** The first half of `satprep_diff.py`'s `main`: the header check, the
    column positions, the checks of the environment, which report counts as
    the first snapshot, the report date, the verification log and the delta
    CSV text. */
module DiffRun {
  import opened Wrappers
  import opened PyText
  import opened Schema
  import opened DeltaReport

  /** What the script learns about one snapshot report file: its text, its
      change time, and its modification time rendered both as `%Y-%m-%d`
      (`day`) and as `%Y%m%d` (`stamp`). */
  datatype Report = Report(text: string, ctime: int, day: string, stamp: string)

  /** What the script asks of the machine: whether the pdflatex binary is
      executable, whether the template exists, whether the output directory
      is writable, and the files `os.access(p, os.W_OK)` accepts, with their
      contents. */
  datatype Machine = Machine(
    pdflatexExecutable: bool,
    templateExists: bool,
    outputWritable: bool,
    writable: map<string, string>)

  datatype Failure =
    | HeadersIncompatible  // the two first lines differ: exit(1)
    | PdflatexMissing      // exit(1)
    | TemplateMissing      // error logged, nothing written
    | OutputNotWritable    // error logged, nothing written
    | LogUnreadable        // open("") raises IOError

  /** The verification log as the host reports use it: its text, or the
      `vlogInvalid` flag (the text is then empty). */
  datatype Vlog = Valid(text: string) | Invalid {
    function Text(): string {
      if Valid? then text else ""
    }
  }

  datatype Outcome = Outcome(
    header: string,      // first line of both reports
    csv: string,         // the delta report: header and delta lines
    cols: Columns,       // column positions (`repcols`)
    date: string,        // `this_date`
    log: Vlog,
    hostReports: bool)   // false under --no-host-reports

  predicate Accessible(files: map<string, string>, p: string) {
    p != "" && p in files
  }

  /** The name every log derived from a report's time carries. */
  function DerivedLog(r: Report): string {
    r.stamp + "_satprep.vlog"
  }

  /** The choice of verification log: an explicitly given log is kept when it
      is accessible; otherwise the log named after the first snapshot is taken
      when it is accessible; otherwise none. */
  function ChooseLog(given: string, derived: string, files: map<string, string>): (r: string)
    ensures r == "" || Accessible(files, r)
    ensures Accessible(files, given) ==> r == given
    ensures !Accessible(files, given) && Accessible(files, derived) ==> r == derived
    ensures !Accessible(files, given) && !Accessible(files, derived) ==> r == ""
  {
    if given == "" then
      (if Accessible(files, derived) then derived else given)
    else if !Accessible(files, given) then
      (if Accessible(files, derived) then derived else "")
    else given
  }

  /** The header line both reports must share, as `readline()` returns it. */
  function Header(r: Report): string {
    ReadLine(r.text)
  }

  /** The report that counts as the first snapshot: the first argument when
      its change time is strictly earlier, the second otherwise. */
  function First(r0: Report, r1: Report): Report {
    if r0.ctime < r1.ctime then r0 else r1
  }

  /** The newer snapshot, whose date the host reports carry. */
  function Second(r0: Report, r1: Report): Report {
    if r0.ctime < r1.ctime then r1 else r0
  }

  method Run(r0: Report, r1: Report, given: string, noHostReports: bool, m: Machine)
    returns (res: Result<Outcome, Failure>)
    ensures Header(r0) != Header(r1) ==> res == Err(HeadersIncompatible)
    ensures Header(r0) == Header(r1) && !m.pdflatexExecutable ==> res == Err(PdflatexMissing)
    ensures Header(r0) == Header(r1) && m.pdflatexExecutable && !m.templateExists ==>
      res == Err(TemplateMissing)
    ensures (Header(r0) == Header(r1) && m.pdflatexExecutable && m.templateExists
             && !m.outputWritable) ==> res == Err(OutputNotWritable)
    ensures (Header(r0) == Header(r1) && m.pdflatexExecutable && m.templateExists
             && m.outputWritable) ==>
        (res.Err? <==> r0.ctime < r1.ctime && ChooseLog(given, DerivedLog(r0), m.writable) == "")
    ensures res.Err? ==> res.error != LogUnreadable || r0.ctime < r1.ctime
    ensures res.Ok? ==>
      && res.value.header == Header(r0) == Header(r1)
      && res.value.csv == Header(r0) + Cleanup(Concat(Delta(ReadLines(r0.text), ReadLines(r1.text))))
      && ResolvedFrom(res.value.cols, Headers(Header(r0)), DiffColumns)
      && res.value.date == Second(r0, r1).day
      && res.value.hostReports == !noHostReports
    ensures res.Ok? ==>
      var p := ChooseLog(given, DerivedLog(First(r0, r1)), m.writable);
      res.value.log == (if p == "" then Invalid else Valid(m.writable[p]))
  {
    var header := ReadLine(r0.text);
    if header != ReadLine(r1.text) {
      return Err(HeadersIncompatible);
    }
    var cols := Resolve(Headers(header), DiffColumns);
    if !m.pdflatexExecutable {
      return Err(PdflatexMissing);
    }
    if !m.templateExists {
      return Err(TemplateMissing);
    }
    if !m.outputWritable {
      return Err(OutputNotWritable);
    }
    var dated := DateAndLog(r0, r1, given, m.writable);
    if dated.Err? {
      return Err(dated.error);
    }
    var (date, log) := dated.value;
    var lines := DeltaLines(ReadLines(r0.text), ReadLines(r1.text));
    var csv := header + Cleanup(Concat(lines));
    return Ok(Outcome(header, csv, cols, date, log, !noHostReports));
  }

  /** The report date and the verification log, for either order of the two
      reports' change times. */
  method DateAndLog(r0: Report, r1: Report, given: string, files: map<string, string>)
    returns (res: Result<(string, Vlog), Failure>)
    ensures res.Err? <==> r0.ctime < r1.ctime && ChooseLog(given, DerivedLog(r0), files) == ""
    ensures res.Err? ==> res.error == LogUnreadable
    ensures res.Ok? ==> res.value.0 == Second(r0, r1).day
    ensures res.Ok? ==>
      var p := ChooseLog(given, DerivedLog(First(r0, r1)), files);
      res.value.1 == (if p == "" then Invalid else Valid(files[p]))
  {
    if r0.ctime < r1.ctime {
      var path := ChooseLog(given, DerivedLog(r0), files);
      // this branch never sets vlogInvalid, so the log is opened regardless
      if !Accessible(files, path) {
        return Err(LogUnreadable);
      }
      return Ok((r1.day, Valid(files[path])));
    } else {
      var path := ChooseLog(given, DerivedLog(r1), files);
      if path == "" {
        return Ok((r0.day, Invalid));
      }
      return Ok((r0.day, Valid(files[path])));
    }
  }

  /** The header both reports open with drops out of the delta unless the
      first report repeats it further down. */
  lemma HeaderNotInDelta(r0: Report, r1: Report)
    requires |r0.text| > 0 && |r1.text| > 0 && Header(r0) == Header(r1)
    requires multiset(ReadLines(r0.text))[Header(r0)] == 1
    ensures Header(r0) !in Delta(ReadLines(r0.text), ReadLines(r1.text))
  {
    var f2 := ReadLines(r1.text);
    assert f2[0] == Header(r1);
    assert multiset(f2)[Header(r0)] >= 1;
    DeltaMembership(ReadLines(r0.text), f2, Header(r0));
  }
}
