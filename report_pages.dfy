/** The last part of `satprep_diff.py`'s `main` (lines 230-456): the delta
    report read back, and per host the values its LaTeX report is filled
    with. The locals of the checklist are those of `main`, so a host sees
    what the hosts before it left; the reboot box and the errata lists
    start afresh for each host. */
module ReportPages {
  import opened Wrappers
  import opened PyText
  import opened Schema
  import opened Checklist
  import opened ErrataTable
  import opened HostReport

  /** The keyword arguments of `s.substitute(...)` (line 462) that come from
      the rows; the page orientation, footer and logo come from the command
      line and are not part of this model. */
  datatype Page = Page(
    file: string,           // `host.replace(" ","") + ".tex"`
    title: string,          // titleHostname
    ip: string,
    date: string,
    owner: string,
    standalone: string,     // systemStandalone
    cluster: string,        // systemCluster
    hints: string,          // hintsClusterTest
    hwCheckNo: string,
    hwCheckNotes: string,
    vmSnapYes: string,
    vmSnapNo: string,
    vmSnapNotes: string,
    rebootNo: string,
    rebootNotes: string,
    errata: string,
    monSchedYes: string,
    monSchedNo: string,
    monSchedNotes: string,
    backupNo: string,       // BackupNo
    backupNotes: string,    // BackupNoNotes
    antivirNo: string,      // AntivirNo
    antivirNotes: string)   // AntivirNoNotes

  /** The locals the substitution reads are all bound. */
  predicate Bound(v: Locals) {
    && v.ip.Some? && v.owner.Some? && v.standalone.Some? && v.cluster.Some?
    && v.hintsCluster.Some? && v.hwCheckNo.Some? && v.hwCheckNotes.Some?
    && v.vmSnapYes.Some? && v.vmSnapNo.Some? && v.vmSnapNotes.Some?
    && v.monYes.Some? && v.monNo.Some? && v.monNotes.Some?
    && v.backupNo.Some? && v.backupNotes.Some?
    && v.antivirNo.Some? && v.antivirNotes.Some?
  }

  /** The file name of a host's report: the host name without blanks. */
  function FileName(host: string): (r: string)
    ensures ' ' !in r
    ensures |r| >= 4 && r[|r| - 4..] == ".tex"
    ensures ' ' !in host ==> r == host + ".tex"
  {
    ReplaceDeletes(host, ' ', ' ');
    ContainsChar(host, ' ');
    ReplaceAbsentIf(host, " ", "");
    Replace(host, " ", "") + ".tex"
  }

  /** Line 462: the values handed to the template. Reading a local no row
      has assigned raises UnboundLocalError. The title is the host name
      itself; the downtime boxes are `this_monYes`/`this_monNo`. */
  function MakePage(v: Locals, h: HostState, host: string, date: string, table: string)
    : (r: Result<Page, ReportError>)
    ensures r.Ok? <==> Bound(v)
    ensures r.Err? ==> r.error == UnboundLocal
    ensures r.Ok? ==>
      && r.value.file == FileName(host) && r.value.title == host && r.value.date == date
      && r.value.errata == table
      && r.value.rebootNo == h.noReboot && r.value.rebootNotes == h.rebootNotes
      && Some(r.value.ip) == v.ip && Some(r.value.owner) == v.owner
      && Some(r.value.standalone) == v.standalone && Some(r.value.cluster) == v.cluster
      && Some(r.value.hints) == v.hintsCluster
      && Some(r.value.hwCheckNo) == v.hwCheckNo && Some(r.value.hwCheckNotes) == v.hwCheckNotes
      && Some(r.value.vmSnapYes) == v.vmSnapYes && Some(r.value.vmSnapNo) == v.vmSnapNo
      && Some(r.value.vmSnapNotes) == v.vmSnapNotes
      && Some(r.value.monSchedYes) == v.monYes && Some(r.value.monSchedNo) == v.monNo
      && Some(r.value.monSchedNotes) == v.monNotes
      && Some(r.value.backupNo) == v.backupNo && Some(r.value.backupNotes) == v.backupNotes
      && Some(r.value.antivirNo) == v.antivirNo && Some(r.value.antivirNotes) == v.antivirNotes
  {
    if !Bound(v) then Err(UnboundLocal)
    else
      Ok(Page(FileName(host), host, v.ip.value, date, v.owner.value, v.standalone.value,
              v.cluster.value, v.hintsCluster.value, v.hwCheckNo.value, v.hwCheckNotes.value,
              v.vmSnapYes.value, v.vmSnapNo.value, v.vmSnapNotes.value, h.noReboot,
              h.rebootNotes, table, v.monYes.value, v.monNo.value, v.monNotes.value,
              v.backupNo.value, v.backupNotes.value, v.antivirNo.value, v.antivirNotes.value))
  }

  /** After a row of the host only the boxes a row may leave untouched can
      still be unbound: the downtime boxes (a host not monitored) and the
      snapshot boxes (a physical host, or a snapshot not found in an
      invalid log). */
  lemma BoundAfterRows(v: Locals)
    requires Assigned(v)
    ensures Bound(v) <==>
      v.monYes.Some? && v.monNo.Some? && v.vmSnapYes.Some? && v.vmSnapNo.Some?
  {
  }

  /** The table of a host: head, header row, its errata rows. */
  function TableFor(cols: seq<string>, e: Errata, c: Columns): string {
    Table(Head(cols, Specs(cols) + " | "), Relabel("\n" + JoinStr(Bolds(cols), "& ") + "\\\\"),
          Rendered(cols, e, c, |e.names|))
  }

  /** One turn of `for host in hosts` (lines 250-462): the scan of all rows,
      the errata table, the substitution. */
  function HostPage(v: Locals, rows: seq<seq<string>>, c: Columns, order: seq<string>, host: string,
                    date: string, vlog: string, valid: bool): (r: Result<(Locals, Page), ReportError>)
    requires NoEmptyRow(rows)
    ensures r.Ok? ==>
      r.value.1.title == host && r.value.1.file == FileName(host) && r.value.1.date == date
    ensures r.Ok? ==> (Scan(v, HostStart, rows, c, host, vlog, valid).Ok?
      && r.value.0 == Scan(v, HostStart, rows, c, host, vlog, valid).value.0)
  {
    var st :- Scan(v, HostStart, rows, c, host, vlog, valid);
    if !ListsCover(st.1.errata, c) then Err(IndexError)
    else
      var page :- MakePage(st.0, st.1, host, date, TableFor(ErrataColumns(order), st.1.errata, c));
      Ok((st.0, page))
  }

  method BuildPage(v: Locals, rows: seq<seq<string>>, c: Columns, order: seq<string>, host: string,
                   date: string, vlog: string, valid: bool) returns (res: Result<(Locals, Page), ReportError>)
    requires NoEmptyRow(rows)
    ensures res == HostPage(v, rows, c, order, host, date, vlog, valid)
  {
    var cols := ErrataColumns(order);
    var descriptor := ColumnDescriptor(cols);
    var head := Head(cols, descriptor);
    var header := HeaderRow(cols);
    var scan := ScanHost(v, rows, c, host, vlog, valid);
    if scan.Err? {
      return Err(scan.error);
    }
    var locals, state := scan.value.0, scan.value.1;
    var data := DataRows(cols, state.errata, c);
    if data.Err? {
      return Err(data.error);
    }
    var table := Table(head, header, data.value);
    var page := MakePage(locals, state, host, date, table);
    if page.Err? {
      return Err(page.error);
    }
    return Ok((locals, page.value));
  }

  /** The hosts taken in turn, each seeing the locals the one before left. */
  function HostPages(v: Locals, hosts: seq<string>, rows: seq<seq<string>>, c: Columns,
                     order: seq<string>, date: string, vlog: string, valid: bool)
    : (r: Result<(Locals, seq<Page>), ReportError>)
    requires NoEmptyRow(rows)
    ensures r.Ok? ==> |r.value.1| == |hosts|
    ensures r.Ok? ==> forall k :: 0 <= k < |hosts| ==>
      && r.value.1[k].title == hosts[k] && r.value.1[k].file == FileName(hosts[k])
      && r.value.1[k].date == date
    decreases |hosts|
  {
    if |hosts| == 0 then Ok((v, []))
    else
      var acc :- HostPages(v, hosts[..|hosts| - 1], rows, c, order, date, vlog, valid);
      var p :- HostPage(acc.0, rows, c, order, hosts[|hosts| - 1], date, vlog, valid);
      var pages := acc.1 + [p.1];
      assert forall k :: 0 <= k < |hosts| - 1 ==>
        pages[k] == acc.1[k] && hosts[..|hosts| - 1][k] == hosts[k];
      Ok((p.0, pages))
  }

  /** Everything lines 230-462 produce from the delta report: one page per
      host, in the order of the hosts' first rows. */
  function Pages(csv: string, c: Columns, order: seq<string>, date: string, vlog: string, valid: bool)
    : (r: Result<seq<Page>, ReportError>)
  {
    var rows := CsvRows(csv);
    if !NoEmptyRow(rows) then Err(IndexError)
    else
      var acc :- HostPages(Unassigned, Hosts(rows), rows, c, order, date, vlog, valid);
      Ok(acc.1)
  }

  /** Lines 231-235. */
  method ReadRows(csv: string) returns (rows: seq<seq<string>>)
    ensures rows == CsvRows(csv)
  {
    var lines := SplitLines(csv);
    rows := [];
    for i := 0 to |lines|
      invariant rows == RowsOf(lines[..i])
    {
      rows := rows + [CsvRow(lines[i])];
      assert lines[..i + 1][..i] == lines[..i];
    }
    assert lines[..|lines|] == lines;
  }

  lemma HostPagesSnoc(v: Locals, hosts: seq<string>, i: nat, rows: seq<seq<string>>, c: Columns,
                      order: seq<string>, date: string, vlog: string, valid: bool,
                      acc: (Locals, seq<Page>))
    requires NoEmptyRow(rows) && i < |hosts|
    requires HostPages(v, hosts[..i], rows, c, order, date, vlog, valid) == Ok(acc)
    ensures HostPages(v, hosts[..i + 1], rows, c, order, date, vlog, valid) ==
      var p := HostPage(acc.0, rows, c, order, hosts[i], date, vlog, valid);
      if p.Err? then Err(p.error) else Ok((p.value.0, acc.1 + [p.value.1]))
  {
    assert hosts[..i + 1][..i] == hosts[..i];
  }

  /** An error at a host ends the run with that error. */
  lemma {:induction false} HostPagesErr(v: Locals, hosts: seq<string>, n: nat, rows: seq<seq<string>>,
                                         c: Columns, order: seq<string>, date: string, vlog: string,
                                         valid: bool)
    requires NoEmptyRow(rows) && n <= |hosts|
    requires HostPages(v, hosts[..n], rows, c, order, date, vlog, valid).Err?
    ensures HostPages(v, hosts, rows, c, order, date, vlog, valid) ==
      HostPages(v, hosts[..n], rows, c, order, date, vlog, valid)
    decreases |hosts| - n
  {
    if n < |hosts| {
      var init := hosts[..|hosts| - 1];
      assert init[..n] == hosts[..n];
      HostPagesErr(v, init, n, rows, c, order, date, vlog, valid);
    } else {
      assert hosts[..n] == hosts;
    }
  }

  /** Lines 230-462. */
  method WriteReports(csv: string, c: Columns, order: seq<string>, date: string, vlog: string,
                      valid: bool) returns (res: Result<seq<Page>, ReportError>)
    ensures res == Pages(csv, c, order, date, vlog, valid)
  {
    var rows := ReadRows(csv);
    var found := CollectHosts(rows);
    if found.Err? {
      return Err(found.error);
    }
    var hosts := found.value;
    var locals := Unassigned;
    var pages: seq<Page> := [];
    for i := 0 to |hosts|
      invariant HostPages(Unassigned, hosts[..i], rows, c, order, date, vlog, valid) == Ok((locals, pages))
    {
      HostPagesSnoc(Unassigned, hosts, i, rows, c, order, date, vlog, valid, (locals, pages));
      var r := BuildPage(locals, rows, c, order, hosts[i], date, vlog, valid);
      if r.Err? {
        HostPagesErr(Unassigned, hosts, i + 1, rows, c, order, date, vlog, valid);
        return Err(r.error);
      }
      locals, pages := r.value.0, pages + [r.value.1];
    }
    assert hosts[..|hosts|] == hosts;
    return Ok(pages);
  }

  // ---------------------------------------------------------------------
  // What the pages say

  /** Every page is made for one host, in the order of the hosts' first
      rows, and carries the date of the newer report. */
  lemma PagesPerHost(csv: string, c: Columns, order: seq<string>, date: string, vlog: string, valid: bool)
    requires Pages(csv, c, order, date, vlog, valid).Ok?
    ensures NoEmptyRow(CsvRows(csv))
    ensures var pages := Pages(csv, c, order, date, vlog, valid).value;
      var hosts := Hosts(CsvRows(csv));
      && |pages| == |hosts|
      && forall k :: 0 <= k < |hosts| ==>
           pages[k].title == hosts[k] && pages[k].file == FileName(hosts[k]) && pages[k].date == date
  {
  }

  /** A host's page: its table lists the host's own non-empty errata
      values in row order, and its "no reboot" box is checked iff one of its
      rows has a resolved reboot column not saying `reboot_suggested`. */
  lemma PageContents(v: Locals, rows: seq<seq<string>>, c: Columns, order: seq<string>, host: string,
                     date: string, vlog: string, valid: bool)
    requires NoEmptyRow(rows)
    requires HostPage(v, rows, c, order, host, date, vlog, valid).Ok?
    ensures Scan(v, HostStart, rows, c, host, vlog, valid).Ok?
    ensures var page := HostPage(v, rows, c, order, host, date, vlog, valid).value.1;
      var e := Scan(v, HostStart, rows, c, host, vlog, valid).value.1.errata;
      && page.errata == TableFor(ErrataColumns(order), e, c)
      && e.names == Gathered(rows, c, host, "errata_name")
      && e.dates == Gathered(rows, c, host, "errata_date")
      && e.descs == Gathered(rows, c, host, "errata_desc")
      && e.types == Gathered(rows, c, host, "errata_type")
      && e.reboots == Gathered(rows, c, host, "errata_reboot")
      && (page.rebootNo == Checked <==>
            exists k :: 0 <= k < |rows| && rows[k][0] == host && NoRebootRow(rows[k], c))
  {
    ScanErrata(v, HostStart, rows, c, host, vlog, valid);
    ScanNoReboot(v, HostStart, rows, c, host, vlog, valid);
    assert Box != Checked;
  }

  /** The table and the reboot box of a host's page do not depend on the
      hosts before it. */
  lemma PageTableIgnoresLocals(v1: Locals, v2: Locals, rows: seq<seq<string>>, c: Columns,
                               order: seq<string>, host: string, date: string, vlog: string, valid: bool)
    requires NoEmptyRow(rows)
    requires HostPage(v1, rows, c, order, host, date, vlog, valid).Ok?
    requires HostPage(v2, rows, c, order, host, date, vlog, valid).Ok?
    ensures var p1 := HostPage(v1, rows, c, order, host, date, vlog, valid).value.1;
      var p2 := HostPage(v2, rows, c, order, host, date, vlog, valid).value.1;
      p1.errata == p2.errata && p1.rebootNo == p2.rebootNo && p1.rebootNotes == p2.rebootNotes
  {
    ScanStateIgnoresLocals(v1, v2, HostStart, rows, c, host, vlog, valid);
  }

  /** When every row of the first host says `0` in the monitoring column
      no row has assigned `this_monYes` before the first substitution, which
      so raises UnboundLocalError: no page is made. */
  lemma FirstHostUnmonitored(csv: string, c: Columns, order: seq<string>, date: string,
                             vlog: string, valid: bool)
    requires NoEmptyRow(CsvRows(csv)) && |Hosts(CsvRows(csv))| > 0
    requires forall k :: 0 <= k < |CsvRows(csv)| && CsvRows(csv)[k][0] == Hosts(CsvRows(csv))[0] ==>
      Says(Value(CsvRows(csv)[k], c, "system_monitoring"), "0")
    ensures Pages(csv, c, order, date, vlog, valid).Err?
  {
    var rows := CsvRows(csv);
    var hosts := Hosts(rows);
    UnmonitoredPageFails(rows, c, order, hosts[0], date, vlog, valid);
    FirstPageFails(hosts, rows, c, order, date, vlog, valid);
    HostPagesErr(Unassigned, hosts, 1, rows, c, order, date, vlog, valid);
  }

  /** The page of a host none of whose rows says it is monitored cannot be
      made while the downtime boxes are still unbound. */
  lemma UnmonitoredPageFails(rows: seq<seq<string>>, c: Columns, order: seq<string>, host: string,
                             date: string, vlog: string, valid: bool)
    requires NoEmptyRow(rows)
    requires forall k :: 0 <= k < |rows| && rows[k][0] == host ==>
      Says(Value(rows[k], c, "system_monitoring"), "0")
    ensures HostPage(Unassigned, rows, c, order, host, date, vlog, valid).Err?
  {
    var s := Scan(Unassigned, HostStart, rows, c, host, vlog, valid);
    if s.Ok? {
      ScanKeepsMonitoring(Unassigned, HostStart, rows, c, host, vlog, valid);
      assert !Bound(s.value.0);
    }
  }

  /** A first page that cannot be made stops the run. */
  lemma FirstPageFails(hosts: seq<string>, rows: seq<seq<string>>, c: Columns, order: seq<string>,
                       date: string, vlog: string, valid: bool)
    requires NoEmptyRow(rows) && |hosts| > 0
    requires HostPage(Unassigned, rows, c, order, hosts[0], date, vlog, valid).Err?
    ensures HostPages(Unassigned, hosts[..1], rows, c, order, date, vlog, valid).Err?
  {
    assert hosts[..1][..0] == [];
    assert hosts[..1][0] == hosts[0];
  }
}
