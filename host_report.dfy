/** The second half of `satprep_diff.py`'s `main`: the delta report read
    back as CSV rows, the list of hosts, one scan of all rows per host, and
    the values each host's LaTeX report is filled with. */
module HostReport {
  import opened Wrappers
  import opened PyText
  import opened PySort
  import opened Schema
  import opened Checklist
  import opened ErrataTable

  // ---------------------------------------------------------------------
  // Reading the delta report back

  /** A line without its line break. */
  function Chomp(l: string): (r: string)
    ensures r <= l && |l| - |r| <= 2
    ensures |r| < |l| ==> IsBreak(l[|r|])
  {
    if |l| >= 2 && l[|l| - 2..] == "\r\n" then l[..|l| - 2]
    else if |l| >= 1 && IsBreak(l[|l| - 1]) then l[..|l| - 1]
    else l
  }

  /** One record of `csv.reader(f, delimiter=';')` for a line without quote
      characters: the fields between the semicolons, and no fields at all for
      an empty line. */
  function CsvRow(l: string): (r: seq<string>)
    ensures Chomp(l) == "" <==> r == []
    ensures r != [] ==> JoinWith(r, ';') == Chomp(l)
    ensures forall k :: 0 <= k < |r| ==> ';' !in r[k]
  {
    var t := Chomp(l);
    if t == "" then [] else Split(t, ';')
  }

  /** Lines 231-235: the records of the delta report, one per line. */
  function CsvRows(text: string): (r: seq<seq<string>>)
    ensures |r| == |SplitLines(text)|
    ensures forall k :: 0 <= k < |r| ==> r[k] == CsvRow(SplitLines(text)[k])
  {
    var ls := SplitLines(text);
    assert forall k :: 0 <= k < |ls| ==> RowsOf(ls)[k] == CsvRow(ls[k]) by {
      forall k | 0 <= k < |ls| ensures RowsOf(ls)[k] == CsvRow(ls[k]) { RowsOfAt(ls, k); }
    }
    RowsOf(ls)
  }

  /** The records of a list of lines. */
  function RowsOf(ls: seq<string>): (r: seq<seq<string>>)
    ensures |r| == |ls|
    decreases |ls|
  {
    if |ls| == 0 then [] else RowsOf(ls[..|ls| - 1]) + [CsvRow(ls[|ls| - 1])]
  }

  lemma {:induction false} RowsOfAt(ls: seq<string>, k: nat)
    requires k < |ls|
    ensures RowsOf(ls)[k] == CsvRow(ls[k])
    decreases |ls|
  {
    if k < |ls| - 1 {
      RowsOfAt(ls[..|ls| - 1], k);
    }
  }

  predicate NoEmptyRow(rows: seq<seq<string>>) {
    forall k :: 0 <= k < |rows| ==> |rows[k]| > 0
  }

  // ---------------------------------------------------------------------
  // The hosts

  /** The hosts the reports are made for: the first field of every row
      except `hostname`, each once, in the order of their first rows. */
  function Hosts(rows: seq<seq<string>>): (r: seq<string>)
    requires NoEmptyRow(rows)
    ensures forall x :: x in r <==> x != "hostname" && exists k :: 0 <= k < |rows| && rows[k][0] == x
    ensures forall i, j :: 0 <= i < j < |r| ==> r[i] != r[j]
    decreases |rows|
  {
    if |rows| == 0 then []
    else
      var init := rows[..|rows| - 1];
      var h := Hosts(init);
      var x := rows[|rows| - 1][0];
      assert forall k :: 0 <= k < |init| ==> init[k] == rows[k];
      if x in h || x == "hostname" then h else h + [x]
  }

  /** A host listed before another has a row before any row of the other:
      the hosts come in the order of their first rows. */
  lemma {:induction false} HostsFirstSeen(rows: seq<seq<string>>, i: nat, j: nat)
    requires NoEmptyRow(rows) && i < j < |Hosts(rows)|
    ensures exists k :: 0 <= k < |rows| && rows[k][0] == Hosts(rows)[i] &&
                        forall m :: 0 <= m <= k ==> rows[m][0] != Hosts(rows)[j]
    decreases |rows|
  {
    var init := rows[..|rows| - 1];
    assert forall k :: 0 <= k < |init| ==> init[k] == rows[k];
    var h := Hosts(init);
    var r := Hosts(rows);
    if j < |h| {
      assert r[i] == h[i] && r[j] == h[j];
      HostsFirstSeen(init, i, j);
      var k :| 0 <= k < |init| && init[k][0] == h[i] && forall m :: 0 <= m <= k ==> init[m][0] != h[j];
      assert rows[k][0] == r[i];
    } else {
      var x := rows[|rows| - 1][0];
      assert r == h + [x] && r[j] == x && r[i] == h[i];
      assert h[i] in h;
      var k :| 0 <= k < |init| && init[k][0] == h[i];
      assert forall m :: 0 <= m < |init| ==> init[m][0] != x;
      assert rows[k][0] == r[i];
    }
  }

  /** Lines 238-241. Taking the first field of an empty record raises
      IndexError. */
  method CollectHosts(rows: seq<seq<string>>) returns (res: Result<seq<string>, ReportError>)
    ensures NoEmptyRow(rows) ==> res == Ok(Hosts(rows))
    ensures !NoEmptyRow(rows) ==> res == Err(IndexError)
  {
    var hosts: seq<string> := [];
    for i := 0 to |rows|
      invariant NoEmptyRow(rows[..i])
      invariant hosts == Hosts(rows[..i])
    {
      if |rows[i]| == 0 {
        return Err(IndexError);
      }
      var x := rows[i][0];
      assert rows[..i + 1][..i] == rows[..i];
      if x !in hosts && x != "hostname" {
        hosts := hosts + [x];
      }
    }
    assert rows[..|rows|] == rows;
    return Ok(hosts);
  }

  // ---------------------------------------------------------------------
  // One host's scan of all rows

  /** The loop of lines 298-418 for one host: every row whose first field is
      the host is applied in turn; the locals come from the hosts before,
      the host state starts afresh. */
  function Scan(v: Locals, h: HostState, rows: seq<seq<string>>, c: Columns, host: string,
                vlog: string, valid: bool): Result<(Locals, HostState), ReportError>
    requires NoEmptyRow(rows)
    decreases |rows|
  {
    if |rows| == 0 then Ok((v, h))
    else
      var init := rows[..|rows| - 1];
      assert NoEmptyRow(init) by {
        assert forall k :: 0 <= k < |init| ==> init[k] == rows[k];
      }
      var st :- Scan(v, h, init, c, host, vlog, valid);
      var line := rows[|rows| - 1];
      if line[0] == host then ApplyRow(st.0, st.1, line, c, host, vlog, valid) else Ok(st)
  }

  /** Scanning one more row. */
  lemma ScanSnoc(v: Locals, h: HostState, rows: seq<seq<string>>, i: nat, c: Columns, host: string,
                 vlog: string, valid: bool, st: (Locals, HostState))
    requires NoEmptyRow(rows) && i < |rows|
    requires NoEmptyRow(rows[..i]) && Scan(v, h, rows[..i], c, host, vlog, valid) == Ok(st)
    ensures NoEmptyRow(rows[..i + 1])
    ensures Scan(v, h, rows[..i + 1], c, host, vlog, valid) ==
      if rows[i][0] == host then ApplyRow(st.0, st.1, rows[i], c, host, vlog, valid) else Ok(st)
  {
    assert rows[..i + 1][..i] == rows[..i];
  }

  method ScanHost(v: Locals, rows: seq<seq<string>>, c: Columns, host: string, vlog: string, valid: bool)
    returns (res: Result<(Locals, HostState), ReportError>)
    requires NoEmptyRow(rows)
    ensures res == Scan(v, HostStart, rows, c, host, vlog, valid)
  {
    var locals := v;
    var state := HostStart;
    for i := 0 to |rows|
      invariant NoEmptyRow(rows[..i])
      invariant Scan(v, HostStart, rows[..i], c, host, vlog, valid) == Ok((locals, state))
    {
      var line := rows[i];
      ScanSnoc(v, HostStart, rows, i, c, host, vlog, valid, (locals, state));
      if line[0] == host {
        var r := ApplyRow(locals, state, line, c, host, vlog, valid);
        if r.Err? {
          PrefixErr(v, HostStart, rows, i + 1, c, host, vlog, valid);
          return Err(r.error);
        }
        locals, state := r.value.0, r.value.1;
      }
    }
    assert rows[..|rows|] == rows;
    return Ok((locals, state));
  }

  /** An error in the first rows ends the scan with that error. */
  lemma {:induction false} PrefixErr(v: Locals, h: HostState, rows: seq<seq<string>>, n: nat, c: Columns,
                                      host: string, vlog: string, valid: bool)
    requires NoEmptyRow(rows) && n <= |rows|
    requires NoEmptyRow(rows[..n]) && Scan(v, h, rows[..n], c, host, vlog, valid).Err?
    ensures Scan(v, h, rows, c, host, vlog, valid) == Scan(v, h, rows[..n], c, host, vlog, valid)
    decreases |rows| - n
  {
    if n < |rows| {
      var init := rows[..|rows| - 1];
      assert init[..n] == rows[..n];
      assert NoEmptyRow(init) by {
        assert forall k :: 0 <= k < |init| ==> init[k] == rows[k];
      }
      PrefixErr(v, h, init, n, c, host, vlog, valid);
    } else {
      assert rows[..n] == rows;
    }
  }

  // ---------------------------------------------------------------------
  // What a host's scan yields

  lemma InitRows(rows: seq<seq<string>>)
    requires NoEmptyRow(rows) && |rows| > 0
    ensures NoEmptyRow(rows[..|rows| - 1])
  {
    var init := rows[..|rows| - 1];
    assert forall k :: 0 <= k < |init| ==> init[k] == rows[k];
  }

  /** The scan raises IndexError iff one of the host's rows is too short
      for a column it is read at. */
  lemma {:induction false} ScanReadable(v: Locals, h: HostState, rows: seq<seq<string>>, c: Columns,
                                         host: string, vlog: string, valid: bool)
    requires NoEmptyRow(rows)
    ensures Scan(v, h, rows, c, host, vlog, valid).Ok? <==>
      forall k :: 0 <= k < |rows| && rows[k][0] == host ==> Readable(rows[k], c)
    ensures Scan(v, h, rows, c, host, vlog, valid).Err? ==>
      Scan(v, h, rows, c, host, vlog, valid).error == IndexError
    decreases |rows|
  {
    if |rows| > 0 {
      var init := rows[..|rows| - 1];
      InitRows(rows);
      ScanReadable(v, h, init, c, host, vlog, valid);
      assert forall k :: 0 <= k < |init| ==> init[k] == rows[k];
    }
  }

  /** The values the host's rows give one errata column, in row order. */
  function Gathered(rows: seq<seq<string>>, c: Columns, host: string, name: string): seq<string>
    requires NoEmptyRow(rows)
    decreases |rows|
  {
    if |rows| == 0 then []
    else
      InitRows(rows);
      var line := rows[|rows| - 1];
      Gathered(rows[..|rows| - 1], c, host, name)
        + (if line[0] == host then Present(Value(line, c, name)) else [])
  }

  /** The last step of a scan that succeeded. */
  lemma ScanLast(v: Locals, h: HostState, rows: seq<seq<string>>, c: Columns,
                 host: string, vlog: string, valid: bool)
    requires NoEmptyRow(rows) && |rows| > 0
    requires Scan(v, h, rows, c, host, vlog, valid).Ok?
    ensures NoEmptyRow(rows[..|rows| - 1])
    ensures Scan(v, h, rows[..|rows| - 1], c, host, vlog, valid).Ok?
    ensures var st := Scan(v, h, rows[..|rows| - 1], c, host, vlog, valid).value;
      var line := rows[|rows| - 1];
      Scan(v, h, rows, c, host, vlog, valid) ==
        if line[0] == host then ApplyRow(st.0, st.1, line, c, host, vlog, valid) else Ok(st)
  {
    InitRows(rows);
  }

  /** The five errata lists of a host. */
  datatype ErrataList = Names | Dates | Descs | Types | Reboots

  /** The column each errata list gathers. */
  function Column(f: ErrataList): string {
    match f
    case Names => "errata_name"
    case Dates => "errata_date"
    case Descs => "errata_desc"
    case Types => "errata_type"
    case Reboots => "errata_reboot"
  }

  function ListOf(e: Errata, f: ErrataList): seq<string> {
    match f
    case Names => e.names
    case Dates => e.dates
    case Descs => e.descs
    case Types => e.types
    case Reboots => e.reboots
  }

  lemma GatheredLast(rows: seq<seq<string>>, c: Columns, host: string, name: string)
    requires NoEmptyRow(rows) && |rows| > 0
    ensures NoEmptyRow(rows[..|rows| - 1])
    ensures Gathered(rows, c, host, name) == Gathered(rows[..|rows| - 1], c, host, name)
      + (if rows[|rows| - 1][0] == host then Present(Value(rows[|rows| - 1], c, name)) else [])
  {
    InitRows(rows);
  }

  lemma {:induction false} ScanGathers(v: Locals, h: HostState, rows: seq<seq<string>>, c: Columns,
                                        host: string, vlog: string, valid: bool, f: ErrataList)
    requires NoEmptyRow(rows)
    requires Scan(v, h, rows, c, host, vlog, valid).Ok?
    ensures ListOf(Scan(v, h, rows, c, host, vlog, valid).value.1.errata, f)
      == ListOf(h.errata, f) + Gathered(rows, c, host, Column(f))
    decreases |rows|
  {
    if |rows| > 0 {
      var init := rows[..|rows| - 1];
      ScanLast(v, h, rows, c, host, vlog, valid);
      GatheredLast(rows, c, host, Column(f));
      ScanGathers(v, h, init, c, host, vlog, valid, f);
      var line := rows[|rows| - 1];
      var st := Scan(v, h, init, c, host, vlog, valid).value;
      if line[0] == host {
        ApplyRowList(st.0, st.1, line, c, host, vlog, valid, f);
      }
      var before := ListOf(h.errata, f);
      var g := Gathered(init, c, host, Column(f));
      var extra := if line[0] == host then Present(Value(line, c, Column(f))) else [];
      assert before + g + extra == before + (g + extra);
    }
  }

  /** A row of the host adds its non-empty value to the list of each errata
      column. */
  lemma ApplyRowList(v: Locals, h: HostState, line: seq<string>, c: Columns, host: string,
                     vlog: string, valid: bool, f: ErrataList)
    requires ApplyRow(v, h, line, c, host, vlog, valid).Ok?
    ensures ListOf(ApplyRow(v, h, line, c, host, vlog, valid).value.1.errata, f)
      == ListOf(h.errata, f) + Present(Value(line, c, Column(f)))
  {
  }

  /** The errata lists after the scan: each is the list it started with
      followed by the host's non-empty values for that column. */
  lemma ScanErrata(v: Locals, h: HostState, rows: seq<seq<string>>, c: Columns,
                   host: string, vlog: string, valid: bool)
    requires NoEmptyRow(rows)
    requires Scan(v, h, rows, c, host, vlog, valid).Ok?
    ensures var e := Scan(v, h, rows, c, host, vlog, valid).value.1.errata;
      && e.names == h.errata.names + Gathered(rows, c, host, "errata_name")
      && e.dates == h.errata.dates + Gathered(rows, c, host, "errata_date")
      && e.descs == h.errata.descs + Gathered(rows, c, host, "errata_desc")
      && e.types == h.errata.types + Gathered(rows, c, host, "errata_type")
      && e.reboots == h.errata.reboots + Gathered(rows, c, host, "errata_reboot")
  {
    var e := Scan(v, h, rows, c, host, vlog, valid).value.1.errata;
    ScanGathers(v, h, rows, c, host, vlog, valid, Names);
    assert e.names == ListOf(e, Names);
    ScanGathers(v, h, rows, c, host, vlog, valid, Dates);
    assert e.dates == ListOf(e, Dates);
    ScanGathers(v, h, rows, c, host, vlog, valid, Descs);
    assert e.descs == ListOf(e, Descs);
    ScanGathers(v, h, rows, c, host, vlog, valid, Types);
    assert e.types == ListOf(e, Types);
    ScanGathers(v, h, rows, c, host, vlog, valid, Reboots);
    assert e.reboots == ListOf(e, Reboots);
  }

  /** The "no reboot" box after the scan is checked iff it was or one of
      the host's rows has a resolved reboot column not saying
      `reboot_suggested`. */
  lemma {:induction false} ScanNoReboot(v: Locals, h: HostState, rows: seq<seq<string>>, c: Columns,
                                         host: string, vlog: string, valid: bool)
    requires NoEmptyRow(rows)
    requires Scan(v, h, rows, c, host, vlog, valid).Ok?
    ensures Scan(v, h, rows, c, host, vlog, valid).value.1.noReboot == Checked <==>
        (h.noReboot == Checked
         || exists k :: 0 <= k < |rows| && rows[k][0] == host && NoRebootRow(rows[k], c))
    decreases |rows|
  {
    if |rows| > 0 {
      var init := rows[..|rows| - 1];
      ScanLast(v, h, rows, c, host, vlog, valid);
      ScanNoReboot(v, h, init, c, host, vlog, valid);
      assert forall k :: 0 <= k < |init| ==> init[k] == rows[k];
      assert Checked != Box;
    }
  }

  /** The host state does not depend on the locals the earlier hosts left:
      the reboot box and the errata lists are the host's own. */
  lemma {:induction false} ScanStateIgnoresLocals(v1: Locals, v2: Locals, h: HostState,
      rows: seq<seq<string>>, c: Columns, host: string, vlog: string, valid: bool)
    requires NoEmptyRow(rows)
    ensures Scan(v1, h, rows, c, host, vlog, valid).Ok? == Scan(v2, h, rows, c, host, vlog, valid).Ok?
    ensures Scan(v1, h, rows, c, host, vlog, valid).Ok? ==>
      Scan(v1, h, rows, c, host, vlog, valid).value.1 == Scan(v2, h, rows, c, host, vlog, valid).value.1
    decreases |rows|
  {
    if |rows| > 0 {
      InitRows(rows);
      ScanStateIgnoresLocals(v1, v2, h, rows[..|rows| - 1], c, host, vlog, valid);
    }
  }

  /** After a host with at least one row every local but the monitoring and
      snapshot boxes is assigned, and those keep earlier hosts' values. */
  lemma {:induction false} ScanAssigns(v: Locals, h: HostState, rows: seq<seq<string>>, c: Columns,
                                        host: string, vlog: string, valid: bool)
    requires NoEmptyRow(rows)
    requires Scan(v, h, rows, c, host, vlog, valid).Ok?
    ensures (Assigned(v) || exists k :: 0 <= k < |rows| && rows[k][0] == host) ==>
      Assigned(Scan(v, h, rows, c, host, vlog, valid).value.0)
    decreases |rows|
  {
    if |rows| > 0 {
      var init := rows[..|rows| - 1];
      InitRows(rows);
      ScanAssigns(v, h, init, c, host, vlog, valid);
      assert forall k :: 0 <= k < |init| ==> init[k] == rows[k];
    }
  }

  /** The last row of the host decides the cluster box. */
  lemma {:induction false} ScanLastRowDecides(v: Locals, h: HostState, rows: seq<seq<string>>, c: Columns,
                                               host: string, vlog: string, valid: bool, k: nat)
    requires NoEmptyRow(rows)
    requires Scan(v, h, rows, c, host, vlog, valid).Ok?
    requires k < |rows| && rows[k][0] == host
    requires forall m :: k < m < |rows| ==> rows[m][0] != host
    ensures Scan(v, h, rows, c, host, vlog, valid).value.0.cluster == Some(Checked)
            <==> Says(Value(rows[k], c, "system_cluster"), "1")
    decreases |rows|
  {
    var init := rows[..|rows| - 1];
    InitRows(rows);
    if k < |rows| - 1 {
      assert forall j :: 0 <= j < |init| ==> init[j] == rows[j];
      ScanLastRowDecides(v, h, init, c, host, vlog, valid, k);
    }
  }

  /** A host all of whose rows say `0` in the monitoring column leaves the
      downtime boxes as the earlier hosts left them, unbound if none
      assigned them. */
  lemma {:induction false} ScanKeepsMonitoring(v: Locals, h: HostState, rows: seq<seq<string>>, c: Columns,
                                                host: string, vlog: string, valid: bool)
    requires NoEmptyRow(rows)
    requires Scan(v, h, rows, c, host, vlog, valid).Ok?
    requires forall k :: 0 <= k < |rows| && rows[k][0] == host ==>
      Says(Value(rows[k], c, "system_monitoring"), "0")
    ensures Scan(v, h, rows, c, host, vlog, valid).value.0.monYes == v.monYes
    ensures Scan(v, h, rows, c, host, vlog, valid).value.0.monNo == v.monNo
    decreases |rows|
  {
    if |rows| > 0 {
      var init := rows[..|rows| - 1];
      InitRows(rows);
      assert forall k :: 0 <= k < |init| ==> init[k] == rows[k];
      ScanKeepsMonitoring(v, h, init, c, host, vlog, valid);
    }
  }
}
