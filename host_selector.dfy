/** `readFile` of `satprep_prepare_maintenance.py` (lines 95-141): which
    hosts of a delta report get a monitoring downtime and which a VM
    snapshot. Every CSV row names one host per list when the report's flags
    are ignored (`--no-intelligence`); otherwise a row names its host for a
    downtime when its monitoring and reboot flags are both `1` and for a
    snapshot when its virtualisation and snapshot flags are both `1`. A
    custom monitoring or VM name replaces the host name where the row gives
    one. Both lists end up sorted, free of duplicates and without the
    header's `hostname`. */
module HostSelector {
  import opened Wrappers
  import opened PyText
  import opened PySort
  import opened Schema
  import opened Checklist
  import opened HostReport

  datatype Mode = NoIntelligence | Filtered

  /** The two host lists (`downtimeHosts`, `snapshotHosts`). */
  datatype Selection = Selection(downtime: seq<string>, snapshot: seq<string>)

  /** The hostname column is indexed without the `< 666` guard: an
      unresolved column is index 666. */
  function HostIndex(cols: Columns): nat {
    match Lookup(cols, "hostname")
    case Some(k) => k
    case None => 666
  }

  /** The custom name of the row when that column is resolved and the row
      gives one, its host name otherwise. */
  function NameOf(row: seq<string>, cols: Columns, custom: string): (r: Result<string, ReportError>)
    ensures r.Ok? <==> (Reads(row, cols, custom)
      && ((Value(row, cols, custom).Some? && Value(row, cols, custom).value != "") || HostIndex(cols) < |row|))
    ensures r.Ok? && Value(row, cols, custom).Some? && Value(row, cols, custom).value != "" ==>
      r.value == Value(row, cols, custom).value
    ensures r.Ok? && !(Value(row, cols, custom).Some? && Value(row, cols, custom).value != "") ==>
      r.value == row[HostIndex(cols)]
    ensures r.Ok? ==> r.value != "" || HostIndex(cols) < |row|
  {
    var name :- Field(row, cols, custom);
    if name.Some? && name.value != "" then Ok(name.value)
    else if HostIndex(cols) < |row| then Ok(row[HostIndex(cols)])
    else Err(IndexError)
  }

  /** Both flags resolved and `1`. */
  predicate Wants(row: seq<string>, cols: Columns, flag: string, also: string) {
    Says(Value(row, cols, flag), "1") && Says(Value(row, cols, also), "1")
  }

  /** The filtered test of lines 124-131, evaluated left to right: the
      second flag is read only when the first is `1`, the name only when
      both are. */
  function Wanted(row: seq<string>, cols: Columns, flag: string, also: string, custom: string)
    : (r: Result<seq<string>, ReportError>)
    ensures r.Ok? <==> (Reads(row, cols, flag)
      && (Says(Value(row, cols, flag), "1") ==> Reads(row, cols, also))
      && (Wants(row, cols, flag, also) ==> NameOf(row, cols, custom).Ok?))
    ensures r.Ok? && Wants(row, cols, flag, also) ==> r.value == [NameOf(row, cols, custom).value]
    ensures r.Ok? && !Wants(row, cols, flag, also) ==> r.value == []
  {
    var a :- Field(row, cols, flag);
    if a != Some("1") then Ok([])
    else
      var b :- Field(row, cols, also);
      if b != Some("1") then Ok([])
      else
        var n :- NameOf(row, cols, custom);
        Ok([n])
  }

  /** What one row adds to the two lists. */
  function RowNames(mode: Mode, row: seq<string>, cols: Columns)
    : (r: Result<(seq<string>, seq<string>), ReportError>)
    ensures mode == NoIntelligence ==>
      (r.Ok? <==> NameOf(row, cols, "system_monitoring_name").Ok?
                  && NameOf(row, cols, "system_virt_vmname").Ok?)
    ensures mode == NoIntelligence && r.Ok? ==>
      r.value == ([NameOf(row, cols, "system_monitoring_name").value],
                  [NameOf(row, cols, "system_virt_vmname").value])
    ensures mode == Filtered ==>
      (r.Ok? <==> Wanted(row, cols, "system_monitoring", "errata_reboot", "system_monitoring_name").Ok?
                  && Wanted(row, cols, "system_virt", "system_virt_snapshot", "system_virt_vmname").Ok?)
    ensures mode == Filtered && r.Ok? ==>
      r.value == (Wanted(row, cols, "system_monitoring", "errata_reboot", "system_monitoring_name").value,
                  Wanted(row, cols, "system_virt", "system_virt_snapshot", "system_virt_vmname").value)
  {
    match mode
    case NoIntelligence =>
      var d :- NameOf(row, cols, "system_monitoring_name");
      var s :- NameOf(row, cols, "system_virt_vmname");
      Ok(([d], [s]))
    case Filtered =>
      var d :- Wanted(row, cols, "system_monitoring", "errata_reboot", "system_monitoring_name");
      var s :- Wanted(row, cols, "system_virt", "system_virt_snapshot", "system_virt_vmname");
      Ok((d, s))
  }

  /** The loop of lines 117-131 over `rows`: each row's names appended in
      row order. */
  function Gather(mode: Mode, rows: seq<seq<string>>, cols: Columns)
    : (r: Result<(seq<string>, seq<string>), ReportError>)
    decreases |rows|
  {
    if |rows| == 0 then Ok(([], []))
    else
      var acc :- Gather(mode, rows[..|rows| - 1], cols);
      var names :- RowNames(mode, rows[|rows| - 1], cols);
      Ok((acc.0 + names.0, acc.1 + names.1))
  }

  /** Lines 134-137: `sorted(set(xs))`, then without `hostname`. */
  function Finish(xs: seq<string>): (r: seq<string>)
    ensures StrictlySorted(r)
    ensures forall x :: x in r <==> x in xs && x != "hostname"
  {
    var s := SortedSet(xs);
    if "hostname" in s then
      RemoveFirstKeepsOrder(s, "hostname");
      RemoveFirst(s, "hostname")
    else s
  }

  /** From a strictly sorted list `remove` takes the one occurrence, and the
      rest stays strictly sorted. */
  lemma {:induction false} RemoveFirstKeepsOrder(xs: seq<string>, x: string)
    requires x in xs && StrictlySorted(xs)
    ensures StrictlySorted(RemoveFirst(xs, x))
    ensures forall y :: y in RemoveFirst(xs, x) <==> y in xs && y != x
    decreases |xs|
  {
    RemoveFirstMembers(xs, x);
    StrictTail(xs);
    if xs[0] != x {
      var t := RemoveFirst(xs[1..], x);
      RemoveFirstKeepsOrder(xs[1..], x);
      forall p | 0 <= p < |t| ensures LexLe(xs[0], t[p]) && xs[0] != t[p] {
        assert t[p] in xs[1..];
        var q :| 0 <= q < |xs[1..]| && xs[1..][q] == t[p];
        assert xs[q + 1] == t[p];
      }
      StrictCons(xs[0], t);
    }
  }

  lemma {:induction false} RemoveFirstMembers(xs: seq<string>, x: string)
    requires x in xs && StrictlySorted(xs)
    ensures forall y :: y in RemoveFirst(xs, x) <==> y in xs && y != x
    decreases |xs|
  {
    assert xs == [xs[0]] + xs[1..];
    StrictTail(xs);
    if xs[0] == x {
      assert forall p :: 0 < p < |xs| ==> xs[p] != xs[0];
      assert x !in xs[1..];
    } else {
      RemoveFirstMembers(xs[1..], x);
    }
  }

  lemma StrictTail(xs: seq<string>)
    requires StrictlySorted(xs) && |xs| > 0
    ensures StrictlySorted(xs[1..])
  {
    assert forall p :: 0 <= p < |xs| - 1 ==> xs[1..][p] == xs[p + 1];
  }

  lemma StrictCons(x: string, t: seq<string>)
    requires StrictlySorted(t)
    requires forall p :: 0 <= p < |t| ==> LexLe(x, t[p]) && x != t[p]
    ensures StrictlySorted([x] + t)
  {
    var r := [x] + t;
    forall i, j | 0 <= i < j < |r| ensures LexLe(r[i], r[j]) && r[i] != r[j] {
      assert r[j] == t[j - 1];
      if i > 0 {
        assert r[i] == t[i - 1];
      }
    }
  }

  /** The rows the selection is made from. As written (lines 117-118) the
      reader starts at the top of the file, so the header line is a row
      too. */
  function AllRows(text: string): seq<seq<string>> {
    CsvRows(text)
  }

  /** The data rows: every row but the header line. */
  function DataRowsOf(text: string): (r: seq<seq<string>>)
    ensures |CsvRows(text)| > 0 ==> r == CsvRows(text)[1..]
  {
    var rows := CsvRows(text);
    if |rows| == 0 then [] else rows[1..]
  }

  /** `readFile` as written: the header row takes part in the selection. */
  function SelectAsWritten(text: string, cols: Columns, mode: Mode): (r: Result<Selection, ReportError>)
    ensures r.Ok? ==>
      && StrictlySorted(r.value.downtime) && StrictlySorted(r.value.snapshot)
      && "hostname" !in r.value.downtime && "hostname" !in r.value.snapshot
  {
    var names :- Gather(mode, AllRows(text), cols);
    Ok(Selection(Finish(names.0), Finish(names.1)))
  }

  /** `readFile` with the header row skipped, which is what removing
      `hostname` afterwards evidently aims at. */
  function Select(text: string, cols: Columns, mode: Mode): (r: Result<Selection, ReportError>)
    ensures r.Ok? ==>
      && StrictlySorted(r.value.downtime) && StrictlySorted(r.value.snapshot)
      && "hostname" !in r.value.downtime && "hostname" !in r.value.snapshot
  {
    var names :- Gather(mode, DataRowsOf(text), cols);
    Ok(Selection(Finish(names.0), Finish(names.1)))
  }

  lemma GatherSnoc(mode: Mode, rows: seq<seq<string>>, i: nat, cols: Columns,
                   acc: (seq<string>, seq<string>))
    requires i < |rows| && Gather(mode, rows[..i], cols) == Ok(acc)
    ensures Gather(mode, rows[..i + 1], cols) ==
      var names := RowNames(mode, rows[i], cols);
      if names.Err? then Err(names.error) else Ok((acc.0 + names.value.0, acc.1 + names.value.1))
  {
    assert rows[..i + 1][..i] == rows[..i];
  }

  lemma {:induction false} GatherErr(mode: Mode, rows: seq<seq<string>>, n: nat, cols: Columns)
    requires n <= |rows| && Gather(mode, rows[..n], cols).Err?
    ensures Gather(mode, rows, cols) == Gather(mode, rows[..n], cols)
    decreases |rows| - n
  {
    if n < |rows| {
      var init := rows[..|rows| - 1];
      assert init[..n] == rows[..n];
      GatherErr(mode, init, n, cols);
    } else {
      assert rows[..n] == rows;
    }
  }

  /** Lines 95-141: the column positions, then the two lists gathered over
      every CSV row, the header row included. */
  method ReadFile(text: string, mode: Mode) returns (cols: Columns, res: Result<Selection, ReportError>)
    ensures ResolvedFrom(cols, Headers(ReadLine(text)), PrepareColumns)
    ensures res == SelectAsWritten(text, cols, mode)
  {
    var header := ReadLine(text);
    cols := Resolve(Headers(header), PrepareColumns);
    var names := GatherRows(mode, AllRows(text), cols);
    if names.Err? {
      return cols, Err(names.error);
    }
    res := Ok(Selection(Finish(names.value.0), Finish(names.value.1)));
  }

  /** Lines 117-131: the rows in turn, each appending its names to the two
      lists. */
  method GatherRows(mode: Mode, rows: seq<seq<string>>, cols: Columns)
    returns (res: Result<(seq<string>, seq<string>), ReportError>)
    ensures res == Gather(mode, rows, cols)
  {
    var downtime: seq<string> := [];
    var snapshot: seq<string> := [];
    for i := 0 to |rows|
      invariant Gather(mode, rows[..i], cols) == Ok((downtime, snapshot))
    {
      GatherSnoc(mode, rows, i, cols, (downtime, snapshot));
      var names := RowNames(mode, rows[i], cols);
      if names.Err? {
        GatherErr(mode, rows, i + 1, cols);
        return Err(names.error);
      }
      downtime, snapshot := downtime + names.value.0, snapshot + names.value.1;
    }
    assert rows[..|rows|] == rows;
    return Ok((downtime, snapshot));
  }

  // ---------------------------------------------------------------------
  // What the gathering yields

  /** The gathering fails iff some row cannot be read. */
  lemma {:induction false} GatherOk(mode: Mode, rows: seq<seq<string>>, cols: Columns)
    ensures Gather(mode, rows, cols).Ok? <==>
      forall k :: 0 <= k < |rows| ==> RowNames(mode, rows[k], cols).Ok?
    decreases |rows|
  {
    if |rows| > 0 {
      var init := rows[..|rows| - 1];
      GatherOk(mode, init, cols);
      assert forall k :: 0 <= k < |init| ==> init[k] == rows[k];
    }
  }

  /** A name is gathered iff some row contributes it. */
  lemma {:induction false} GatherMembers(mode: Mode, rows: seq<seq<string>>, cols: Columns, x: string)
    requires Gather(mode, rows, cols).Ok?
    ensures x in Gather(mode, rows, cols).value.0 <==>
      exists k :: 0 <= k < |rows| && RowNames(mode, rows[k], cols).Ok?
        && x in RowNames(mode, rows[k], cols).value.0
    ensures x in Gather(mode, rows, cols).value.1 <==>
      exists k :: 0 <= k < |rows| && RowNames(mode, rows[k], cols).Ok?
        && x in RowNames(mode, rows[k], cols).value.1
    decreases |rows|
  {
    if |rows| > 0 {
      var init := rows[..|rows| - 1];
      GatherMembers(mode, init, cols, x);
      assert forall k :: 0 <= k < |init| ==> init[k] == rows[k];
    }
  }

  /** Without the flags every row names one host for each list, in row
      order. */
  lemma {:induction false} GatherNoIntelligence(rows: seq<seq<string>>, cols: Columns)
    requires Gather(NoIntelligence, rows, cols).Ok?
    ensures var g := Gather(NoIntelligence, rows, cols).value;
      && |g.0| == |rows| && |g.1| == |rows|
      && forall k :: 0 <= k < |rows| ==>
           NameOf(rows[k], cols, "system_monitoring_name") == Ok(g.0[k])
           && NameOf(rows[k], cols, "system_virt_vmname") == Ok(g.1[k])
    decreases |rows|
  {
    if |rows| > 0 {
      var init := rows[..|rows| - 1];
      GatherOk(NoIntelligence, rows, cols);
      GatherNoIntelligence(init, cols);
      assert forall k :: 0 <= k < |init| ==> init[k] == rows[k];
    }
  }

  /** With the flags a host is selected for a downtime iff one of its rows
      has both the monitoring and the reboot flag set, and for a snapshot
      iff one of its rows has both the virtualisation and the snapshot flag
      set. */
  lemma FilteredMembers(rows: seq<seq<string>>, cols: Columns, x: string)
    requires Gather(Filtered, rows, cols).Ok?
    ensures x in Gather(Filtered, rows, cols).value.0 <==>
      exists k :: 0 <= k < |rows| && Wants(rows[k], cols, "system_monitoring", "errata_reboot")
        && NameOf(rows[k], cols, "system_monitoring_name") == Ok(x)
    ensures x in Gather(Filtered, rows, cols).value.1 <==>
      exists k :: 0 <= k < |rows| && Wants(rows[k], cols, "system_virt", "system_virt_snapshot")
        && NameOf(rows[k], cols, "system_virt_vmname") == Ok(x)
  {
    GatherMembers(Filtered, rows, cols, x);
    GatherOk(Filtered, rows, cols);
    forall k | 0 <= k < |rows|
      ensures x in RowNames(Filtered, rows[k], cols).value.0 <==>
        Wants(rows[k], cols, "system_monitoring", "errata_reboot")
        && NameOf(rows[k], cols, "system_monitoring_name") == Ok(x)
      ensures x in RowNames(Filtered, rows[k], cols).value.1 <==>
        Wants(rows[k], cols, "system_virt", "system_virt_snapshot")
        && NameOf(rows[k], cols, "system_virt_vmname") == Ok(x)
    {
      FilteredRow(rows[k], cols, x);
    }
  }

  /** What one row adds with the flags in force. */
  lemma FilteredRow(row: seq<string>, cols: Columns, x: string)
    requires RowNames(Filtered, row, cols).Ok?
    ensures x in RowNames(Filtered, row, cols).value.0 <==>
      Wants(row, cols, "system_monitoring", "errata_reboot")
      && NameOf(row, cols, "system_monitoring_name") == Ok(x)
    ensures x in RowNames(Filtered, row, cols).value.1 <==>
      Wants(row, cols, "system_virt", "system_virt_snapshot")
      && NameOf(row, cols, "system_virt_vmname") == Ok(x)
  {
  }

  // ---------------------------------------------------------------------
  // The selection

  /** Both lists are strictly sorted, hold no `hostname`, and hold exactly
      the names the data rows contribute. */
  lemma SelectShape(text: string, cols: Columns, mode: Mode, x: string)
    requires Select(text, cols, mode).Ok?
    ensures Gather(mode, DataRowsOf(text), cols).Ok?
    ensures var s := Select(text, cols, mode).value;
      var g := Gather(mode, DataRowsOf(text), cols).value;
      && StrictlySorted(s.downtime) && StrictlySorted(s.snapshot)
      && "hostname" !in s.downtime && "hostname" !in s.snapshot
      && (x in s.downtime <==> x in g.0 && x != "hostname")
      && (x in s.snapshot <==> x in g.1 && x != "hostname")
  {
  }

  /** Without the flags the downtime list names exactly the hosts (or their
      custom monitoring names) of the data rows, `hostname` aside; the
      snapshot list likewise with the custom VM names. */
  lemma SelectNoIntelligence(text: string, cols: Columns, x: string)
    requires Select(text, cols, NoIntelligence).Ok?
    ensures x in Select(text, cols, NoIntelligence).value.downtime <==>
      x != "hostname" &&
      exists k :: 0 <= k < |DataRowsOf(text)| &&
                  NameOf(DataRowsOf(text)[k], cols, "system_monitoring_name") == Ok(x)
    ensures x in Select(text, cols, NoIntelligence).value.snapshot <==>
      x != "hostname" &&
      exists k :: 0 <= k < |DataRowsOf(text)| &&
                  NameOf(DataRowsOf(text)[k], cols, "system_virt_vmname") == Ok(x)
  {
    var rows := DataRowsOf(text);
    var g := Gather(NoIntelligence, rows, cols).value;
    NoIntelligenceMembers(rows, cols, x);
    assert Select(text, cols, NoIntelligence).value == Selection(Finish(g.0), Finish(g.1));
  }

  /** Without the flags a name is gathered iff some row is named so. */
  lemma NoIntelligenceMembers(rows: seq<seq<string>>, cols: Columns, x: string)
    requires Gather(NoIntelligence, rows, cols).Ok?
    ensures x in Gather(NoIntelligence, rows, cols).value.0 <==>
      exists k :: 0 <= k < |rows| && NameOf(rows[k], cols, "system_monitoring_name") == Ok(x)
    ensures x in Gather(NoIntelligence, rows, cols).value.1 <==>
      exists k :: 0 <= k < |rows| && NameOf(rows[k], cols, "system_virt_vmname") == Ok(x)
  {
    GatherMembers(NoIntelligence, rows, cols, x);
    GatherOk(NoIntelligence, rows, cols);
    forall k | 0 <= k < |rows|
      ensures x in RowNames(NoIntelligence, rows[k], cols).value.0 <==>
        NameOf(rows[k], cols, "system_monitoring_name") == Ok(x)
      ensures x in RowNames(NoIntelligence, rows[k], cols).value.1 <==>
        NameOf(rows[k], cols, "system_virt_vmname") == Ok(x)
    {
      NoIntelligenceRow(rows[k], cols, x);
    }
  }

  /** As written, both lists are strictly sorted, hold no `hostname`, and
      hold exactly the names that the rows, the header row included,
      contribute. */
  lemma SelectAsWrittenShape(text: string, cols: Columns, mode: Mode, x: string)
    requires SelectAsWritten(text, cols, mode).Ok?
    ensures Gather(mode, AllRows(text), cols).Ok?
    ensures var s := SelectAsWritten(text, cols, mode).value;
      var g := Gather(mode, AllRows(text), cols).value;
      && StrictlySorted(s.downtime) && StrictlySorted(s.snapshot)
      && "hostname" !in s.downtime && "hostname" !in s.snapshot
      && (x in s.downtime <==> x in g.0 && x != "hostname")
      && (x in s.snapshot <==> x in g.1 && x != "hostname")
  {
  }

  /** As written, without the flags, the downtime list names exactly the
      hosts (or custom monitoring names) of all rows, the header row
      included, `hostname` aside; the snapshot list likewise with the custom
      VM names. */
  lemma SelectAsWrittenNoIntelligence(text: string, cols: Columns, x: string)
    requires SelectAsWritten(text, cols, NoIntelligence).Ok?
    ensures x in SelectAsWritten(text, cols, NoIntelligence).value.downtime <==>
      x != "hostname" &&
      exists k :: 0 <= k < |AllRows(text)| &&
                  NameOf(AllRows(text)[k], cols, "system_monitoring_name") == Ok(x)
    ensures x in SelectAsWritten(text, cols, NoIntelligence).value.snapshot <==>
      x != "hostname" &&
      exists k :: 0 <= k < |AllRows(text)| &&
                  NameOf(AllRows(text)[k], cols, "system_virt_vmname") == Ok(x)
  {
    var rows := AllRows(text);
    var g := Gather(NoIntelligence, rows, cols).value;
    NoIntelligenceMembers(rows, cols, x);
    assert SelectAsWritten(text, cols, NoIntelligence).value == Selection(Finish(g.0), Finish(g.1));
  }

  /** What one row adds without the flags. */
  lemma NoIntelligenceRow(row: seq<string>, cols: Columns, x: string)
    requires RowNames(NoIntelligence, row, cols).Ok?
    ensures x in RowNames(NoIntelligence, row, cols).value.0 <==>
      NameOf(row, cols, "system_monitoring_name") == Ok(x)
    ensures x in RowNames(NoIntelligence, row, cols).value.1 <==>
      NameOf(row, cols, "system_virt_vmname") == Ok(x)
  {
  }

  // ---------------------------------------------------------------------
  // The header row as written

  lemma {:induction false} LineLenPlain(h: string)
    requires '\n' !in h && '\r' !in h
    ensures LineLen(h + "\n") == |h| + 1
    decreases |h|
  {
    if |h| > 0 {
      assert (h + "\n")[1..] == h[1..] + "\n";
      LineLenPlain(h[1..]);
    }
  }

  lemma ReadLinePlain(h: string, rest: string)
    requires '\n' !in h
    ensures ReadLine(h + "\n" + rest) == h + "\n"
  {
    var s := h + "\n" + rest;
    var r := ReadLine(s);
    assert s[|h|] == '\n';
    assert r <= s && |r| > 0 && r[|r| - 1] == '\n' && '\n' !in r[..|r| - 1];
    assert forall j :: 0 <= j < |h| ==> s[j] != '\n';
    assert r[|r| - 1] == s[|r| - 1];
    assert |h| < |r|;
    CharBeforeLast(r, |h|, '\n');
    assert r[|h|] == s[|h|];
    assert r == s[..|h| + 1];
  }

  lemma CharBeforeLast(r: string, p: nat, c: char)
    requires p < |r|
    ensures p < |r| - 1 && r[p] == c ==> c in r[..|r| - 1]
  {
    if p < |r| - 1 {
      assert r[..|r| - 1][p] == r[p];
    }
  }

  lemma FirstLinePlain(h: string, rest: string)
    requires '\n' !in h && '\r' !in h
    ensures |SplitLines(h + "\n" + rest)| > 0
    ensures SplitLines(h + "\n" + rest)[0] == h + "\n"
  {
    var text := h + "\n" + rest;
    LineLenPlain(h);
    assert text == (h + "\n") + rest;
    LineLenOfConcat(h + "\n", rest);
    assert text[..|h| + 1] == h + "\n";
  }

  lemma FlattenPlain(h: string)
    requires '\n' !in h && '\r' !in h
    ensures Replace(Replace(h + "\n", "\n", ""), "\r", "") == h
  {
    assert NoStraddle(h, "\n", "\n");
    ReplaceSplit(h, "\n", "\n", "");
    ContainsChar(h, '\n');
    ReplaceAbsent(h, "\n", "");
    ContainsChar(h, '\r');
    ReplaceAbsent(h, "\r", "");
    assert Replace("\n", "\n", "") == "" by {
      assert "\n" <= "\n";
      assert "\n"[1..] == "";
    }
    assert Replace(h + "\n", "\n", "") == h;
  }

  /** With a plain header line, the header row read by the CSV reader is
      the list of column names the positions are resolved in. */
  lemma HeaderIsFirstRow(h: string, rest: string)
    requires '\n' !in h && '\r' !in h && h != ""
    ensures |AllRows(h + "\n" + rest)| > 0
    ensures AllRows(h + "\n" + rest)[0] == Headers(ReadLine(h + "\n" + rest)) == Split(h, ';')
  {
    ReadLinePlain(h, rest);
    FirstLinePlain(h, rest);
    FlattenPlain(h);
    assert Chomp(h + "\n") == h;
  }

  /** In the header row every resolved column holds its own name. */
  lemma HeaderRowValue(h: string, rest: string, cols: Columns, name: string)
    requires '\n' !in h && '\r' !in h && h != ""
    requires ResolvedFrom(cols, Headers(ReadLine(h + "\n" + rest)), PrepareColumns)
    requires name in PrepareColumns
    ensures |AllRows(h + "\n" + rest)| > 0
    ensures var header := AllRows(h + "\n" + rest)[0];
      && Reads(header, cols, name)
      && (name in Split(h, ';') ==> Value(header, cols, name) == Some(name))
      && (name !in Split(h, ';') ==> Value(header, cols, name) == None)
  {
    HeaderIsFirstRow(h, rest);
    var hs := Headers(ReadLine(h + "\n" + rest));
    ResolvedValue(hs, cols, name);
  }

  lemma ResolvedValue(hs: seq<string>, cols: Columns, name: string)
    requires ResolvedFrom(cols, hs, PrepareColumns)
    requires name in PrepareColumns
    ensures Reads(hs, cols, name)
    ensures name in hs ==> Value(hs, cols, name) == Some(name)
    ensures name !in hs ==> Value(hs, cols, name) == None
  {
    assert name in cols.Keys;
    assert Lookup(cols, name) == Index(hs, name);
  }

  /** A first row whose custom monitoring name is the column's own name
      puts that name on the list: only `hostname` is filtered out. */
  lemma FirstRowNamed(rows: seq<seq<string>>, cols: Columns, x: string)
    requires |rows| > 0 && x != "hostname"
    requires Gather(NoIntelligence, rows, cols).Ok?
    requires Value(rows[0], cols, "system_monitoring_name") == Some(x) && x != ""
    ensures x in Finish(Gather(NoIntelligence, rows, cols).value.0)
  {
    GatherOk(NoIntelligence, rows, cols);
    GatherMembers(NoIntelligence, rows, cols, x);
    assert x in RowNames(NoIntelligence, rows[0], cols).value.0;
  }

  /** As written, a report with a `system_monitoring_name` column puts that
      column's name on the downtime list when the flags are ignored: the
      header row names it as its custom monitoring name, and only
      `hostname` is removed afterwards. */
  lemma HeaderRowLeaks(h: string, rest: string, cols: Columns)
    requires '\n' !in h && '\r' !in h && h != ""
    requires "system_monitoring_name" in Split(h, ';')
    requires ResolvedFrom(cols, Headers(ReadLine(h + "\n" + rest)), PrepareColumns)
    requires SelectAsWritten(h + "\n" + rest, cols, NoIntelligence).Ok?
    ensures "system_monitoring_name" in SelectAsWritten(h + "\n" + rest, cols, NoIntelligence).value.downtime
  {
    var rows := AllRows(h + "\n" + rest);
    HeaderRowValue(h, rest, cols, "system_monitoring_name");
    FirstRowNamed(rows, cols, "system_monitoring_name");
  }

  /** As written, without the flags, a report whose header has neither a
      `hostname` nor a `system_monitoring_name` column fails with
      IndexError already on the header row: its host is read at the
      sentinel position 666. */
  lemma HeaderRowFails(h: string, rest: string, cols: Columns)
    requires '\n' !in h && '\r' !in h && h != ""
    requires "hostname" !in Split(h, ';') && "system_monitoring_name" !in Split(h, ';')
    requires |Split(h, ';')| <= 666
    requires ResolvedFrom(cols, Headers(ReadLine(h + "\n" + rest)), PrepareColumns)
    ensures SelectAsWritten(h + "\n" + rest, cols, NoIntelligence) == Err(IndexError)
  {
    var rows := AllRows(h + "\n" + rest);
    HeaderIsFirstRow(h, rest);
    HeaderRowValue(h, rest, cols, "system_monitoring_name");
    HeaderRowValue(h, rest, cols, "hostname");
    assert Lookup(cols, "hostname") == None;
    assert HostIndex(cols) == 666;
    assert NameOf(rows[0], cols, "system_monitoring_name") == Err(IndexError);
    assert rows[..1][..0] == [];
    assert rows[..1][0] == rows[0];
    assert Gather(NoIntelligence, rows[..1], cols) == Err(IndexError);
    GatherErr(NoIntelligence, rows, 1, cols);
  }

  /** Skipping the header row, the downtime list holds a column name only
      when a data row names it. */
  lemma SelectHoldsNoColumnName(text: string, cols: Columns)
    requires Select(text, cols, NoIntelligence).Ok?
    requires forall k :: 0 <= k < |DataRowsOf(text)| ==>
      NameOf(DataRowsOf(text)[k], cols, "system_monitoring_name") != Ok("system_monitoring_name")
    ensures "system_monitoring_name" !in Select(text, cols, NoIntelligence).value.downtime
  {
    SelectNoIntelligence(text, cols, "system_monitoring_name");
  }

  /** A row that adds nothing can be dropped from the front. */
  lemma {:induction false} GatherSkipsIdle(mode: Mode, r: seq<string>, rs: seq<seq<string>>, cols: Columns)
    requires RowNames(mode, r, cols) == Ok(([], []))
    ensures Gather(mode, [r] + rs, cols) == Gather(mode, rs, cols)
    decreases |rs|
  {
    var all := [r] + rs;
    if |rs| == 0 {
      assert all[..0] == [];
      assert all[0] == r;
      var none: seq<string> := [];
      assert Gather(mode, all, cols) == Ok((none + none, none + none));
      assert none + none == none;
      assert Gather(mode, rs, cols) == Ok((none, none));
    } else {
      var init := rs[..|rs| - 1];
      assert all[..|all| - 1] == [r] + init;
      assert all[|all| - 1] == rs[|rs| - 1];
      GatherSkipsIdle(mode, r, init, cols);
    }
  }

  /** With the flags in force the header row selects nothing, since no
      column is named `1`: there, skipping it changes nothing. */
  lemma FilteredHeaderHarmless(h: string, rest: string, cols: Columns)
    requires '\n' !in h && '\r' !in h && h != ""
    requires ResolvedFrom(cols, Headers(ReadLine(h + "\n" + rest)), PrepareColumns)
    ensures SelectAsWritten(h + "\n" + rest, cols, Filtered) == Select(h + "\n" + rest, cols, Filtered)
  {
    var text := h + "\n" + rest;
    HeaderIdle(h, rest, cols);
    RowsSplitFirst(text);
    GatherSkipsIdle(Filtered, AllRows(text)[0], DataRowsOf(text), cols);
  }

  lemma RowsSplitFirst(text: string)
    requires |AllRows(text)| > 0
    ensures AllRows(text) == [AllRows(text)[0]] + DataRowsOf(text)
  {
  }

  /** With the flags in force the header row adds nothing to either list. */
  lemma HeaderIdle(h: string, rest: string, cols: Columns)
    requires '\n' !in h && '\r' !in h && h != ""
    requires ResolvedFrom(cols, Headers(ReadLine(h + "\n" + rest)), PrepareColumns)
    ensures |AllRows(h + "\n" + rest)| > 0
    ensures RowNames(Filtered, AllRows(h + "\n" + rest)[0], cols) == Ok(([], []))
  {
    HeaderRowValue(h, rest, cols, "system_monitoring");
    HeaderRowValue(h, rest, cols, "system_virt");
    IdleRow(AllRows(h + "\n" + rest)[0], cols);
  }

  /** A row whose monitoring and virtualisation flags are readable and not
      `1` selects nothing. */
  lemma IdleRow(row: seq<string>, cols: Columns)
    requires Reads(row, cols, "system_monitoring") && Reads(row, cols, "system_virt")
    requires Value(row, cols, "system_monitoring") != Some("1")
    requires Value(row, cols, "system_virt") != Some("1")
    ensures RowNames(Filtered, row, cols) == Ok(([], []))
  {
  }
}
