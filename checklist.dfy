/** The per-row part of the host reports in `satprep_diff.py`: the check
    boxes and notes one CSV row of a host sets, and the errata information it
    contributes. The check-box variables are locals of `main`: a row that
    does not assign one leaves the value an earlier row (of this host or of
    an earlier one) gave it, and a variable no row assigned is unbound. */
module Checklist {
  import opened Wrappers
  import opened PyText
  import opened Schema

  /** The two check-box renderings of the template. */
  const Checked: string := "$\\CheckedBox$"
  const Box: string := "$\\Box$"

  datatype ReportError =
    | IndexError     // a row shorter than a resolved column position
    | UnboundLocal   // a template value no row ever assigned

  /** `line[repcols[name]]` guarded by `repcols[name] < 666`: `None` for an
      unresolved column, an error for a row too short for a resolved one. */
  function Field(line: seq<string>, cols: Columns, name: string): (r: Result<Option<string>, ReportError>)
    ensures Lookup(cols, name).None? ==> r == Ok(None)
    ensures Lookup(cols, name).Some? ==> (r.Err? <==> Lookup(cols, name).value >= |line|)
    ensures r.Ok? && r.value.Some? ==>
      Lookup(cols, name).Some? && r.value.value == line[Lookup(cols, name).value]
    ensures r.Err? ==> r.error == IndexError
  {
    match Lookup(cols, name)
    case None => Ok(None)
    case Some(k) => if k < |line| then Ok(Some(line[k])) else Err(IndexError)
  }

  /** The value of a column in a row, `None` when unresolved or out of range. */
  function Value(line: seq<string>, cols: Columns, name: string): Option<string> {
    var f := Field(line, cols, name);
    if f.Ok? then f.value else None
  }

  /** The column can be read: unresolved, or resolved inside the row. */
  predicate Reads(line: seq<string>, cols: Columns, name: string) {
    Field(line, cols, name).Ok?
  }

  /** Every resolved column lies inside the row. */
  predicate Fits(line: seq<string>, cols: Columns) {
    forall n :: n in cols && cols[n].Some? ==> cols[n].value < |line|
  }

  lemma FitsField(line: seq<string>, cols: Columns, name: string)
    requires Fits(line, cols)
    ensures Field(line, cols, name).Ok?
  {
  }

  /** A note column: its value when longer than one character, else empty. */
  function Note(v: Option<string>): (r: string)
    ensures |r| == 0 || |r| > 1
    ensures |r| > 1 ==> v == Some(r)
  {
    if v.Some? && |v.value| > 1 then v.value else ""
  }

  /** A column that is resolved and holds `x`. */
  predicate Says(v: Option<string>, x: string) {
    v == Some(x)
  }

  // ---------------------------------------------------------------------
  // The locals a row assigns

  datatype Locals = Locals(
    ip: Option<string>,
    title: Option<string>,         // `this_host`
    owner: Option<string>,
    cluster: Option<string>,
    standalone: Option<string>,
    hintsCluster: Option<string>,  // `hintsClTest`
    monSchedNo: Option<string>,
    monYes: Option<string>,
    monNo: Option<string>,
    monNotes: Option<string>,
    backupNo: Option<string>,
    backupNotes: Option<string>,
    antivirNo: Option<string>,
    antivirNotes: Option<string>,
    hwCheckNo: Option<string>,
    hwCheckNotes: Option<string>,
    vmSnapYes: Option<string>,
    vmSnapNo: Option<string>,
    vmSnapNotes: Option<string>)

  /** Before the first row every local is unbound. */
  const Unassigned: Locals := Locals(
    None, None, None, None, None, None, None, None, None, None,
    None, None, None, None, None, None, None, None, None)

  /** The owner column as evidently intended, with its `%%nl` markers
      turned into the LaTeX `\newline` command: the cell gains no line feed
      of its own. */
  function OwnerCell(owner: string): (r: string)
    ensures !Contains(owner, "%%nl") ==> r == owner
    ensures '\n' !in owner ==> '\n' !in r
  {
    ReplaceAbsentIf(owner, "%%nl", "\\newline");
    ReplaceKeepsOut(owner, "%%nl", "\\newline", '\n');
    Replace(owner, "%%nl", "\\newline")
  }

  /** The owner column as the script writes it: the literal `'\newline'` is
      a Python string whose first character is a line feed, so each `%%nl`
      becomes a line feed followed by the letters `ewline`. */
  function OwnerCellAsWritten(owner: string): (r: string)
    ensures !Contains(owner, "%%nl") ==> r == owner
  {
    ReplaceAbsentIf(owner, "%%nl", "\n" + "ewline");
    Replace(owner, "%%nl", "\n" + "ewline")
  }

  /** An owner entry that is only the marker shows the defect: the script's
      rendering holds no backslash, so LaTeX sets the word `ewline` instead of
      breaking the line, where the corrected cell is the `\newline` command. */
  lemma OwnerCellAsWrittenLosesBreak()
    ensures OwnerCellAsWritten("%%nl") == "\n" + "ewline"
    ensures '\\' !in OwnerCellAsWritten("%%nl")
    ensures '\n' in OwnerCellAsWritten("%%nl")
    ensures OwnerCell("%%nl") == "\\newline"
  {
    assert "%%nl"[4..] == "";
  }

  lemma ReplaceAbsentIf(s: string, pat: string, rep: string)
    requires |pat| > 0
    ensures !Contains(s, pat) ==> Replace(s, pat, rep) == s
  {
    if !Contains(s, pat) { ReplaceAbsent(s, pat, rep); }
  }

  /** Address, title and owner (lines 303-316), the owner as written. */
  function Identity(v: Locals, line: seq<string>, cols: Columns, host: string): (r: Result<Locals, ReportError>)
    ensures r.Ok? <==> Reads(line, cols, "ip") && Reads(line, cols, "system_owner")
    ensures r.Ok? ==>
      && r.value == v.(ip := r.value.ip, title := r.value.title, owner := r.value.owner)
      && r.value.ip.Some? && r.value.title.Some? && r.value.owner.Some?
      && host <= r.value.title.value
      && (r.value.title.value == host <==> Value(line, cols, "ip").None?)
      && (Value(line, cols, "ip").Some? ==>
            r.value.ip.value == Value(line, cols, "ip").value
            && r.value.title.value == host + "\n(" + r.value.ip.value + ")")
      && (Value(line, cols, "ip").None? ==> r.value.ip.value == "")
      && r.value.owner.value ==
           (if Value(line, cols, "system_owner").Some?
            then OwnerCellAsWritten(Value(line, cols, "system_owner").value) else "")
  {
    var ip :- Field(line, cols, "ip");
    var owner :- Field(line, cols, "system_owner");
    var title := if ip.Some? then host + "\n(" + ip.value + ")" else host;
    assert host <= title;
    Ok(v.(ip := Some(if ip.Some? then ip.value else ""),
          title := Some(title),
          owner := Some(if owner.Some? then OwnerCellAsWritten(owner.value) else "")))
  }

  /** Cluster or standalone (lines 319-328): exactly one of the two boxes is
      checked, the cluster one iff the cluster column says `1`, and the
      cluster test hint is empty exactly then. */
  function Cluster(v: Locals, line: seq<string>, cols: Columns): (r: Result<Locals, ReportError>)
    ensures r.Ok? <==> Reads(line, cols, "system_cluster")
    ensures r.Ok? ==>
      && r.value == v.(cluster := r.value.cluster, standalone := r.value.standalone,
                       hintsCluster := r.value.hintsCluster)
      && r.value.cluster.Some? && r.value.standalone.Some? && r.value.hintsCluster.Some?
      && (r.value.cluster == Some(Checked) <==> Says(Value(line, cols, "system_cluster"), "1"))
      && (r.value.cluster == Some(Checked) <==> r.value.standalone == Some(Box))
      && (r.value.cluster == Some(Checked) || r.value.cluster == Some(Box))
      && (r.value.standalone == Some(Checked) || r.value.standalone == Some(Box))
      && (r.value.hintsCluster == Some("") <==> r.value.cluster == Some(Checked))
  {
    var c :- Field(line, cols, "system_cluster");
    if c == Some("1") then
      Ok(v.(cluster := Some(Checked), standalone := Some(Box), hintsCluster := Some("")))
    else
      Ok(v.(cluster := Some(Box), standalone := Some(Checked),
            hintsCluster := Some("not a cluster system")))
  }

  /** Monitoring (lines 331-351). A monitoring column saying `0` sets only
      `this_monSchedNo` and leaves the boxes the template shows as they were;
      otherwise the downtime box is checked iff the log holds `MONOK;` and
      the host name, and the "no downtime" box iff it does not and the log is
      valid. The monitoring name column is read, but only for logging. */
  function Monitoring(v: Locals, line: seq<string>, cols: Columns, host: string, vlog: string, valid: bool)
    : (r: Result<Locals, ReportError>)
    ensures r.Ok? <==> MonitoringReads(line, cols)
    ensures r.Ok? ==>
      && r.value == v.(monSchedNo := r.value.monSchedNo, monYes := r.value.monYes,
                       monNo := r.value.monNo, monNotes := r.value.monNotes)
      && r.value.monNotes == Some(Note(Value(line, cols, "system_monitoring_notes")))
    ensures r.Ok? && Says(Value(line, cols, "system_monitoring"), "0") ==>
      && r.value.monSchedNo == Some(Checked)
      && r.value.monYes == v.monYes && r.value.monNo == v.monNo
    ensures r.Ok? && !Says(Value(line, cols, "system_monitoring"), "0") ==>
      && r.value.monSchedNo == v.monSchedNo
      && (r.value.monYes == Some(Checked) <==> Contains(vlog, "MONOK;" + host))
      && (r.value.monYes == Some(Checked) || r.value.monYes == Some(Box))
      && (r.value.monNo == Some(Checked) <==> !Contains(vlog, "MONOK;" + host) && valid)
      && (r.value.monNo == Some(Checked) || r.value.monNo == Some(Box))
  {
    var mon :- Field(line, cols, "system_monitoring");
    var v' :- if mon == Some("0") then Ok(v.(monSchedNo := Some(Checked)))
              else
                var name :- Field(line, cols, "system_monitoring_name");
                if Contains(vlog, "MONOK;" + host) then
                  Ok(v.(monYes := Some(Checked), monNo := Some(Box)))
                else
                  Ok(v.(monYes := Some(Box), monNo := Some(if valid then Checked else Box)));
    var notes :- Field(line, cols, "system_monitoring_notes");
    Ok(v'.(monNotes := Some(Note(notes))))
  }

  predicate MonitoringReads(line: seq<string>, cols: Columns) {
    && Reads(line, cols, "system_monitoring")
    && (!Says(Value(line, cols, "system_monitoring"), "0") ==> Reads(line, cols, "system_monitoring_name"))
    && Reads(line, cols, "system_monitoring_notes")
  }

  /** Backup or antivirus (lines 354-375): the "missing" box is checked iff
      the column says `0`, and only then can the note be non-empty. */
  function Missing(line: seq<string>, cols: Columns, flag: string, notes: string)
    : (r: Result<(string, string), ReportError>)
    ensures r.Ok? <==> MissingReads(line, cols, flag, notes)
    ensures r.Ok? ==>
      && (r.value.0 == Checked <==> Says(Value(line, cols, flag), "0"))
      && (r.value.0 == Checked || r.value.0 == Box)
      && (r.value.0 == Box ==> r.value.1 == "")
      && (r.value.0 == Checked ==> r.value.1 == Note(Value(line, cols, notes)))
  {
    var f :- Field(line, cols, flag);
    if f == Some("0") then
      var n :- Field(line, cols, notes);
      Ok((Checked, Note(n)))
    else
      Ok((Box, ""))
  }

  predicate MissingReads(line: seq<string>, cols: Columns, flag: string, notes: string) {
    Reads(line, cols, flag) && (Says(Value(line, cols, flag), "0") ==> Reads(line, cols, notes))
  }

  /** The name a virtual machine's snapshot is logged under: the
      vmname column up to its first `@`, or the host name when the column is
      missing or empty. */
  function SnapshotName(vmname: Option<string>, host: string): (r: string)
    ensures vmname.Some? && vmname.value != "" ==> '@' !in r && r <= vmname.value
    ensures vmname.None? || vmname.value == "" ==> r == host
  {
    if vmname.Some? && vmname.value != "" then BeforeFirst(vmname.value, '@') else host
  }

  /** Virtualisation (lines 378-401). For a virtual machine the hardware box
      is checked and the snapshot box is checked iff the log holds `SNAPOK;`
      and its snapshot name; the "no snapshot" box is cleared when it does,
      checked when it does not and the log is valid, and left as it was
      otherwise. For a physical host the "no snapshot" box is checked and the
      "snapshot" box is not touched. */
  function Virtualisation(v: Locals, line: seq<string>, cols: Columns, host: string, vlog: string, valid: bool)
    : (r: Result<Locals, ReportError>)
    ensures r.Ok? <==> VirtualisationReads(line, cols)
    ensures r.Ok? ==>
      && r.value == v.(hwCheckNo := r.value.hwCheckNo, hwCheckNotes := r.value.hwCheckNotes,
                       vmSnapYes := r.value.vmSnapYes, vmSnapNo := r.value.vmSnapNo,
                       vmSnapNotes := r.value.vmSnapNotes)
      && r.value.hwCheckNo.Some? && r.value.hwCheckNotes.Some? && r.value.vmSnapNotes.Some?
      && (r.value.hwCheckNo == Some(Checked) <==> Says(Value(line, cols, "system_virt"), "1"))
    ensures r.Ok? && Says(Value(line, cols, "system_virt"), "1") ==>
      var snap := "SNAPOK;" + SnapshotName(Value(line, cols, "system_virt_vmname"), host);
      && r.value.hwCheckNotes == Some("not a physical host")
      && r.value.vmSnapNotes == Some("")
      && (r.value.vmSnapYes == Some(Checked) <==> Contains(vlog, snap))
      && (r.value.vmSnapYes == Some(Checked) || r.value.vmSnapYes == Some(Box))
      && (Contains(vlog, snap) ==> r.value.vmSnapNo == Some(Box))
      && (!Contains(vlog, snap) && valid ==> r.value.vmSnapNo == Some(Checked))
      && (!Contains(vlog, snap) && !valid ==> r.value.vmSnapNo == v.vmSnapNo)
    ensures r.Ok? && !Says(Value(line, cols, "system_virt"), "1") ==>
      && r.value.hwCheckNo == Some(Box) && r.value.hwCheckNotes == Some("")
      && r.value.vmSnapNo == Some(Checked) && r.value.vmSnapNotes == Some("not a virtual machine")
      && r.value.vmSnapYes == v.vmSnapYes
  {
    var virt :- Field(line, cols, "system_virt");
    if virt == Some("1") then
      var vm :- Field(line, cols, "system_virt_vmname");
      var snap := "SNAPOK;" + SnapshotName(vm, host);
      var w := v.(hwCheckNo := Some(Checked), hwCheckNotes := Some("not a physical host"),
                  vmSnapNotes := Some(""));
      if Contains(vlog, snap) then
        Ok(w.(vmSnapYes := Some(Checked), vmSnapNo := Some(Box)))
      else if valid then
        Ok(w.(vmSnapYes := Some(Box), vmSnapNo := Some(Checked)))
      else
        Ok(w.(vmSnapYes := Some(Box)))
    else
      Ok(v.(hwCheckNo := Some(Box), vmSnapNo := Some(Checked), hwCheckNotes := Some(""),
            vmSnapNotes := Some("not a virtual machine")))
  }

  predicate VirtualisationReads(line: seq<string>, cols: Columns) {
    Reads(line, cols, "system_virt")
    && (Says(Value(line, cols, "system_virt"), "1") ==> Reads(line, cols, "system_virt_vmname"))
  }

  // ---------------------------------------------------------------------
  // What a host's rows accumulate

  /** The errata columns of a host's rows, each list holding the non-empty
      values in row order. */
  datatype Errata = Errata(names: seq<string>, dates: seq<string>, descs: seq<string>,
                           types: seq<string>, reboots: seq<string>)

  datatype HostState = HostState(noReboot: string, rebootNotes: string, errata: Errata)

  /** Reset at the start of each host. */
  const HostStart: HostState := HostState(Box, "", Errata([], [], [], [], []))

  /** `[x]` for a resolved non-empty value, `[]` otherwise. */
  function Present(v: Option<string>): (r: seq<string>)
    ensures |r| <= 1
    ensures |r| == 1 <==> v.Some? && v.value != ""
    ensures |r| == 1 ==> r[0] == v.value
  {
    if v.Some? && v.value != "" then [v.value] else []
  }

  /** A resolved reboot column holding anything but `reboot_suggested`. */
  predicate NoRebootRow(line: seq<string>, cols: Columns) {
    Value(line, cols, "errata_reboot").Some?
    && Value(line, cols, "errata_reboot").value != "reboot_suggested"
  }

  /** Reboot box and errata information (lines 404-418): the "no reboot"
      box, once checked, stays checked for the host; each errata list grows
      by the row's non-empty value. */
  function Patches(h: HostState, line: seq<string>, cols: Columns): (r: Result<HostState, ReportError>)
    ensures r.Ok? <==> PatchesReads(line, cols)
    ensures r.Ok? ==>
      && (NoRebootRow(line, cols) ==>
            r.value.noReboot == Checked && r.value.rebootNotes == "no reboot required")
      && (!NoRebootRow(line, cols) ==>
            r.value.noReboot == h.noReboot && r.value.rebootNotes == h.rebootNotes)
      && r.value.errata.names == h.errata.names + Present(Value(line, cols, "errata_name"))
      && r.value.errata.dates == h.errata.dates + Present(Value(line, cols, "errata_date"))
      && r.value.errata.descs == h.errata.descs + Present(Value(line, cols, "errata_desc"))
      && r.value.errata.types == h.errata.types + Present(Value(line, cols, "errata_type"))
      && r.value.errata.reboots == h.errata.reboots + Present(Value(line, cols, "errata_reboot"))
  {
    var reboot :- Field(line, cols, "errata_reboot");
    var h' := if reboot.Some? && reboot.value != "reboot_suggested"
              then h.(noReboot := Checked, rebootNotes := "no reboot required") else h;
    var name :- Field(line, cols, "errata_name");
    var date :- Field(line, cols, "errata_date");
    var desc :- Field(line, cols, "errata_desc");
    var kind :- Field(line, cols, "errata_type");
    var e := h'.errata;
    Ok(h'.(errata := Errata(e.names + Present(name), e.dates + Present(date),
                            e.descs + Present(desc), e.types + Present(kind),
                            e.reboots + Present(reboot))))
  }

  predicate PatchesReads(line: seq<string>, cols: Columns) {
    && Reads(line, cols, "errata_reboot") && Reads(line, cols, "errata_name")
    && Reads(line, cols, "errata_date") && Reads(line, cols, "errata_desc")
    && Reads(line, cols, "errata_type")
  }

  /** All the columns a row is read at exist: the row raises no IndexError. */
  predicate Readable(line: seq<string>, cols: Columns) {
    && Reads(line, cols, "ip") && Reads(line, cols, "system_owner")
    && Reads(line, cols, "system_cluster")
    && MonitoringReads(line, cols)
    && MissingReads(line, cols, "system_backup", "system_backup_notes")
    && MissingReads(line, cols, "system_antivir", "system_antivir_notes")
    && VirtualisationReads(line, cols)
    && PatchesReads(line, cols)
  }

  /** A row whose columns all lie inside it is readable. */
  lemma FitsReadable(line: seq<string>, cols: Columns)
    requires Fits(line, cols)
    ensures Readable(line, cols)
  {
    forall n: string ensures Reads(line, cols, n) { FitsField(line, cols, n); }
  }

  /** One row of the host (the body of the `for line in a` loop, lines
      303-418), the parts in the order the script reads the columns. */
  function ApplyRow(v: Locals, h: HostState, line: seq<string>, cols: Columns, host: string,
                    vlog: string, valid: bool): (r: Result<(Locals, HostState), ReportError>)
    ensures r.Ok? <==> Readable(line, cols)
    ensures r.Err? ==> r.error == IndexError
    ensures r.Ok? ==> Assigned(r.value.0)
    ensures r.Ok? ==> r.value.1 == Patches(h, line, cols).value
    ensures r.Ok? ==>
      (r.value.0.cluster == Some(Checked) <==> Says(Value(line, cols, "system_cluster"), "1"))
    ensures r.Ok? && Says(Value(line, cols, "system_monitoring"), "0") ==>
      r.value.0.monYes == v.monYes && r.value.0.monNo == v.monNo
    ensures r.Ok? && !Says(Value(line, cols, "system_monitoring"), "0") ==>
      r.value.0.monYes.Some? && r.value.0.monNo.Some?
    ensures r.Ok? && !Says(Value(line, cols, "system_virt"), "1") ==>
      r.value.0.vmSnapYes == v.vmSnapYes && r.value.0.vmSnapNo == Some(Checked)
    ensures r.Ok? && Says(Value(line, cols, "system_virt"), "1") ==> r.value.0.vmSnapYes.Some?
  {
    var a :- Identity(v, line, cols, host);
    var b :- Cluster(a, line, cols);
    var c :- Monitoring(b, line, cols, host, vlog, valid);
    var backup :- Missing(line, cols, "system_backup", "system_backup_notes");
    var antivir :- Missing(line, cols, "system_antivir", "system_antivir_notes");
    var d := c.(backupNo := Some(backup.0), backupNotes := Some(backup.1),
                antivirNo := Some(antivir.0), antivirNotes := Some(antivir.1));
    var e :- Virtualisation(d, line, cols, host, vlog, valid);
    var h' :- Patches(h, line, cols);
    Ok((e, h'))
  }

  /** The locals every row assigns, whatever its columns say. */
  predicate Assigned(v: Locals) {
    && v.ip.Some? && v.title.Some? && v.owner.Some?
    && v.cluster.Some? && v.standalone.Some? && v.hintsCluster.Some?
    && v.monNotes.Some? && v.backupNo.Some? && v.backupNotes.Some?
    && v.antivirNo.Some? && v.antivirNotes.Some?
    && v.hwCheckNo.Some? && v.hwCheckNotes.Some? && v.vmSnapNotes.Some?
  }
}
