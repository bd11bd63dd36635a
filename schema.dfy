/** The report schema: the column header of a snapshot report and the
    positions of the named columns the scripts look up. */
module Schema {
  import opened Wrappers
  import opened PyText

  /** Column name to position; `None` where the header lacks the column
      (the scripts store the sentinel 666 there and test `< 666`). */
  type Columns = map<string, Option<nat>>

  /** The columns `satprep_diff.py` looks up in a report header. */
  const DiffColumns: seq<string> := [
    "hostname", "ip", "errata_name", "errata_type", "errata_desc", "errata_date",
    "system_owner", "system_cluster", "system_virt", "system_virt_vmname",
    "errata_reboot", "system_monitoring", "system_monitoring_notes",
    "system_monitoring_name", "system_backup", "system_backup_notes",
    "system_antivir", "system_antivir_notes"]

  /** The columns `satprep_prepare_maintenance.py` looks up. */
  const PrepareColumns: seq<string> := [
    "hostname", "errata_reboot", "system_monitoring", "system_monitoring_name",
    "system_virt", "system_virt_snapshot", "system_virt_vmname"]

  /** `header.replace("\n","").replace("\r","").split(";")`: the column names
      of a header line; none holds a separator or a line break, and joined
      with `;` they give the header without its line breaks. */
  function Headers(header: string): (r: seq<string>)
    ensures |r| >= 1
    ensures forall k :: 0 <= k < |r| ==> ';' !in r[k] && '\n' !in r[k] && '\r' !in r[k]
    ensures JoinWith(r, ';') == Replace(Replace(header, "\n", ""), "\r", "")
  {
    var flat := Replace(Replace(header, "\n", ""), "\r", "");
    ReplaceDeletes(header, '\n', '\r');
    ReplaceDeletes(Replace(header, "\n", ""), '\r', '\n');
    var r := Split(flat, ';');
    assert forall k :: 0 <= k < |r| ==> '\n' !in r[k] && '\r' !in r[k] by {
      forall k | 0 <= k < |r| ensures '\n' !in r[k] && '\r' !in r[k] {
        PieceOfJoin(r, ';', k);
      }
    }
    r
  }

  /** Every character of a piece occurs in the joined string. */
  lemma {:induction false} PieceOfJoin(parts: seq<string>, sep: char, k: nat)
    requires k < |parts|
    ensures forall c :: c in parts[k] ==> c in JoinWith(parts, sep)
    decreases |parts|
  {
    if |parts| > 1 {
      if k > 0 {
        PieceOfJoin(parts[1..], sep, k - 1);
      }
    }
  }

  /** The loop over the column names that stores `headers.index(name)` for
      each, or the sentinel where `index` raises ValueError. */
  method Resolve(headers: seq<string>, names: seq<string>) returns (cols: Columns)
    ensures ResolvedFrom(cols, headers, names)
  {
    cols := map[];
    for i := 0 to |names|
      invariant cols.Keys == set k | 0 <= k < i :: names[k]
      invariant forall n :: n in cols ==> cols[n] == Index(headers, n)
    {
      cols := cols[names[i] := Index(headers, names[i])];
    }
    assert (set k | 0 <= k < |names| :: names[k]) == set n | n in names by {
      forall n | n in names ensures n in set k | 0 <= k < |names| :: names[k] {
        var k :| 0 <= k < |names| && names[k] == n;
      }
    }
  }

  /** `cols` holds exactly the names asked for, each at the first header
      carrying it. */
  ghost predicate ResolvedFrom(cols: Columns, headers: seq<string>, names: seq<string>) {
    && cols.Keys == set n | n in names
    && forall n :: n in cols ==> cols[n] == Index(headers, n)
  }

  /** `repcols[name]`, `None` standing for the sentinel. */
  function Lookup(cols: Columns, name: string): Option<nat> {
    if name in cols then cols[name] else None
  }
}
