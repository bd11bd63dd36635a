/** The LaTeX table of installed errata each host report carries
    (`this_errataTable` in `satprep_diff.py`): the table head with its
    column count and column descriptor, the header row, one row per erratum
    of the host, and the escaping of `_` in those rows. */
module ErrataTable {
  import opened Wrappers
  import opened PyText
  import opened Schema
  import opened Checklist

  // ---------------------------------------------------------------------
  // The errata columns

  /** `[row for row in repcols if row.find("errata") != -1]`, where `order`
      is the order in which the dictionary hands out its keys. */
  function ErrataColumns(order: seq<string>): (r: seq<string>)
    ensures forall x :: x in r <==> x in order && Contains(x, "errata")
    ensures forall y :: multiset(r)[y] == if Contains(y, "errata") then multiset(order)[y] else 0
    ensures |r| <= |order|
    decreases |order|
  {
    if |order| == 0 then []
    else
      var rest := ErrataColumns(order[1..]);
      assert order == [order[0]] + order[1..];
      if Contains(order[0], "errata") then [order[0]] + rest else rest
  }

  /** The number of errata columns, and which they are, does not depend on
      the order the dictionary lists its keys in. */
  lemma ErrataColumnsIgnoreOrder(o1: seq<string>, o2: seq<string>)
    requires multiset(o1) == multiset(o2)
    ensures multiset(ErrataColumns(o1)) == multiset(ErrataColumns(o2))
    ensures |ErrataColumns(o1)| == |ErrataColumns(o2)|
  {
    var m1, m2 := multiset(ErrataColumns(o1)), multiset(ErrataColumns(o2));
    assert forall y :: m1[y] == m2[y];
    assert m1 == m2;
    assert |ErrataColumns(o1)| == |m1|;
  }

  /** The five errata columns of the delta report are all in the table. */
  lemma ErrataColumnsOfDiff(order: seq<string>)
    requires forall n :: n in DiffColumns ==> n in order
    ensures "errata_name" in ErrataColumns(order) && "errata_type" in ErrataColumns(order)
    ensures "errata_desc" in ErrataColumns(order) && "errata_date" in ErrataColumns(order)
    ensures "errata_reboot" in ErrataColumns(order)
  {
    DiffErrataColumns();
    var d := DiffColumns;
    assert d[2] in d && d[3] in d && d[4] in d && d[5] in d && d[10] in d;
    KeptColumn(order, d[2]);
    KeptColumn(order, d[3]);
    KeptColumn(order, d[4]);
    KeptColumn(order, d[5]);
    KeptColumn(order, d[10]);
  }

  /** Where the errata columns sit in the delta report's column list. */
  lemma DiffErrataColumns()
    ensures DiffColumns[2] == "errata_name" && DiffColumns[3] == "errata_type"
    ensures DiffColumns[4] == "errata_desc" && DiffColumns[5] == "errata_date"
    ensures DiffColumns[10] == "errata_reboot"
    ensures forall k :: k in {2, 3, 4, 5, 10} ==> "errata" <= DiffColumns[k]
  {
  }

  lemma KeptColumn(order: seq<string>, n: string)
    requires n in order && "errata" <= n
    ensures n in ErrataColumns(order)
  {
  }

  // ---------------------------------------------------------------------
  // Joining cells

  /** `pieces` separated by `sep`. */
  function JoinStr(pieces: seq<string>, sep: string): string
    decreases |pieces|
  {
    if |pieces| == 0 then ""
    else if |pieces| == 1 then pieces[0]
    else JoinStr(pieces[..|pieces| - 1], sep) + sep + pieces[|pieces| - 1]
  }

  /** The counting loops of the header and data rows: each piece is appended,
      followed by the separator unless it is the last (`count !=
      len(this_errataColumns)`). */
  method AppendCells(t0: string, pieces: seq<string>, sep: string) returns (t: string)
    ensures t == t0 + JoinStr(pieces, sep)
  {
    t := t0;
    var count := 1;
    for k := 0 to |pieces|
      invariant count == k + 1
      invariant t == t0 + JoinStr(pieces[..k], sep) + (if 0 < k < |pieces| then sep else "")
    {
      t := t + pieces[k];
      if count != |pieces| {
        t := t + sep;
      }
      count := count + 1;
      assert pieces[..k + 1][..k] == pieces[..k];
    }
    assert pieces[..|pieces|] == pieces;
  }

  /** How often `c` occurs in `s`. */
  function Occurrences(s: string, c: char): nat
    decreases |s|
  {
    if |s| == 0 then 0 else (if s[0] == c then 1 else 0) + Occurrences(s[1..], c)
  }

  lemma {:induction false} OccurrencesAppend(a: string, b: string, c: char)
    ensures Occurrences(a + b, c) == Occurrences(a, c) + Occurrences(b, c)
    decreases |a|
  {
    if |a| == 0 {
      assert a + b == b;
    } else {
      assert (a + b)[1..] == a[1..] + b;
      OccurrencesAppend(a[1..], b, c);
    }
  }

  /** Joining pieces free of `c` with a separator holding it once puts one
      `c` between each two pieces. */
  lemma {:induction false} JoinStrSeparators(pieces: seq<string>, sep: string, c: char)
    requires forall k :: 0 <= k < |pieces| ==> Occurrences(pieces[k], c) == 0
    requires Occurrences(sep, c) == 1
    ensures Occurrences(JoinStr(pieces, sep), c) == if |pieces| == 0 then 0 else |pieces| - 1
    decreases |pieces|
  {
    if |pieces| > 1 {
      var init := pieces[..|pieces| - 1];
      JoinStrSeparators(init, sep, c);
      OccurrencesAppend(JoinStr(init, sep), sep, c);
      OccurrencesAppend(JoinStr(init, sep) + sep, pieces[|pieces| - 1], c);
    }
  }

  // ---------------------------------------------------------------------
  // The table head

  /** One column of the descriptor: a stretching `X` column for the
      description and the name, a plain `l` column for the others. */
  function ColumnSpec(c: string): string {
    if c == "errata_desc" || c == "errata_name" then " | X" else " | l"
  }

  function Specs(cols: seq<string>): string
    decreases |cols|
  {
    if |cols| == 0 then "" else Specs(cols[..|cols| - 1]) + ColumnSpec(cols[|cols| - 1])
  }

  /** Lines 271-276: the column descriptor. */
  method ColumnDescriptor(cols: seq<string>) returns (d: string)
    ensures d == Specs(cols) + " | "
  {
    d := "";
    for i := 0 to |cols|
      invariant d == Specs(cols[..i])
    {
      d := d + ColumnSpec(cols[i]);
      assert cols[..i + 1][..i] == cols[..i];
    }
    assert cols[..|cols|] == cols;
    d := d + " | ";
  }

  /** The descriptor declares one column per errata column: four characters
      each, the fourth `X` exactly for the description and the name columns,
      and a closing ` | `. */
  lemma DescriptorShape(cols: seq<string>)
    ensures |Specs(cols)| == 4 * |cols|
    ensures forall k :: 0 <= k < |cols| ==>
      Specs(cols)[4 * k .. 4 * k + 3] == " | "
      && (Specs(cols)[4 * k + 3] == 'X' <==> cols[k] == "errata_desc" || cols[k] == "errata_name")
      && (Specs(cols)[4 * k + 3] == 'X' || Specs(cols)[4 * k + 3] == 'l')
  {
    SpecsAt(cols, 0);
    forall k | 0 <= k < |cols|
      ensures Specs(cols)[4 * k .. 4 * k + 3] == " | "
      ensures Specs(cols)[4 * k + 3] == 'X' <==> cols[k] == "errata_desc" || cols[k] == "errata_name"
      ensures Specs(cols)[4 * k + 3] == 'X' || Specs(cols)[4 * k + 3] == 'l'
    {
      SpecsAt(cols, k);
      var w := Specs(cols)[4 * k .. 4 * k + 4];
      assert Specs(cols)[4 * k .. 4 * k + 3] == w[..3];
      assert Specs(cols)[4 * k + 3] == w[3];
    }
  }

  /** Column `k`'s four characters sit at `4 * k`. */
  lemma {:induction false} SpecsAt(cols: seq<string>, k: nat)
    ensures |Specs(cols)| == 4 * |cols|
    ensures k < |cols| ==> Specs(cols)[4 * k .. 4 * k + 4] == ColumnSpec(cols[k])
    decreases |cols|
  {
    if |cols| > 0 {
      var init := cols[..|cols| - 1];
      SpecsAt(init, k);
      if k < |init| {
        assert init[k] == cols[k];
      }
    }
  }

  /** Lines 260-264 with the placeholders still in. */
  const HeadTemplate: string :=
    "\\section*{}\n\\begin{tabularx}{\\textwidth}{%%colDescriptor}\n\\hline\n"
    + "\\multicolumn{%%count}{|c|}{\\cellcolor{Gray}\\textbf{List of installed patches}} \\\\\n\\hline"

  /** Lines 268 and 277: the count and the descriptor filled in. */
  function Head(cols: seq<string>, descriptor: string): string {
    Replace(Replace(HeadTemplate, "%%count", NatToString(|cols|)), "%%colDescriptor", descriptor)
  }

  // ---------------------------------------------------------------------
  // The header row

  function Bold(c: string): string {
    "\\textbf{" + c + "} "
  }

  function Bolds(cols: seq<string>): (r: seq<string>)
    ensures |r| == |cols|
    ensures forall k :: 0 <= k < |cols| ==> r[k] == Bold(cols[k])
  {
    seq(|cols|, k requires 0 <= k < |cols| => Bold(cols[k]))
  }

  /** Line 289: column names to the labels the report shows. */
  function Relabel(t: string): string {
    Replace(Replace(Replace(Replace(Replace(t,
      "errata_name", "Name"), "errata_date", "Date"), "errata_desc", "Description"),
      "errata_reboot", "Reboot required"), "errata_type", "Type")
  }

  /** Lines 280-290: the bold column names separated by `& `, closed by
      `\\`, relabelled. */
  method HeaderRow(cols: seq<string>) returns (t: string)
    ensures t == Relabel("\n" + JoinStr(Bolds(cols), "& ") + "\\\\")
  {
    t := AppendCells("\n", Bolds(cols), "& ");
    t := t + "\\\\";
    t := Relabel(t);
  }

  // ---------------------------------------------------------------------
  // Escaping

  /** Line 452: `_` becomes `\_`. */
  function Escape(s: string): string {
    Replace(s, "_", "\\_")
  }

  function Unescape(s: string): string {
    Replace(s, "\\_", "_")
  }

  /** No escaped text starts with a bare `_`. */
  lemma EscapeHead(s: string)
    ensures |Escape(s)| > 0 ==> Escape(s)[0] != '_'
    ensures |Escape(s)| == 0 <==> |s| == 0
  {
    if |s| > 0 && !("_" <= s) {
      ReplaceSkipHead(s, "_", "\\_");
    }
  }

  /** Escaping loses nothing: unescaping gives the text back. */
  lemma {:induction false} EscapeRoundTrip(s: string)
    ensures Unescape(Escape(s)) == s
    decreases |s|
  {
    if |s| > 0 {
      EscapeRoundTrip(s[1..]);
      var e := Escape(s[1..]);
      if s[0] == '_' {
        assert "_" <= s;
        assert Escape(s) == "\\_" + e;
        assert (("\\_" + e)[2..]) == e;
        assert "\\_" <= "\\_" + e;
        assert Unescape(Escape(s)) == "_" + Unescape(e);
        assert s == "_" + s[1..];
      } else {
        ReplaceSkipHead(s, "_", "\\_");
        assert Escape(s) == [s[0]] + e;
        EscapeHead(s[1..]);
        assert |e| > 0 ==> ([s[0]] + e)[1] == e[0];
        assert !("\\_" <= [s[0]] + e);
        ReplaceSkipHead([s[0]] + e, "\\_", "_");
        assert ([s[0]] + e)[1..] == e;
        assert s == [s[0]] + s[1..];
      }
    }
  }

  // ---------------------------------------------------------------------
  // The errata rows

  function Spaced(cols: seq<string>): (r: seq<string>)
    ensures |r| == |cols|
    ensures forall k :: 0 <= k < |cols| ==> r[k] == cols[k] + " "
  {
    seq(|cols|, k requires 0 <= k < |cols| => cols[k] + " ")
  }

  /** One row before filling in: each errata column name followed by a
      space, separated by ` & `, closed by `\\` and a line break. */
  function RowTemplate(cols: seq<string>): (r: string)
    ensures |r| > 0 && r[|r| - 1] == '\n'
  {
    JoinStr(Spaced(cols), " & ") + "\\\\\n"
  }

  function Get(xs: seq<string>, i: nat): string {
    if i < |xs| then xs[i] else ""
  }

  /** Every errata list whose column is resolved has an entry for every
      erratum name; otherwise `this_errata_...[i]` raises IndexError. */
  predicate ListsCover(e: Errata, cols: Columns) {
    && (Lookup(cols, "errata_date").Some? ==> |e.dates| >= |e.names|)
    && (Lookup(cols, "errata_desc").Some? ==> |e.descs| >= |e.names|)
    && (Lookup(cols, "errata_reboot").Some? ==> |e.reboots| >= |e.names|)
    && (Lookup(cols, "errata_type").Some? ==> |e.types| >= |e.names|)
  }

  /** The replacements of lines 431-450 for erratum `i`, in order: a column
      that is not resolved reads `unknown `, and the reboot column reads
      `yes` for `1` and `no` for anything else. */
  function Substitutions(e: Errata, cols: Columns, i: nat): (r: seq<(string, string)>)
    ensures |r| == 5
    ensures forall k :: 0 <= k < |r| ==> |r[k].0| > 0 && '\n' !in r[k].0
  {
    var date := if Lookup(cols, "errata_date").Some? then Get(e.dates, i) else "unknown ";
    var desc := if Lookup(cols, "errata_desc").Some? then Get(e.descs, i) else "unknown ";
    var reboot := if Lookup(cols, "errata_reboot").Some?
                  then (if Get(e.reboots, i) == "1" then "yes" else "no") else "unknown ";
    var kind := if Lookup(cols, "errata_type").Some? then Get(e.types, i) else "unknown ";
    [("errata_name", Get(e.names, i)), ("errata_date", date), ("errata_desc", desc),
     ("errata_reboot", reboot), ("errata_type", kind)]
  }

  /** The replacements applied one after the other. */
  function ReplaceAll(t: string, subs: seq<(string, string)>): string
    requires forall k :: 0 <= k < |subs| ==> |subs[k].0| > 0
    decreases |subs|
  {
    if |subs| == 0 then t else ReplaceAll(Replace(t, subs[0].0, subs[0].1), subs[1..])
  }

  /** The text the loop has built after `n` errata: each turn appends a row
      template to everything built so far and fills in the whole of it. */
  function Rendered(cols: seq<string>, e: Errata, c: Columns, n: nat): (r: string)
    ensures n > 0 ==> |r| > 0 && r[|r| - 1] == '\n'
    decreases n
  {
    if n == 0 then ""
    else
      var t := Rendered(cols, e, c, n - 1) + RowTemplate(cols);
      assert t[|t| - 1] == '\n';
      ReplaceAllKeepsLast(t, Substitutions(e, c, n - 1));
      ReplaceAll(t, Substitutions(e, c, n - 1))
  }

  /** Lines 421-450. */
  method DataRows(cols: seq<string>, e: Errata, c: Columns) returns (res: Result<string, ReportError>)
    ensures res == if ListsCover(e, c) then Ok(Rendered(cols, e, c, |e.names|)) else Err(IndexError)
  {
    var t := "";
    for i := 0 to |e.names|
      invariant t == Rendered(cols, e, c, i)
      invariant forall j :: 0 <= j < i ==> CoversAt(e, c, j)
    {
      var row := AddRow(t, cols, e, c, i);
      if row.Err? {
        return Err(IndexError);
      }
      t := row.value;
    }
    if |e.names| > 0 {
      assert CoversAt(e, c, |e.names| - 1);
    }
    return Ok(t);
  }

  /** Erratum `i` has an entry in every errata list whose column is
      resolved. */
  predicate CoversAt(e: Errata, c: Columns, i: nat) {
    && (Lookup(c, "errata_date").Some? ==> i < |e.dates|)
    && (Lookup(c, "errata_desc").Some? ==> i < |e.descs|)
    && (Lookup(c, "errata_reboot").Some? ==> i < |e.reboots|)
    && (Lookup(c, "errata_type").Some? ==> i < |e.types|)
  }

  /** Lines 421-450 for erratum `i`: a row template appended, then the five
      replacements over the whole text, reading the lists of the resolved
      columns at `i`. */
  method AddRow(t0: string, cols: seq<string>, e: Errata, c: Columns, i: nat)
    returns (res: Result<string, ReportError>)
    requires i < |e.names|
    ensures res.Err? <==> !CoversAt(e, c, i)
    ensures res.Err? ==> res.error == IndexError
    ensures res.Ok? ==> res.value == ReplaceAll(t0 + RowTemplate(cols), Substitutions(e, c, i))
  {
    var t := AppendCells(t0, Spaced(cols), " & ");
    t := t + "\\\\\n";
    assert t == t0 + RowTemplate(cols);
    ghost var subs := Substitutions(e, c, i);
    FiveReplacements(t, subs);
    t := Replace(t, "errata_name", e.names[i]);
    if Lookup(c, "errata_date").Some? {
      if i >= |e.dates| { return Err(IndexError); }
      t := Replace(t, "errata_date", e.dates[i]);
    } else {
      t := Replace(t, "errata_date", "unknown ");
    }
    if Lookup(c, "errata_desc").Some? {
      if i >= |e.descs| { return Err(IndexError); }
      t := Replace(t, "errata_desc", e.descs[i]);
    } else {
      t := Replace(t, "errata_desc", "unknown ");
    }
    if Lookup(c, "errata_reboot").Some? {
      if i >= |e.reboots| { return Err(IndexError); }
      if e.reboots[i] == "1" {
        t := Replace(t, "errata_reboot", "yes");
      } else {
        t := Replace(t, "errata_reboot", "no");
      }
    } else {
      t := Replace(t, "errata_reboot", "unknown ");
    }
    if Lookup(c, "errata_type").Some? {
      if i >= |e.types| { return Err(IndexError); }
      t := Replace(t, "errata_type", e.types[i]);
    } else {
      t := Replace(t, "errata_type", "unknown ");
    }
    return Ok(t);
  }

  lemma FiveReplacements(t: string, subs: seq<(string, string)>)
    requires |subs| == 5 && forall k :: 0 <= k < 5 ==> |subs[k].0| > 0
    ensures ReplaceAll(t, subs) ==
      Replace(Replace(Replace(Replace(Replace(t, subs[0].0, subs[0].1), subs[1].0, subs[1].1),
        subs[2].0, subs[2].1), subs[3].0, subs[3].1), subs[4].0, subs[4].1)
  {
    var t1 := Replace(t, subs[0].0, subs[0].1);
    var t2 := Replace(t1, subs[1].0, subs[1].1);
    var t3 := Replace(t2, subs[2].0, subs[2].1);
    var t4 := Replace(t3, subs[3].0, subs[3].1);
    var t5 := Replace(t4, subs[4].0, subs[4].1);
    assert subs[1..][0] == subs[1] && subs[1..][1..] == subs[2..];
    assert subs[2..][0] == subs[2] && subs[2..][1..] == subs[3..];
    assert subs[3..][0] == subs[3] && subs[3..][1..] == subs[4..];
    assert subs[4..][0] == subs[4] && subs[4..][1..] == [];
    assert ReplaceAll(t4, subs[4..]) == ReplaceAll(t5, []) == t5;
    assert ReplaceAll(t3, subs[3..]) == ReplaceAll(t4, subs[4..]);
    assert ReplaceAll(t2, subs[2..]) == ReplaceAll(t3, subs[3..]);
    assert ReplaceAll(t1, subs[1..]) == ReplaceAll(t2, subs[2..]);
  }

  /** The five column names the rows are filled in for. */
  const Placeholders: seq<string> :=
    ["errata_name", "errata_date", "errata_desc", "errata_reboot", "errata_type"]

  lemma SubstitutionPatterns(e: Errata, c: Columns, i: nat)
    ensures forall k :: 0 <= k < 5 ==> Substitutions(e, c, i)[k].0 == Placeholders[k]
  {
  }

  /** Text holding none of the placeholders. */
  predicate Clean(s: string) {
    forall k :: 0 <= k < |Placeholders| ==> !Contains(s, Placeholders[k])
  }

  /** The row of erratum `i` filled in on its own. */
  function RowText(cols: seq<string>, e: Errata, c: Columns, i: nat): (r: string)
    ensures |r| > 0 && r[|r| - 1] == '\n'
  {
    ReplaceAllKeepsLast(RowTemplate(cols), Substitutions(e, c, i));
    ReplaceAll(RowTemplate(cols), Substitutions(e, c, i))
  }

  /** The rows the report is meant to show: each erratum's row filled in on
      its own, one after the other. */
  function IntendedRows(cols: seq<string>, e: Errata, c: Columns, n: nat): string
    decreases n
  {
    if n == 0 then "" else IntendedRows(cols, e, c, n - 1) + RowText(cols, e, c, n - 1)
  }

  /** Filling in the whole accumulated text, as the loop does, renders the
      intended rows as long as no filled-in row holds a placeholder (an
      erratum value such as a description naming `errata_type` would be
      replaced again on later turns). */
  lemma {:induction false} RenderedIsIntended(cols: seq<string>, e: Errata, c: Columns, n: nat)
    requires forall i :: 0 <= i < n ==> Clean(RowText(cols, e, c, i))
    ensures Rendered(cols, e, c, n) == IntendedRows(cols, e, c, n)
    ensures Clean(Rendered(cols, e, c, n))
    decreases n
  {
    if n == 0 {
      forall k | 0 <= k < |Placeholders| ensures !Contains("", Placeholders[k]) {
        assert !(Placeholders[k] <= "");
      }
    } else {
      RenderedIsIntended(cols, e, c, n - 1);
      var acc := Rendered(cols, e, c, n - 1);
      RenderedStep(cols, e, c, n - 1, acc);
    }
  }

  /** One turn of the loop on a clean text ending in a line break (or
      empty) appends the row filled in on its own. */
  lemma RenderedStep(cols: seq<string>, e: Errata, c: Columns, i: nat, acc: string)
    requires Clean(acc) && Clean(RowText(cols, e, c, i))
    requires |acc| == 0 || acc[|acc| - 1] == '\n'
    ensures ReplaceAll(acc + RowTemplate(cols), Substitutions(e, c, i)) == acc + RowText(cols, e, c, i)
    ensures Clean(acc + RowText(cols, e, c, i))
  {
    var subs := Substitutions(e, c, i);
    SubstitutionPatterns(e, c, i);
    ReplaceAllAppend(acc, RowTemplate(cols), subs);
    var row := RowText(cols, e, c, i);
    forall k | 0 <= k < |Placeholders| ensures !Contains(acc + row, Placeholders[k]) {
      assert '\n' !in Placeholders[k] by { assert subs[k].0 == Placeholders[k]; }
      ContainsConcat(acc, row, Placeholders[k]);
    }
  }

  /** A string free of `p` followed by one free of `p` is free of `p` when
      no occurrence can start in the first and end in the second. */
  lemma {:induction false} ContainsConcat(a: string, b: string, p: string)
    requires |p| > 0
    ensures (!Contains(a, p) && !Contains(b, p) && (|a| == 0 || a[|a| - 1] !in p))
            ==> !Contains(a + b, p)
    decreases |a|
  {
    if |a| == 0 {
      assert a + b == b;
    } else if !Contains(a, p) && !Contains(b, p) && a[|a| - 1] !in p {
      assert !(p <= a + b) by {
        if |p| <= |a| {
          PrefixOfConcat(a, b, p);
        } else if |p| <= |a + b| {
          assert (a + b)[|a| - 1] == a[|a| - 1];
        }
      }
      var a' := a[1..];
      assert (a + b)[1..] == a' + b;
      assert |a'| > 0 ==> a'[|a'| - 1] == a[|a| - 1];
      ContainsConcat(a', b, p);
    }
  }

  /** Replacing in text that follows a placeholder-free part ending in a
      character no pattern holds leaves that part alone. */
  lemma {:induction false} ReplaceAllAppend(acc: string, t: string, subs: seq<(string, string)>)
    requires forall k :: 0 <= k < |subs| ==> |subs[k].0| > 0
    requires forall k :: 0 <= k < |subs| ==> !Contains(acc, subs[k].0)
    requires |acc| == 0 || forall k :: 0 <= k < |subs| ==> acc[|acc| - 1] !in subs[k].0
    ensures ReplaceAll(acc + t, subs) == acc + ReplaceAll(t, subs)
    decreases |subs|
  {
    if |subs| > 0 {
      var (p, r) := subs[0];
      ReplaceSplit(acc, t, p, r);
      ReplaceAbsent(acc, p, r);
      ReplaceAllAppend(acc, Replace(t, p, r), subs[1..]);
    }
  }

  /** A last character that no pattern holds survives the replacements. */
  lemma {:induction false} ReplaceAllKeepsLast(t: string, subs: seq<(string, string)>)
    requires forall k :: 0 <= k < |subs| ==> |subs[k].0| > 0
    requires |t| > 0 && forall k :: 0 <= k < |subs| ==> t[|t| - 1] !in subs[k].0
    ensures |ReplaceAll(t, subs)| > 0 && ReplaceAll(t, subs)[|ReplaceAll(t, subs)| - 1] == t[|t| - 1]
    decreases |subs|
  {
    if |subs| > 0 {
      ReplaceKeepsLast(t, subs[0].0, subs[0].1);
      ReplaceAllKeepsLast(Replace(t, subs[0].0, subs[0].1), subs[1..]);
    }
  }

  lemma {:induction false} ReplaceKeepsLast(s: string, p: string, r: string)
    requires |p| > 0 && |s| > 0 && s[|s| - 1] !in p
    ensures |Replace(s, p, r)| > 0 && Replace(s, p, r)[|Replace(s, p, r)| - 1] == s[|s| - 1]
    decreases |s|
  {
    if |s| < |p| {
    } else if p <= s {
      PrefixLast(s, p);
      ReplaceKeepsLast(s[|p|..], p, r);
    } else if |s| > 1 {
      ReplaceKeepsLast(s[1..], p, r);
    } else {
      assert Replace(s[1..], p, r) == "";
    }
  }

  lemma PrefixLast(s: string, p: string)
    requires |p| > 0 && p <= s
    ensures s[|p| - 1] in p
  {
    assert s[|p| - 1] == p[|p| - 1];
  }

  // ---------------------------------------------------------------------
  // The table

  /** Lines 452-456: the head, the header row, the escaped errata rows and
      the table's end. */
  function Table(head: string, header: string, rows: string): string {
    head + header + "\n" + Escape(rows) + "\n\\hline\n\\end{tabularx}"
  }
  // ---------------------------------------------------------------------
  // Shape of the escaped text and of the rows

  /** In escaped text every `_` follows a backslash. */
  predicate UnderscoresEscaped(t: string) {
    forall k :: 0 <= k < |t| && t[k] == '_' ==> k > 0 && t[k - 1] == '\\'
  }

  lemma {:induction false} EscapedUnderscores(s: string)
    ensures UnderscoresEscaped(Escape(s))
    decreases |s|
  {
    if |s| > 0 {
      EscapedUnderscores(s[1..]);
      var e := Escape(s[1..]);
      EscapeHead(s[1..]);
      var t := Escape(s);
      if s[0] == '_' {
        assert "_" <= s;
        assert t == "\\_" + e;
        forall k | 0 <= k < |t| && t[k] == '_' ensures k > 0 && t[k - 1] == '\\' {
          if k >= 2 {
            assert t[k] == e[k - 2];
            if k > 2 { assert t[k - 1] == e[k - 3]; }
          }
        }
      } else {
        ReplaceSkipHead(s, "_", "\\_");
        assert t == [s[0]] + e;
        forall k | 0 <= k < |t| && t[k] == '_' ensures k > 0 && t[k - 1] == '\\' {
          if k >= 1 {
            assert t[k] == e[k - 1];
            if k > 1 { assert t[k - 1] == e[k - 2]; }
          }
        }
      }
    }
  }

  lemma {:induction false} OccurrencesNone(s: string, c: char)
    ensures Occurrences(s, c) == 0 <==> c !in s
    decreases |s|
  {
    if |s| > 0 {
      OccurrencesNone(s[1..], c);
      assert s == [s[0]] + s[1..];
    }
  }

  /** Replacing a pattern by a text, neither holding `c`, keeps the count
      of `c`. */
  lemma {:induction false} ReplaceKeepsCount(s: string, pat: string, rep: string, c: char)
    requires |pat| > 0 && c !in pat && c !in rep
    ensures Occurrences(Replace(s, pat, rep), c) == Occurrences(s, c)
    decreases |s|
  {
    if |s| >= |pat| {
      if pat <= s {
        ReplaceKeepsCount(s[|pat|..], pat, rep, c);
        assert s == pat + s[|pat|..];
        OccurrencesAppend(pat, s[|pat|..], c);
        OccurrencesNone(pat, c);
        OccurrencesNone(rep, c);
        OccurrencesAppend(rep, Replace(s[|pat|..], pat, rep), c);
      } else {
        ReplaceKeepsCount(s[1..], pat, rep, c);
        assert Replace(s, pat, rep)[1..] == Replace(s[1..], pat, rep);
      }
    }
  }

  lemma {:induction false} ReplaceAllKeepsCount(t: string, subs: seq<(string, string)>, c: char)
    requires forall k :: 0 <= k < |subs| ==> |subs[k].0| > 0 && c !in subs[k].0 && c !in subs[k].1
    ensures Occurrences(ReplaceAll(t, subs), c) == Occurrences(t, c)
    decreases |subs|
  {
    if |subs| > 0 {
      ReplaceKeepsCount(t, subs[0].0, subs[0].1, c);
      ReplaceAllKeepsCount(Replace(t, subs[0].0, subs[0].1), subs[1..], c);
    }
  }

  /** The row template holds one cell per errata column, separated by `&`,
      and exactly one line break, at its end. */
  lemma RowTemplateShape(cols: seq<string>)
    requires forall k :: 0 <= k < |cols| ==> '&' !in cols[k] && '\n' !in cols[k]
    ensures Occurrences(RowTemplate(cols), '&') == if |cols| == 0 then 0 else |cols| - 1
    ensures Occurrences(RowTemplate(cols), '\n') == 1
  {
    var pieces := Spaced(cols);
    forall k | 0 <= k < |pieces|
      ensures Occurrences(pieces[k], '&') == 0 && Occurrences(pieces[k], '\n') == 0
    {
      OccurrencesNone(pieces[k], '&');
      OccurrencesNone(pieces[k], '\n');
    }
    JoinStrSeparators(pieces, " & ", '&');
    JoinStrNone(pieces, " & ", '\n');
    OccurrencesNone("\\\\\n", '&');
    assert Occurrences("\\\\\n", '\n') == 1;
    OccurrencesAppend(JoinStr(pieces, " & "), "\\\\\n", '&');
    OccurrencesAppend(JoinStr(pieces, " & "), "\\\\\n", '\n');
  }

  lemma {:induction false} JoinStrNone(pieces: seq<string>, sep: string, c: char)
    requires forall k :: 0 <= k < |pieces| ==> Occurrences(pieces[k], c) == 0
    requires c !in sep
    ensures Occurrences(JoinStr(pieces, sep), c) == 0
    decreases |pieces|
  {
    if |pieces| > 1 {
      var init := pieces[..|pieces| - 1];
      JoinStrNone(init, sep, c);
      OccurrencesNone(sep, c);
      OccurrencesAppend(JoinStr(init, sep), sep, c);
      OccurrencesAppend(JoinStr(init, sep) + sep, pieces[|pieces| - 1], c);
    }
  }

  /** No errata value holds a line break. */
  predicate NoBreaks(e: Errata) {
    && (forall k :: 0 <= k < |e.names| ==> '\n' !in e.names[k])
    && (forall k :: 0 <= k < |e.dates| ==> '\n' !in e.dates[k])
    && (forall k :: 0 <= k < |e.descs| ==> '\n' !in e.descs[k])
    && (forall k :: 0 <= k < |e.types| ==> '\n' !in e.types[k])
  }

  /** A filled-in row of values without line breaks is one line. */
  lemma RowTextOneLine(cols: seq<string>, e: Errata, c: Columns, i: nat)
    requires forall k :: 0 <= k < |cols| ==> '&' !in cols[k] && '\n' !in cols[k]
    requires NoBreaks(e)
    ensures Occurrences(RowText(cols, e, c, i), '\n') == 1
  {
    var subs := Substitutions(e, c, i);
    assert forall k :: 0 <= k < |subs| ==> '\n' !in subs[k].1;
    RowTemplateShape(cols);
    ReplaceAllKeepsCount(RowTemplate(cols), subs, '\n');
  }

  /** The intended rows are one line per erratum name. */
  lemma {:induction false} IntendedRowsLines(cols: seq<string>, e: Errata, c: Columns, n: nat)
    requires forall k :: 0 <= k < |cols| ==> '&' !in cols[k] && '\n' !in cols[k]
    requires NoBreaks(e)
    ensures Occurrences(IntendedRows(cols, e, c, n), '\n') == n
    decreases n
  {
    if n > 0 {
      IntendedRowsLines(cols, e, c, n - 1);
      RowTextOneLine(cols, e, c, n - 1);
      OccurrencesAppend(IntendedRows(cols, e, c, n - 1), RowText(cols, e, c, n - 1), '\n');
    }
  }

  /** The reboot cell reads `yes` for `1`, `no` for any other value, and
      `unknown ` when the column is not in the report; so do the date, the
      description and the type when theirs is not. */
  lemma RebootCell(e: Errata, c: Columns, i: nat)
    ensures var cell := Substitutions(e, c, i)[3].1;
      && (cell == "yes" <==> Lookup(c, "errata_reboot").Some? && Get(e.reboots, i) == "1")
      && (cell == "unknown " <==> Lookup(c, "errata_reboot").None?)
      && (cell == "yes" || cell == "no" || cell == "unknown ")
    ensures Lookup(c, "errata_date").None? ==> Substitutions(e, c, i)[1].1 == "unknown "
    ensures Lookup(c, "errata_desc").None? ==> Substitutions(e, c, i)[2].1 == "unknown "
    ensures Lookup(c, "errata_type").None? ==> Substitutions(e, c, i)[4].1 == "unknown "
    ensures Substitutions(e, c, i)[0].1 == Get(e.names, i)
  {
  }
}
