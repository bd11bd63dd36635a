# satprep: snapshot delta and maintenance host selection, modelled in Dafny

satprep compares two snapshot reports of a Satellite/Spacewalk installation.
A report is a `;`-separated CSV text with one row per host and erratum.

- `satprep_diff.py` builds the *delta report*: the report lines that only the first snapshot holds. Unless host reports are switched off, it then builds a LaTeX maintenance checklist per host from the delta. The checklist has check boxes for cluster, monitoring downtime, backup, antivirus, virtualisation snapshot and reboot, plus a table of the installed errata.
- `satprep_prepare_maintenance.py`'s `readFile` picks the hosts that need a monitoring downtime and the virtual machines that need a snapshot.

The model follows the scripts step by step, as written. The two defects listed under "## Findings" stay in the end-to-end model; their corrected versions are modelled beside it:

- **Column registry.** The header is split into column names. The columns the script looks up are resolved to their first position, or to "absent" (the script's sentinel 666).
- **Header gate.** The report pair is rejected when the two header lines differ.
- **Environment checks.** These cover the pdflatex binary, the template and a writable output directory.
- **Report order.** The report with the earlier change time counts as the first snapshot. That choice fixes the report date and the name of the verification log (`*_satprep.vlog`).
- **Delta.** It is the sorted multiset difference of the line lists: the first argument's lines minus the second's. It is computed by a merge walk over the sorted lists, and whitespace-only lines are dropped.
- **Host list.** The delta is read back as CSV rows and the host list is collected.
- **Per-host scan.** Each host scans every row. Check-box variables are modelled as `Option` values that persist across rows and across hosts, because they are locals of `main`. The reboot box and the errata lists start afresh per host.
- **Errata table.** It is assembled by `str.replace` of placeholder column names, then `_` is escaped.

Files are modelled as texts, and file times, access checks and formatted dates as given values. Python exceptions are modelled as `Err` results:

- `IndexError` on a short row;
- `UnboundLocalError` on a check-box variable no row assigned;
- `IOError` when an unreadable log is opened.

The modules are:

- `Wrappers`: the Option and Result types.
- `PyText`: Python 2 string operations (`split`, `replace`, `strip`, `splitlines`, `readline(s)`, `index`).
- `PySort`: byte-string order, `sort`, `sorted(set(...))` and `remove`.
- `Schema`: the column registry.
- `DeltaReport`: the delta and its clean-up.
- `DiffRun`: the checks, the dates, the log and the delta CSV.
- `Checklist`: one row's effect.
- `ErrataTable`: the LaTeX table.
- `HostReport`: CSV rows, hosts and the per-host scan.
- `ReportPages`: the page values per host.
- `SatprepDiff`: `main` end to end.
- `HostSelector`: `readFile`.

Where the specification and the code disagree, the model follows the code:

- The delta is always the first argument's lines missing from the second. In both change-time branches the `ndiff` call compares `f1` with `f2`, so the direction does not depend on which file is older.
- The `MONOK` lookup uses the host name, not the custom monitoring name.

## Model

| member | source | states |
|---|---|---|
| PyText.Split | satprep_diff.py:125 | `split(";")` gives at least one piece; no piece holds the separator; joining the pieces with it gives the text back |
| PyText.SplitJoinWith | satprep_diff.py:125 | splitting undoes joining when no piece holds the separator |
| PyText.ReplaceDeletes | satprep_diff.py:125 | deleting a character removes every occurrence of it and adds no other character |
| PyText.ReplaceSplit | satprep_diff.py:421-450 | replacing in a concatenation whose seam no occurrence straddles is replacing in both parts |
| PyText.Strip | satprep_diff.py:203 | `strip()` removes exactly the leading and trailing whitespace; the result starts and ends with a non-space |
| PyText.SplitLines | satprep_diff.py:203 | `splitlines(True)` cuts the text into non-empty lines whose concatenation is the text |
| PyText.SplitLinesOfConcat | satprep_diff.py:203 | lines that are well formed are cut back into the same list |
| PyText.NonBlankLinesWell | satprep_diff.py:203 | dropping blank lines keeps a list of lines well formed |
| PyText.ReadLine | satprep_diff.py:118-120 | `readline()` is the prefix up to and including the first line feed, or the whole text |
| PyText.ReadLines | satprep_diff.py:156-157 | `readlines()` cuts after every line feed; the pieces give the file back and the first is `readline()` |
| PyText.BeforeFirst | satprep_diff.py:338 | `s[:s.find("@")]` is the longest prefix without `@`, or the whole string |
| PyText.Index | satprep_diff.py:130 | `index` is the first position holding the value; it is absent iff the value does not occur |
| PySort.Sort | satprep_diff.py:158-159 | `sort()` gives a sorted permutation |
| PySort.SortedUnique | satprep_diff.py:158-159 | two sorted lists holding the same strings are equal, so the sort result depends only on the multiset |
| PySort.SortIgnoresOrder | satprep_diff.py:158-159 | lists that are permutations of each other sort to the same list |
| PySort.LexLeTotal | satprep_diff.py:158-159 | Python's string order is total (together with reflexivity, antisymmetry and transitivity) |
| PySort.SortedSet | satprep_prepare_maintenance.py:135-136 | `sorted(set(xs))` is strictly sorted and holds exactly the strings of `xs` |
| PySort.RemoveFirst | satprep_prepare_maintenance.py:137-138 | `remove(x)` shortens the list by one and removes one copy of `x` |
| Schema.Headers | satprep_diff.py:125 | header names hold no separator or line break; joined with `;` they give the header without CR/LF |
| Schema.Resolve | satprep_diff.py:127-132 | every registry name maps to its first header position, or to absent when missing; nothing else is in the map; resolution never fails |
| DeltaReport.Minus | satprep_diff.py:160 | the lines left over from the first list, with multiplicity: multiset difference |
| DeltaReport.Delta | satprep_diff.py:156-160 | the delta is sorted and is the multiset difference of the first report's lines over the second's |
| DeltaReport.DeltaLines | satprep_diff.py:158-160 | the merge walk over both sorted lists keeping the `- ` lines computes exactly `Delta` |
| DeltaReport.DeltaMembership | satprep_diff.py:160 | a line is in the delta iff the first report holds more copies of it than the second |
| DeltaReport.DeltaOfCovered | satprep_diff.py:160 | a report compared with one that covers it, in particular itself, gives an empty delta |
| DeltaReport.DeltaIgnoresOrder | satprep_diff.py:156-160 | permuting either report's lines leaves the delta unchanged |
| DeltaReport.Cleanup | satprep_diff.py:203 | the clean-up never lengthens the text |
| DeltaReport.CleanupLines | satprep_diff.py:203 | the cleaned text's lines are exactly the non-blank lines of the stripped text; each holds a non-space |
| DeltaReport.CleanupIdempotent | satprep_diff.py:203 | cleaning twice is cleaning once |
| DiffRun.ChooseLog | satprep_diff.py:163-169 | an accessible given log is kept; else the accessible log named after the first snapshot; else none |
| DiffRun.DateAndLog | satprep_diff.py:153-199 | report date is the newer report's; the log follows `ChooseLog` for the first snapshot; with the first argument older and no log an error (IOError), in the other branch an invalid log |
| DiffRun.Run | satprep_diff.py:117-213 | each check fails with its own error in source order; on success the CSV is the header plus the cleaned delta of args[0] over args[1], whatever the change times, with the columns resolved from the header |
| DiffRun.HeaderNotInDelta | satprep_diff.py:118-120 | a header both reports share drops out of the delta unless repeated in the first report |
| Checklist.Field | satprep_diff.py:303 | a guarded column read: absent when unresolved, the cell when resolved inside the row, IndexError otherwise |
| Checklist.Note | satprep_diff.py:349-351 | a note is the cell when longer than one character, else empty |
| Checklist.OwnerCell | satprep_diff.py:312-316 | corrected owner cell: `%%nl` becomes the `\newline` command; no line feed is introduced |
| Checklist.OwnerCellAsWrittenLosesBreak | satprep_diff.py:314 | as written, `%%nl` becomes a line feed plus `ewline`, with no backslash |
| Checklist.OwnerCellAsWritten | satprep_diff.py:314 | as written, an owner cell without `%%nl` is kept as it is |
| Checklist.Identity | satprep_diff.py:303-316 | ip, title and owner set, everything else unchanged; title is the host plus `(ip)` iff ip is resolved; the owner is the cell with `%%nl` replaced as written (`OwnerCellAsWritten`), or empty when the column is missing |
| Checklist.Cluster | satprep_diff.py:319-328 | exactly one of cluster and standalone is checked, cluster iff the column says `1`; the hint is empty exactly then |
| Checklist.Monitoring | satprep_diff.py:331-351 | monitoring `0`: only `this_monSchedNo` set and the downtime boxes kept; otherwise "yes" iff `MONOK;host` is in the log, "no" iff it is not and the log is valid |
| Checklist.Missing | satprep_diff.py:354-375 | the backup/antivirus box is checked iff the column says `0`; only then can its note be non-empty |
| Checklist.SnapshotName | satprep_diff.py:384-387 | the VM name up to `@`, or the host when that column is missing or empty |
| Checklist.Virtualisation | satprep_diff.py:378-401 | a VM checks the hardware box; its snapshot boxes follow `SNAPOK;name`, and "no" is left untouched for an invalid log; a physical host checks "no snapshot" and leaves "yes" untouched |
| Checklist.Present | satprep_diff.py:409-418 | a resolved non-empty value contributes one entry, otherwise none |
| Checklist.Patches | satprep_diff.py:404-418 | "no reboot" becomes checked on a resolved value other than `reboot_suggested` and is otherwise kept; each errata list grows by the row's non-empty value |
| Checklist.FitsReadable | satprep_diff.py:298-418 | a row with every resolved column inside it raises no IndexError |
| Checklist.ApplyRow | satprep_diff.py:303-418 | a row succeeds iff all the columns it reads exist; it assigns every always-assigned local and keeps the downtime/snapshot boxes where the source does not assign them |
| ErrataTable.ErrataColumns | satprep_diff.py:267 | the registry names containing `errata`, with the multiplicities of the given key order |
| ErrataTable.ErrataColumnsIgnoreOrder | satprep_diff.py:267 | the errata columns and their count do not depend on the dictionary's key order |
| ErrataTable.ErrataColumnsOfDiff | satprep_diff.py:267 | all five errata columns of the registry are in the table |
| ErrataTable.AppendCells | satprep_diff.py:280-288 | the counting loop gives the cells joined by the separator, with none after the last |
| ErrataTable.JoinStrSeparators | satprep_diff.py:283-285 | n cells joined give n-1 separators |
| ErrataTable.ColumnDescriptor | satprep_diff.py:271-276 | the descriptor loop gives one spec per column and a closing ` \| ` |
| ErrataTable.DescriptorShape | satprep_diff.py:271-276 | four characters per column; `X` exactly for description and name, else `l` |
| ErrataTable.HeaderRow | satprep_diff.py:280-289 | bold column names joined by `& `, closed by `\\`, relabelled |
| ErrataTable.EscapeRoundTrip | satprep_diff.py:452 | escaping `_` loses nothing: unescaping gives the text back |
| ErrataTable.EscapedUnderscores | satprep_diff.py:452 | after escaping every `_` follows a backslash |
| ErrataTable.RowTemplate | satprep_diff.py:422-430 | a row template ends in a line break |
| ErrataTable.RowTemplateShape | satprep_diff.py:424-430 | one cell per errata column separated by `&`, and exactly one line break |
| ErrataTable.Substitutions | satprep_diff.py:431-450 | five replacements, each with a non-empty placeholder free of line breaks |
| ErrataTable.RebootCell | satprep_diff.py:440-450 | reboot renders `yes` for `1`, `no` otherwise, `unknown ` when unresolved; so do date, description and type when unresolved |
| ErrataTable.AddRow | satprep_diff.py:423-450 | one row: template appended, five replacements on the whole text; IndexError iff a resolved list lacks entry i |
| ErrataTable.DataRows | satprep_diff.py:421-450 | the data-row loop gives `Rendered` for all errata names, or IndexError iff some resolved errata list is shorter than the name list |
| ErrataTable.Rendered | satprep_diff.py:421-450 | after at least one erratum the text ends in a line break |
| ErrataTable.RowText | satprep_diff.py:431-450 | a filled-in row ends in a line break |
| ErrataTable.RenderedStep | satprep_diff.py:430-450 | replacing over the accumulated text leaves the earlier clean rows untouched |
| ErrataTable.RenderedIsIntended | satprep_diff.py:421-450 | the rows are each erratum's row filled in on its own, provided no value holds a placeholder |
| ErrataTable.RowTextOneLine | satprep_diff.py:423-450 | a row of values without line breaks is one line |
| ErrataTable.IntendedRowsLines | satprep_diff.py:422 | the data rows form one line per collected errata name |
| HostReport.Chomp | satprep_diff.py:233 | a line without its trailing break |
| HostReport.CsvRow | satprep_diff.py:233-235 | a blank line gives an empty record; otherwise the fields hold no `;` and rejoin to the line |
| HostReport.CsvRows | satprep_diff.py:231-235 | one record per line of the delta report |
| HostReport.RowsOfAt | satprep_diff.py:231-235 | record k is line k split |
| HostReport.Hosts | satprep_diff.py:238-241 | the host list is distinct, never holds `hostname`, and holds exactly the first fields of the rows |
| HostReport.HostsFirstSeen | satprep_diff.py:238-241 | hosts come in the order of their first rows |
| HostReport.CollectHosts | satprep_diff.py:238-241 | the loop gives `Hosts`, or IndexError on an empty record |
| HostReport.ScanHost | satprep_diff.py:298-418 | the row loop for one host computes `Scan` |
| HostReport.ScanReadable | satprep_diff.py:298-418 | a host's scan fails iff one of its rows lacks a column it reads, and then with IndexError |
| HostReport.ScanErrata | satprep_diff.py:293-418 | each errata list is the host's non-empty values of that column in row order |
| HostReport.ScanGathers | satprep_diff.py:409-418 | per list: the scan appends exactly the host's gathered values |
| HostReport.ApplyRowList | satprep_diff.py:409-418 | per list: one row appends its present value |
| HostReport.ScanNoReboot | satprep_diff.py:253-406 | "no reboot" is checked iff it was at the start or some row of the host has a resolved reboot value other than `reboot_suggested` (sticky) |
| HostReport.ScanStateIgnoresLocals | satprep_diff.py:253-297 | the reboot box and errata lists do not depend on earlier hosts' locals |
| HostReport.ScanAssigns | satprep_diff.py:300-418 | after a host with a row, every always-assigned local is bound |
| HostReport.ScanLastRowDecides | satprep_diff.py:319-328 | the host's last row decides the cluster box (last write wins) |
| HostReport.ScanKeepsMonitoring | satprep_diff.py:331-333 | a host whose rows all say monitoring `0` leaves the downtime boxes as before |
| HostReport.PrefixErr | satprep_diff.py:298-418 | an error in earlier rows ends the scan with that error |
| ReportPages.FileName | satprep_diff.py:459 | the file name is the host without blanks plus `.tex` |
| ReportPages.MakePage | satprep_diff.py:462 | substitution succeeds iff every local it reads is bound, else UnboundLocal; each template value is the local of that name; the title is the host |
| ReportPages.BoundAfterRows | satprep_diff.py:331-462 | after a row only the downtime and snapshot boxes can still be unbound |
| ReportPages.HostPage | satprep_diff.py:249-462 | a page carries the host, its file name and the date, and passes on the scan's locals |
| ReportPages.BuildPage | satprep_diff.py:257-462 | the per-host body computes `HostPage` |
| ReportPages.HostPages | satprep_diff.py:249-462 | one page per host, in host order, each for its host and dated |
| ReportPages.HostPagesErr | satprep_diff.py:249-462 | an error at a host ends the run with that error |
| ReportPages.ReadRows | satprep_diff.py:231-235 | reading the CSV gives `CsvRows` |
| ReportPages.WriteReports | satprep_diff.py:230-462 | the report part computes `Pages` |
| ReportPages.PagesPerHost | satprep_diff.py:238-249 | pages correspond one to one to the hosts in first-seen order |
| ReportPages.PageContents | satprep_diff.py:253-456 | the table lists the host's own non-empty errata in row order; "no reboot" is checked iff one of its rows allows it |
| ReportPages.PageTableIgnoresLocals | satprep_diff.py:253-456 | table and reboot box do not depend on earlier hosts |
| ReportPages.UnmonitoredPageFails | satprep_diff.py:331-462 | a host whose rows all say monitoring `0` cannot be substituted while no earlier host has assigned the downtime boxes |
| ReportPages.FirstPageFails | satprep_diff.py:249-462 | a failing first page fails the host loop |
| ReportPages.FirstHostUnmonitored | satprep_diff.py:331-462 | when every row of the first host says monitoring `0`, `this_monYes` is unbound and no page is made |
| SatprepDiff.Diff | satprep_diff.py:117-462 | incompatible headers stop the run; on success the CSV is the delta and, unless switched off, the pages are `Pages` of it; a crash only happens with host reports on |
| HostSelector.NameOf | satprep_prepare_maintenance.py:120-123 | the custom name when resolved and non-empty, else the unguarded `hostname` cell (IndexError when out of range) |
| HostSelector.Wanted | satprep_prepare_maintenance.py:126-132 | a name is added iff both flags are resolved and `1`, reading left to right |
| HostSelector.RowNames | satprep_prepare_maintenance.py:118-132 | no-intelligence mode adds exactly one name per list; filtered mode adds what `Wanted` gives |
| HostSelector.Finish | satprep_prepare_maintenance.py:134-138 | strictly sorted, without `hostname`, holding exactly the other gathered names |
| HostSelector.RemoveFirstKeepsOrder | satprep_prepare_maintenance.py:137-138 | `remove` on a strictly sorted list keeps it strictly sorted and removes just that name |
| HostSelector.RemoveFirstMembers | satprep_prepare_maintenance.py:137-138 | after `remove` on a duplicate-free list, the name no longer occurs |
| HostSelector.SelectAsWritten | satprep_prepare_maintenance.py:114-138 | both lists strictly sorted and without `hostname` (header row included) |
| HostSelector.HeaderRowLeaks | satprep_prepare_maintenance.py:114-138 | as written, with a `system_monitoring_name` column and the flags ignored, that column name lands on the downtime list |
| HostSelector.Select | satprep_prepare_maintenance.py:114-138 | corrected selection over the data rows: strictly sorted, without `hostname` |
| HostSelector.ReadFile | satprep_prepare_maintenance.py:95-141 | columns resolved from the header; the lists are `SelectAsWritten`, gathered over every CSV row, the header row included |
| HostSelector.GatherRows | satprep_prepare_maintenance.py:116-132 | the row loop appends each row's names in row order |
| HostSelector.GatherOk | satprep_prepare_maintenance.py:116-132 | gathering fails iff some row cannot be read |
| HostSelector.GatherMembers | satprep_prepare_maintenance.py:116-132 | a name is gathered iff some row contributes it |
| HostSelector.GatherNoIntelligence | satprep_prepare_maintenance.py:118-123 | without the flags each row contributes exactly one name per list, in row order |
| HostSelector.FilteredMembers | satprep_prepare_maintenance.py:126-132 | with the flags, downtime iff some row has monitoring and reboot `1`; snapshot iff some row has virt and snapshot `1` |
| HostSelector.FilteredRow | satprep_prepare_maintenance.py:126-132 | per-row form of the above |
| HostSelector.SelectAsWrittenShape | satprep_prepare_maintenance.py:116-138 | as written, the final lists are strictly sorted, lack `hostname` and hold exactly the names gathered over all rows, the header row included |
| HostSelector.SelectAsWrittenNoIntelligence | satprep_prepare_maintenance.py:116-138 | as written without the flags, downtime list = the names of all rows, header row included, `hostname` aside; likewise snapshot |
| HostSelector.HeaderRowFails | satprep_prepare_maintenance.py:116-121 | as written without the flags, a header lacking both `hostname` and `system_monitoring_name` fails with IndexError on the header row itself |
| HostSelector.SelectShape | satprep_prepare_maintenance.py:135-138 | the final lists are strictly sorted, lack `hostname` and hold exactly the gathered names |
| HostSelector.SelectNoIntelligence | satprep_prepare_maintenance.py:118-138 | downtime list = the data rows' names, `hostname` aside; likewise snapshot |
| HostSelector.NoIntelligenceMembers | satprep_prepare_maintenance.py:118-123 | without the flags a name is gathered iff some row is named so |
| HostSelector.SelectHoldsNoColumnName | satprep_prepare_maintenance.py:118-138 | with the header skipped, the column name appears only if a data row names it |
| HostSelector.FilteredHeaderHarmless | satprep_prepare_maintenance.py:124-132 | with the flags in force, skipping the header changes nothing |
| HostSelector.HeaderIdle | satprep_prepare_maintenance.py:126-132 | the header row adds nothing in filtered mode |
| HostSelector.IdleRow | satprep_prepare_maintenance.py:126-132 | a row with neither flag `1` adds nothing |
| HostSelector.GatherSkipsIdle | satprep_prepare_maintenance.py:116-132 | a row adding nothing can be dropped |
| HostSelector.HeaderIsFirstRow | satprep_prepare_maintenance.py:100-116 | the CSV reader's first row is the header's column list |
| HostSelector.HeaderRowValue | satprep_prepare_maintenance.py:103-116 | in the header row every resolved column holds its own name |
| HostSelector.FirstRowNamed | satprep_prepare_maintenance.py:120-138 | a first row's custom name other than `hostname` survives to the final list |

## Left out

- Option parsing, logging, `exit` codes and the debug output. `--no-host-reports` (which exits with status 1) is a successful run without pages.
- Opening, reading and writing files: reports, template, CSV output, `.tex` files. Files are texts; the CSV written and read back is the same text. The `os.chdir("/tmp")` before the read-back is not part of this model.
- `os.access`, `os.path.isfile`, `getctime`/`getmtime` and `strftime`: these are given booleans, times and date strings. `W_OK` access to a log is taken as "readable".
- `csv.reader` quoting (`quotechar`): a record is its line split at `;`, without quote handling.
- `difflib.ndiff` heuristics: only its `- ` lines of two sorted lists are modelled, as the multiset difference.
- Python 2 dictionary order of `repcols`: the order of the errata columns is the parameter `order`.
- `LaTeXTemplate.substitute`, pdflatex, `os.system`, `os.remove`: pages are the value records handed to the template. Orientation, footer and logo come from options and are not modelled.
- `this_host` (title with address) and `this_monSchedNo` are computed but never used by the template. They are kept as locals only.
- Files written for earlier hosts before an exception: the model returns only the error.
- Characters stand for bytes; there is no encoding.
- `setDowntimes`, `createSnapshots` and the remote calls: they are not part of this model.
- `readFile` reading the header from `args[1]` and the rows from its argument: both are the same text here. The global lists are taken as empty at entry.
- DiffRun.DateAndLog: when the first argument is older and no log is accessible, the script opens `""`. This is kept as the error `LogUnreadable`, not corrected.
- ErrataTable.RenderedIsIntended: proved only when no filled-in value holds a placeholder name. Otherwise the script's later replacements rewrite earlier rows as well, which the model reproduces in `Rendered` but does not characterise.
- ErrataTable.IntendedRowsLines: counts line breaks under the hypothesis that no errata value holds one.

## Findings

| source | as written | input that shows it | evidently intended | confidence | as-written member | corrected member |
|---|---|---|---|---|---|---|
| satprep_diff.py:314 | `'\newline'` is a Python string starting with a line feed | owner cell `%%nl` | the LaTeX command `\newline` | not executed | Checklist.OwnerCellAsWrittenLosesBreak | Checklist.OwnerCell |
| satprep_prepare_maintenance.py:114-138 | the header row is a CSV row too; only `hostname` is removed afterwards | header `hostname;system_monitoring_name` with `--no-intelligence` | the header row contributes nothing | not executed | HostSelector.HeaderRowLeaks | HostSelector.Select |
