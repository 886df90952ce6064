# Tech audit processor — a verified model of its core

`TechAuditProcessor` turns the CSV exports of a site crawler into a technical
SEO audit workbook. This project models, in Dafny, the three pieces of logic
that decide what ends up in that workbook:

- **The rule catalog and the metric engine** (`item_mappings`,
  `calculate_metric`). An audit item ID selects an export file and a
  calculation. A calculation counts the rows of a table that satisfy a
  boolean mask. The count degrades to 0 when the file is not loaded, a
  column is missing, the calculation has no implementation, or evaluating
  the mask raises.
- **The report updater** (`update_audit_values`). For every row of the
  "Full Audit" sheet whose item ID is in the catalog, it writes the computed
  value into column 10. It then derives a verdict for column 8 (Pass, Fail,
  Opportunity), and sometimes a priority for column 11, from the expected
  value in column 9.
- **The sheet merge** (`import_existing_sheets`) and the output-file naming
  of `process_audit`. The merge picks the candidate workbooks of the data
  folder and copies each of their sheets under a name not yet in use. It
  counts the workbooks that import without an exception.

Modules, one per file:

| file | module | what it holds |
|---|---|---|
| text.dfy | `Text` | The Python string operations the audit uses: `lower`, `strip`, `isdigit`, `str(int)`/`int(str)`, `in`, `str.contains` with a regular expression, and `urlparse(...).netloc`. |
| table.dfy | `Table` | The tables loaded from the crawl exports. Cells are `Null` (NaN), text or a number. The `Test` mask language carries pandas' treatment of missing values, `Count` is `len(df[mask])`, and `CountOrZero` is that count inside the engine's `try`. |
| catalog.dfy | `Catalog` | `item_mappings` as a map from item ID to file and calculation. |
| metrics.dfy | `Metrics` | `calculate_metric` and the properties of its counts. |
| workbook.dfy | `Workbook` | The output workbook as classes: worksheets whose cells the program updates in place, and a workbook that grows by `create_sheet`. |
| report.dfy | `Report` | The verdict rules and `update_audit_values`: a loop over the rule table, proved against a function of the old sheet. |
| merge.dfy | `Merge` | The candidate filter, the sheet-name dedupe loop, and the import loops over files and sheets, each proved against a function of the inputs. |
| naming.dfy | `Naming` | The client-name sanitiser and the output file name. |

The data store (`screaming_frog_data`), the folder listing, the workbooks
found in the folder, and the timestamp are parameters.

## Model

| member | source | states |
|---|---|---|
| Catalog.ItemMappings | tech_audit.py:27-81 | The 34 audit item IDs with their export file and calculation. It has no contract of its own: `Report.LookupFindsEveryKey` states that every key finds its own entry, and `Report.LookupFiftyOne` gives one entry concretely. |
| Metrics.Mask | tech_audit.py:356-554 | The row mask of each per-row calculation. It has no contract of its own: `Metrics.Metric` and the family lemmas below (`MissingAndDuplicates`, `LongAndShort`, `ClientAndServerErrors`, `NotFoundAmongClientErrors`, `CrossDomainIsCanonicalised`, `MissingCanonicalCountsNullHtml`) state what the masks count. |
| Metrics.Metric | tech_audit.py:343-561 | Degrades to 0 in four cases: the file is not loaded; a required column is missing; the calculation is unimplemented or a stub; the mask raises. Otherwise a per-row count is at most the number of rows of the file. Redirect chains and loops count the rows of their own export, provided the requested file is loaded. |
| Metrics.MissingAndDuplicates | tech_audit.py:426-490 | For titles, meta descriptions and H1, missing rows plus duplicate rows are at most the rows of the file. |
| Metrics.DuplicatesNeverOne | tech_audit.py:432-490 | A duplicate count is never exactly 1. |
| Metrics.DuplicatesCountEveryCopy | tech_audit.py:432-490 | Every copy of a repeated non-blank value is counted (`keep=False`), not only the later copies. |
| Metrics.LongAndShort | tech_audit.py:440-476 | Long (> 60 or > 160) and short (0 < length < 30 or < 120) counts together are at most the rows of the file. |
| Metrics.ClientAndServerErrors | tech_audit.py:518-528 | 4xx rows (400 ≤ s < 500) plus 5xx rows (s ≥ 500) are at most the rows of the file. |
| Metrics.NotFoundAmongClientErrors | tech_audit.py:518-533 | In a status column that is all numbers or all text (besides missing values), as `read_csv(low_memory=False)` types every column, the 404 count is at most the 4xx count. For an all-text column, `Metrics.TextStatusCountsNothing` shows that both counts are 0. |
| Metrics.TextStatusCountsNothing | tech_audit.py:518-533 | In a status column without numbers, the 404 count and the 4xx count are both 0. |
| Metrics.MixedStatusColumn | tech_audit.py:518-533 | A concrete table, one the loader does not produce, where the inclusion fails: a column mixing a number and a text status makes the 4xx mask raise, so the 4xx count is 0 while the 404 count is 1. |
| Metrics.CrossDomainIsCanonicalised | tech_audit.py:377-403 | The canonical-on-another-domain count is at most the canonicalised-pages count. |
| Metrics.MissingCanonicalCountsNullHtml | tech_audit.py:367-375 | With a canonical column, the count is exactly the rows whose canonical is null and, when a Content Type column exists, whose content type contains `text/html`. It is therefore at most the null-canonical rows and at most the HTML rows. |
| Table.CountOrZero | tech_audit.py:559-561 | `len(df[mask])` inside the `try`, never more than the plain count. Its case split is its definition: `Metrics.Metric` states that a raising mask gives 0. |
| Table.RepeatedKeepsAllCopies | tech_audit.py:435-436 | `duplicated(keep=False)` over the non-blank rows selects every copy of a value that occurs at least twice. |
| Table.RepeatedNeverOne | tech_audit.py:435-436 | Hence it never selects exactly one row. |
| Table.Domain | tech_audit.py:388-392 | The domain of a cell is the network location of `str(x)`. For text, that is the network location of the text. For a missing value (`nan`) and for a number, it is `""`, because their text holds no `/`. |
| Text.Authority | tech_audit.py:388-392 | The network location never contains `/`, `?` or `#`, and it holds `[` exactly when it holds `]`: where `urlparse` raises on an unbalanced bracket, `get_domain` gives `""`. |
| Text.NoSlashNoAuthority | tech_audit.py:388-392 | Text without a `/` has network location `""`. |
| Text.AuthorityOfUrl | tech_audit.py:388-392 | `scheme://host` followed by nothing or by a path, query or fragment has network location `host`. |
| Text.SearchLiteral | tech_audit.py:371 | For a pattern without `.`, the case-sensitive regex search of `str.contains` (the `text/html` test) is a substring test. |
| Text.SearchCaseless | tech_audit.py:407-423 | For a pattern without `.`, the search with `case=False` finds the pattern exactly when the lower-cased text contains the lower-cased pattern. |
| Text.ParseNatToString | tech_audit.py:328-330 | `int(str(n)) == n` for every natural number. |
| Text.IntToStringZero | tech_audit.py:320 | `str(i) == "0"` exactly when `i == 0`. |
| Report.LookupFindsEveryKey | tech_audit.py:305-309 | Every catalog key, typed as text, finds its own catalog entry. |
| Report.LookupNumber | tech_audit.py:305-309 | An ID typed as a positive number is looked up by its decimal text. |
| Report.LookupNegative | tech_audit.py:305-309 | An ID typed as a negative number is never found. |
| Report.LookupSkipsBlank | tech_audit.py:305-309 | A blank ID cell (`None`), an empty string and the number 0 are falsy and are never looked up. |
| Report.LookupFiftyOne | tech_audit.py:305-309 | Item 51 typed as a number finds the missing-canonical calculation over `internal_all.csv`. |
| Report.Judge | tech_audit.py:319-338 | The verdict an expected value gives a computed value. It has no contract of its own: `Report.NumberVerdict`, `Report.NegativeVerdict`, `Report.CeilingVerdict`, `Report.ReviewVerdict` and `Report.NoVerdictOtherwise` state it case by case. |
| Report.NumberVerdict | tech_audit.py:319-335 | A non-negative number N as expected value gives Pass exactly when the value is at most N, and Fail otherwise. |
| Report.NegativeVerdict | tech_audit.py:319-339 | A negative number as expected value gives no verdict, because its text is neither `0` nor digits. |
| Report.CeilingVerdict | tech_audit.py:319-335 | An expected value stating a ceiling N (`"0"` up to whitespace, a digit string, or a non-negative number) gives Pass exactly when the value is at most N. |
| Report.ReviewVerdict | tech_audit.py:336-338 | Text containing "manual" in any case states no ceiling and gives Opportunity. |
| Report.NoVerdictOtherwise | tech_audit.py:318-339 | No expected value, or any other one, gives no verdict. |
| Report.RowUpdateWrites | tech_audit.py:313-338 | A row update writes the value in column 10 and the verdict in column 8. It writes "N/A - Pass" in column 11 on Pass, and keeps the old column 11 otherwise. |
| Report.RowUpdateFrame | tech_audit.py:313-338 | A row update changes only its own row, and in it only columns 8, 10 and 11. |
| Report.ApplyRowLocal | tech_audit.py:305-338 | The update of a row depends only on that row's cells. |
| Report.AuditRowsAt | tech_audit.py:304-338 | After the loop, each row 2..max_row holds what its own update made of it. |
| Report.AuditFrame | tech_audit.py:304-307 | Row 1, rows past the last row, rows whose ID is blank or not in the catalog, and columns other than 8, 10 and 11 are unchanged. |
| Report.AuditedRow | tech_audit.py:304-338 | A row whose ID is in the catalog gets the computed value in column 10. Its verdict and priority follow the expected-value rules. |
| Report.FillRow | tech_audit.py:313-338 | The worksheet's cells become the row update of the old cells; `max_row` is unchanged. |
| Report.FillRuleTable | tech_audit.py:304-338 | The loop leaves exactly the cells the rule-table function gives for rows 2..max_row of the old sheet. |
| Report.UpdateAuditValues | tech_audit.py:295-341 | Fails, changing nothing, when there is no "Full Audit" sheet. Otherwise only that sheet changes, to the rule-table function of its old cells. |
| Workbook.Workbook.CreateSheet | tech_audit.py:608-609 | The new name joins the end of the tab order and the set of names. The new sheet holds its cells, and every other sheet keeps its contents. |
| Merge.Candidates | tech_audit.py:572-576 | A listing entry is a candidate exactly when its name meets the filter, and there are never more candidates than entries. |
| Merge.CandidatesAppend | tech_audit.py:572-576 | Filtering a listing in two parts gives the candidates of the first part followed by those of the second: candidates keep listing order. |
| Merge.FindCandidates | tech_audit.py:571-576 | The loop collects exactly the candidates, in order. |
| Merge.SuffixedDistinct | tech_audit.py:604 | Different counters give different suffixed names. |
| Merge.FreeName | tech_audit.py:600-605 | The chosen name is not in use. It is the sheet's own name exactly when that name is free. |
| Merge.FreeSuffixLeast | tech_audit.py:601-605 | The counter chosen is the least k ≥ 1 whose `name_k` is free. |
| Merge.UniqueName | tech_audit.py:600-605 | The dedupe loop returns that free name. |
| Merge.CopiedFresh | tech_audit.py:598-609 | The sheets copied from one workbook get names new to the workbook and pairwise different. |
| Merge.AllSheetsFresh | tech_audit.py:588-609 | The same holds for all sheets of the whole merge. |
| Merge.TwoDataSheets | tech_audit.py:600-609 | Two "Data" sheets imported next to an existing "Data" become "Data_1" and "Data_2", after it in tab order. |
| Merge.TabsOrder | tech_audit.py:608 | The old tabs come first, then the new sheets in import order. |
| Merge.MergedContents | tech_audit.py:598-625 | After the merge, every old sheet keeps its contents, and every imported sheet is found under its new name with its cells. |
| Merge.Successes | tech_audit.py:586-666 | The count is at most the number of files, and equals it exactly when no file raises. |
| Merge.ImportedCount | tech_audit.py:578-666 | The result is at most the number of candidates (so at most the listing's size) and is 0 when there are none. It falls short exactly when some candidate raises. |
| Merge.ImportSheet | tech_audit.py:600-625 | One sheet is added under the free name. The name set grows by that name, the tab order by it, and the contents by the copied cells. |
| Merge.AppendSheet | tech_audit.py:600-625 | The same step, stated against the sheets appended so far. |
| Merge.CopySheets | tech_audit.py:598-657 | Copying the first n sheets of a workbook leaves the old sheets and appends exactly the function `Copied` of the inputs. |
| Merge.ImportFile | tech_audit.py:589-666 | Importing one file succeeds exactly when it loads and raises nowhere. The sheets added before a fault stay, including a partly copied one. |
| Merge.ImportNext | tech_audit.py:588-666 | One iteration of the file loop: the count grows by one exactly for a successful file. |
| Merge.ImportFiles | tech_audit.py:588-669 | The loop over files returns the number of successful files and appends `AllSheets` of the inputs. |
| Merge.ImportExistingSheets | tech_audit.py:563-669 | The whole merge returns the number of candidate workbooks that import without an exception. The workbook becomes its old sheets plus `AllSheets` of the candidates, in tab order. |
| Naming.KeepAllowed | tech_audit.py:115 | Keeps only letters, digits, space, `-` and `_`, and never lengthens the string. |
| Naming.KeepAllowedAppend | tech_audit.py:115 | Filtering a string in two parts gives the kept characters of the first part followed by those of the second: the sanitiser keeps the order of the characters it keeps. |
| Naming.KeepAllowedFixed | tech_audit.py:115 | A string passes the filter unchanged exactly when all its characters are allowed. |
| Naming.CleanClientName | tech_audit.py:115 | Every character is allowed and there is no trailing space. The result is a prefix of the filtered name, and the part cut off is all spaces. |
| Naming.CleanIdempotent | tech_audit.py:115 | Cleaning a cleaned name changes nothing. |
| Naming.CleanKeepsCleanNames | tech_audit.py:115 | A name of allowed characters with no trailing space is its own clean form. |
| Naming.OutputFileName | tech_audit.py:113-118 | With a client name the file name starts with `<clean>_Technical_Audit_`, otherwise with `Technical_Audit_`. It always ends with `.xlsx`. |
| Naming.OutputNeverCandidate | tech_audit.py:113-118 | The report the program writes is never a candidate for the merge. |
| Naming.OutputFileNameChars | tech_audit.py:113-118 | With a timestamp of digits and `_`, the file name has only allowed characters plus the dot of its extension. |

## Left out

- The GUI (`TechAuditGUI`, `main`), its worker thread and the hand-off back to the UI thread: user interface and concurrency.
- Finding the desktop and the template, creating the embedded template, copying, saving and deleting the output file: filesystem work.
- `load_screaming_frog_data` (reading the CSV exports): the loaded tables are a parameter, and the cell type each column gets is taken as given.
- `datetime.now()`: the timestamp is a parameter of `Naming.OutputFileName`.
- `print` logging: no effect on the result.
- Floating-point cells: cells are null, text or integers. A float expected value such as `0.0`, and lengths read as floats, are not modelled.
- Boolean cells: a boolean ID or expected value is not modelled.
- Unicode: `lower`, `isspace`, `isdigit` and `isalnum` are modelled on ASCII. The client-name sanitiser therefore drops non-ASCII letters and digits, which Python keeps.
- `urlparse`: the network location is modelled as the text between `//` and the next `/`, `?` or `#`, behind an optional scheme. The parser's stripping of leading controls and its removal of tab and newline are kept. NFKC checks and the full IPv6 bracket validation are not; unbalanced brackets are the one error modelled.
- Regular expressions: the four patterns used (`noindex`, `nofollow`, `text/html`, `Blocked by robots.txt`) are modelled as literal text with `.` matching any character but newline. No other regex syntax is modelled.
- openpyxl copying: merged ranges, fonts, fills, alignment, column widths and row heights, and the bare `except: pass` around styling are not modelled. A sheet copy is its map of cell values.
- The `max_row` of a partly copied sheet is taken to be the source sheet's `max_row`, an over-approximation.
- A fault inside `create_sheet` itself, before the new sheet exists, is not modelled. A fault is modelled after loading, while copying a sheet, or after all sheets.
- `current_file` in `import_existing_sheets` is computed and never used, so it is not modelled.
- Titles longer than 31 characters, on which openpyxl only warns, are treated like any other title.
- Workbook.Workbook.CreateSheet: openpyxl treats titles that differ only in case as duplicates, and `create_sheet` gives such a title a numeric suffix. The model compares titles with case, so its `requires` that the title is new, and its promise that the sheet gets the requested title, describe only imports in which no new title equals an existing one up to case.
- Merge.FreeName: the dedupe loop's set comparison is case-sensitive, as in the program. When a sheet title equals an existing one up to case, the program's `existing_sheets` records the title it asked for, while openpyxl names the sheet differently. `Merge.TabsOrder`, `Merge.MergedContents` and `Merge.ImportExistingSheets` describe the requested titles, so they hold for the workbook only when no such clash occurs.
- Merged ranges: the copy at tech_audit.py:617 merges the ranges of the new sheet before copying values, and openpyxl turns every cell of a merged range except its top-left one into a `MergedCell`, whose `value` cannot be assigned. Importing a sheet with a multi-cell merged range therefore raises in the cell loop. The file is then not counted and its sheet stays partly copied. The model leaves this to the `books` parameter: such a file should be given as `FailsAt` that sheet, with the cells copied, row by row, before the first covered cell of a merged range.
- `.xls` files pass the candidate filter, but openpyxl's `load_workbook` cannot read that format, so each such candidate raises and is not counted. The model leaves this to the `books` parameter: such a file should be given as `Unreadable`.
- Metrics.MissingCanonicalCountsNullHtml: `missing_canonical` counts null canonicals only. An empty-string canonical is not counted, unlike the other missing-field calculations (titles, meta descriptions, H1, alt text), which count null or empty values. The model follows the code.
- Metrics.NotFoundAmongClientErrors: the inclusion of 404s in 4xx is proved for every status column `read_csv(low_memory=False)` produces, all numbers or all text besides missing values. Only a column mixing numbers and text breaks it: there the ordered comparisons of the 4xx mask raise and give 0, while the `== 404` comparison does not raise, as `Metrics.MixedStatusColumn` shows. The loader at tech_audit.py:288 does not produce such a column.
