/** The report updater, `update_audit_values`: for every row of the
    "Full Audit" sheet whose item ID is in the catalog, write the computed
    value, and derive a verdict and priority from the row's expected value. */
module Report {
  import opened Text
  import opened Table
  import opened Catalog
  import opened Metrics
  import opened Workbook

  const FullAudit := "Full Audit"

  /** Column positions in the rule table (1-based). */
  const IdColumn := 3
  const VerdictColumn := 8
  const ExpectedColumn := 9
  const ValueColumn := 10
  const PriorityColumn := 11

  const PassPriority := "N/A - Pass"

  datatype Verdict = NoVerdict | Pass | Fail | Opportunity

  /** `str(value)` of a cell. */
  function CellText(c: Cell): string {
    match c
    case Null => "None"
    case Str(s) => s
    case Num(n) => IntToString(n)
  }

  /** Python truthiness of a cell value. */
  predicate Truthy(c: Cell) {
    match c
    case Null => false
    case Str(s) => s != ""
    case Num(n) => n != 0
  }

  /** `item_id and str(item_id) in item_mappings`, with the entry found. */
  function Lookup(id: Cell): Option<Entry> {
    if Truthy(id) && CellText(id) in ItemMappings() then Some(ItemMappings()[CellText(id)]) else None
  }

  /** Every catalog key typed as text finds its own entry. */
  lemma LookupFindsEveryKey(id: string)
    requires id in ItemMappings()
    ensures Lookup(Str(id)) == Some(ItemMappings()[id])
  {
    assert "" !in ItemMappings();
  }

  /** An ID typed as a positive number is looked up by its decimal text. */
  lemma LookupNumber(n: int)
    requires n >= 1
    ensures Lookup(Num(n)) == Lookup(Str(NatToString(n)))
  {
    assert CellText(Num(n)) == NatToString(n);
  }

  /** An ID typed as a negative number is never found: its text starts
      with `-`, and no catalog key does. */
  lemma LookupNegative(n: int)
    requires n < 0
    ensures Lookup(Num(n)) == None
  {
    var text := CellText(Num(n));
    assert text[0] == '-';
    forall k | k in ItemMappings() ensures k != text {
      assert k[0] != '-';
    }
  }

  /** A blank cell, an empty text and the number 0 are skipped. */
  lemma LookupSkipsBlank()
    ensures Lookup(Null) == None && Lookup(Str("")) == None && Lookup(Num(0)) == None
  {
  }

  /** Item 51 typed as a number finds the missing-canonical calculation
      over the crawl export. */
  lemma LookupFiftyOne()
    ensures Lookup(Num(51)) == Some(Entry(Internal, MissingCanonical))
  {
    assert NatToString(51) == "51" by {
      assert NatToString(5) == "5";
    }
    LookupNumber(51);
  }

  /** `int(expected_value)` for an expected value whose text is all digits. */
  function ExpectedInt(e: Cell): nat
    requires IsDigits(CellText(e))
  {
    match e
    case Null => 0
    case Str(s) => ParseDigits(s)
    case Num(n) => n
  }

  /** The verdict the expected value asks for, given the computed value:
      a literal `"0"`, then a digit string as a ceiling, then a "manual"
      marker; anything else, or no expected value, gives no verdict. */
  function Judge(expected: Cell, value: nat): Verdict {
    if expected == Null then NoVerdict
    else
      var text := CellText(expected);
      if Strip(text) == "0" then (if value == 0 then Pass else Fail)
      else if IsDigits(text) then (if value <= ExpectedInt(expected) then Pass else Fail)
      else if Contains(Lower(text), "manual") then Opportunity
      else NoVerdict
  }

  /** The numeric ceiling an expected value states, read off the cell as
      typed: a non-negative number, or text that is `0` up to surrounding
      whitespace, or text made of digits. */
  function Ceiling(expected: Cell): Option<nat> {
    match expected
    case Null => None
    case Num(n) => if n >= 0 then Some(n) else None
    case Str(s) =>
      if Strip(s) == "0" then Some(0)
      else if IsDigits(s) then Some(ParseDigits(s))
      else None
  }

  /** Text asking for manual review. */
  predicate AsksForReview(expected: Cell) {
    expected.Str? && Contains(Lower(expected.text), "manual")
  }

  // ---------------------------------------------------------------- verdict lemmas

  lemma NumberTextStrip(n: int)
    ensures Strip(CellText(Num(n))) == CellText(Num(n))
  {
    IntToStringStrip(n);
  }

  lemma NumberTextZero(n: int)
    ensures CellText(Num(n)) == "0" <==> n == 0
  {
    IntToStringZero(n);
  }

  /** A non-negative number as expected value is a ceiling on the value. */
  lemma NumberVerdict(n: int, value: nat)
    requires n >= 0
    ensures Judge(Num(n), value) == if value <= n then Pass else Fail
  {
    NumberTextStrip(n);
    NumberTextZero(n);
  }

  /** A negative number as expected value gives no verdict: its text is
      neither `0`, nor digits, nor a request for review. */
  lemma NegativeVerdict(n: int, value: nat)
    requires n < 0
    ensures Judge(Num(n), value) == NoVerdict
  {
    var text := CellText(Num(n));
    NumberTextStrip(n);
    NumberTextZero(n);
    forall k | 0 <= k < |text| ensures Lower(text)[k] != 'm' {
      assert IsDigitChar(text[k]) || text[k] == '-';
    }
    AbsentFirst(Lower(text), "manual");
  }

  /** Text asking for review is neither digits nor `0`. */
  lemma ReviewNotDigits(s: string)
    requires Contains(Lower(s), "manual")
    ensures !IsDigits(s)
  {
    var i := FoundLowered(s, "manual", 0);
    assert !IsDigitChar(s[i]);
  }

  lemma ReviewNotZero(s: string)
    requires Contains(Lower(s), "manual")
    ensures Strip(s) != "0"
  {
    var i := FoundLowered(s, "manual", 0);
    assert !IsSpace(s[i]);
    StripKeeps(s, i);
    assert s[i] != '0';
  }

  /** With a ceiling N the verdict is Pass exactly when the value is at most N,
      and Fail otherwise; a literal zero is the ceiling 0. */
  lemma CeilingVerdict(expected: Cell, value: nat)
    requires Ceiling(expected).Some?
    ensures Judge(expected, value) == if value <= Ceiling(expected).value then Pass else Fail
  {
    if expected.Num? {
      NumberVerdict(expected.value, value);
    }
  }

  /** A "manual" expected value states no ceiling and yields Opportunity
      whatever the value. */
  lemma ReviewVerdict(expected: Cell, value: nat)
    requires AsksForReview(expected)
    ensures Ceiling(expected).None?
    ensures Judge(expected, value) == Opportunity
  {
    ReviewNotDigits(expected.text);
    ReviewNotZero(expected.text);
  }

  /** Any other expected value, and a missing one, leaves the verdict alone. */
  lemma NoVerdictOtherwise(expected: Cell, value: nat)
    requires Ceiling(expected).None? && !AsksForReview(expected)
    ensures Judge(expected, value) == NoVerdict
  {
    if expected.Num? {
      NegativeVerdict(expected.value, value);
    }
  }

  // ---------------------------------------------------------------- the row update

  /** The verdict cell after a verdict, given its previous content. */
  function VerdictCell(v: Verdict, previous: Cell): Cell {
    match v
    case NoVerdict => previous
    case Pass => Str("Pass")
    case Fail => Str("Fail")
    case Opportunity => Str("Opportunity")
  }

  /** The writes for a row whose item ID is in the catalog, given its value:
      the value in column 10, then the verdict in column 8 and, on a pass,
      the priority in column 11. */
  function RowUpdate(g: Grid, row: int, value: nat): Grid {
    WriteRow(g, row, value, Judge(CellAt(g, row, ExpectedColumn), value))
  }

  function WriteRow(g: Grid, row: int, value: nat, verdict: Verdict): Grid {
    var written := g[(row, ValueColumn) := Num(value)];
    match verdict
    case Pass => written[(row, VerdictColumn) := Str("Pass")][(row, PriorityColumn) := Str(PassPriority)]
    case Fail => written[(row, VerdictColumn) := Str("Fail")]
    case Opportunity => written[(row, VerdictColumn) := Str("Opportunity")]
    case NoVerdict => written
  }

  /** What one iteration of the loop does to row `row`. */
  function ApplyRow(store: Store, g: Grid, row: int): Grid {
    match Lookup(CellAt(g, row, IdColumn))
    case None => g
    case Some(entry) => RowUpdate(g, row, ItemMetric(store, entry))
  }

  /** The sheet after the loop has handled rows 2..last. */
  function AuditRows(store: Store, g: Grid, last: int): Grid
    decreases last
  {
    if last < 2 then g else ApplyRow(store, AuditRows(store, g, last - 1), last)
  }

  predicate Written(c: int) {
    c == VerdictColumn || c == ValueColumn || c == PriorityColumn
  }

  /** A row's update touches only that row, and only columns 8, 10 and 11. */
  lemma RowUpdateFrame(g: Grid, row: int, value: nat, r: int, c: int)
    requires r != row || !Written(c)
    ensures CellAt(RowUpdate(g, row, value), r, c) == CellAt(g, r, c)
  {
    WriteRowFrame(g, row, value, Judge(CellAt(g, row, ExpectedColumn), value), r, c);
  }

  lemma WriteRowFrame(g: Grid, row: int, value: nat, verdict: Verdict, r: int, c: int)
    requires r != row || !Written(c)
    ensures CellAt(WriteRow(g, row, value, verdict), r, c) == CellAt(g, r, c)
  {
  }

  /** What the update writes into its row. */
  lemma RowUpdateWrites(g: Grid, row: int, value: nat)
    ensures var verdict := Judge(CellAt(g, row, ExpectedColumn), value);
            var h := RowUpdate(g, row, value);
            CellAt(h, row, ValueColumn) == Num(value) &&
            CellAt(h, row, VerdictColumn) == VerdictCell(verdict, CellAt(g, row, VerdictColumn)) &&
            CellAt(h, row, PriorityColumn) ==
              (if verdict == Pass then Str(PassPriority) else CellAt(g, row, PriorityColumn))
  {
    WriteRowWrites(g, row, value, Judge(CellAt(g, row, ExpectedColumn), value));
  }

  lemma WriteRowWrites(g: Grid, row: int, value: nat, verdict: Verdict)
    ensures var h := WriteRow(g, row, value, verdict);
            CellAt(h, row, ValueColumn) == Num(value) &&
            CellAt(h, row, VerdictColumn) == VerdictCell(verdict, CellAt(g, row, VerdictColumn)) &&
            CellAt(h, row, PriorityColumn) ==
              (if verdict == Pass then Str(PassPriority) else CellAt(g, row, PriorityColumn))
  {
  }

  lemma ApplyRowFrame(store: Store, g: Grid, row: int, r: int, c: int)
    requires r != row || !Written(c) || Lookup(CellAt(g, row, IdColumn)).None?
    ensures CellAt(ApplyRow(store, g, row), r, c) == CellAt(g, r, c)
  {
    match Lookup(CellAt(g, row, IdColumn))
    case None =>
    case Some(entry) => RowUpdateFrame(g, row, ItemMetric(store, entry), r, c);
  }

  /** The update of a row depends on that row alone. */
  lemma ApplyRowLocal(store: Store, g: Grid, h: Grid, row: int, c: int)
    requires forall col :: CellAt(g, row, col) == CellAt(h, row, col)
    ensures CellAt(ApplyRow(store, g, row), row, c) == CellAt(ApplyRow(store, h, row), row, c)
  {
    assert CellAt(g, row, IdColumn) == CellAt(h, row, IdColumn);
    assert CellAt(g, row, ExpectedColumn) == CellAt(h, row, ExpectedColumn);
    assert CellAt(g, row, c) == CellAt(h, row, c);
    assert CellAt(g, row, VerdictColumn) == CellAt(h, row, VerdictColumn);
    assert CellAt(g, row, PriorityColumn) == CellAt(h, row, PriorityColumn);
    match Lookup(CellAt(g, row, IdColumn))
    case None =>
    case Some(entry) =>
      var value := ItemMetric(store, entry);
      RowUpdateWrites(g, row, value);
      RowUpdateWrites(h, row, value);
      if !Written(c) {
        RowUpdateFrame(g, row, value, row, c);
        RowUpdateFrame(h, row, value, row, c);
      }
  }

  /** After the loop, each row 2..last holds what its own update made of the
      original row, and every other row is as it was. */
  lemma {:induction false} AuditRowsAt(store: Store, g: Grid, last: int, r: int, c: int)
    ensures CellAt(AuditRows(store, g, last), r, c) ==
            if 2 <= r <= last then CellAt(ApplyRow(store, g, r), r, c) else CellAt(g, r, c)
    decreases last
  {
    if last >= 2 {
      var before := AuditRows(store, g, last - 1);
      if r == last {
        forall col ensures CellAt(before, r, col) == CellAt(g, r, col) {
          AuditRowsAt(store, g, last - 1, r, col);
        }
        ApplyRowLocal(store, before, g, r, c);
      } else {
        ApplyRowFrame(store, before, last, r, c);
        AuditRowsAt(store, g, last - 1, r, c);
      }
    }
  }

  /** Row 1, rows past the last, rows whose ID is blank or not in the catalog,
      and every column other than 8, 10 and 11 are left as they were. */
  lemma AuditFrame(store: Store, g: Grid, last: int, r: int, c: int)
    requires r < 2 || r > last || Lookup(CellAt(g, r, IdColumn)).None? || !Written(c)
    ensures CellAt(AuditRows(store, g, last), r, c) == CellAt(g, r, c)
  {
    AuditRowsAt(store, g, last, r, c);
    if 2 <= r <= last {
      ApplyRowFrame(store, g, r, r, c);
    }
  }

  /** A row whose ID is in the catalog gets the computed value in column 10,
      the verdict its expected value asks for in column 8, and the pass
      priority in column 11 exactly when the verdict is Pass. */
  lemma AuditedRow(store: Store, g: Grid, last: int, r: int)
    requires 2 <= r <= last && Lookup(CellAt(g, r, IdColumn)).Some?
    ensures var value := ItemMetric(store, Lookup(CellAt(g, r, IdColumn)).value);
            var verdict := Judge(CellAt(g, r, ExpectedColumn), value);
            var after := AuditRows(store, g, last);
            CellAt(after, r, ValueColumn) == Num(value) &&
            CellAt(after, r, VerdictColumn) == VerdictCell(verdict, CellAt(g, r, VerdictColumn)) &&
            CellAt(after, r, PriorityColumn) ==
              (if verdict == Pass then Str(PassPriority) else CellAt(g, r, PriorityColumn))
  {
    AuditRowsAt(store, g, last, r, ValueColumn);
    AuditRowsAt(store, g, last, r, VerdictColumn);
    AuditRowsAt(store, g, last, r, PriorityColumn);
    RowUpdateWrites(g, r, ItemMetric(store, Lookup(CellAt(g, r, IdColumn)).value));
  }

  // ---------------------------------------------------------------- the loop

  /** The loop over rows 2..max_row of the rule table. */
  method FillRuleTable(ws: Worksheet, store: Store)
    requires ws.Valid()
    modifies ws
    ensures ws.Valid() && ws.maxRow == old(ws.maxRow)
    ensures ws.cells == AuditRows(store, old(ws.cells), ws.maxRow)
  {
    for row := 2 to ws.maxRow + 1
      invariant ws.Valid() && ws.maxRow == old(ws.maxRow)
      invariant ws.cells == AuditRows(store, old(ws.cells), row - 1)
    {
      var mapping := Lookup(CellAt(ws.cells, row, IdColumn));
      if mapping.Some? {
        var value := Metric(store, mapping.value.file, mapping.value.calculation);
        FillRow(ws, row, value);
      }
    }
  }

  /** The body of the loop for a row whose item ID is in the catalog: write
      the value, then the verdict its expected value asks for. */
  method FillRow(ws: Worksheet, row: int, value: nat)
    requires ws.Valid() && 1 <= row <= ws.maxRow
    modifies ws
    ensures ws.Valid() && ws.maxRow == old(ws.maxRow)
    ensures ws.cells == RowUpdate(old(ws.cells), row, value)
  {
    ws.cells := ws.cells[(row, ValueColumn) := Num(value)];
    var expected := CellAt(ws.cells, row, ExpectedColumn);
    assert expected == CellAt(old(ws.cells), row, ExpectedColumn);
    match Judge(expected, value)
    case Pass =>
      ws.cells := ws.cells[(row, VerdictColumn) := Str("Pass")];
      ws.cells := ws.cells[(row, PriorityColumn) := Str(PassPriority)];
    case Fail =>
      ws.cells := ws.cells[(row, VerdictColumn) := Str("Fail")];
    case Opportunity =>
      ws.cells := ws.cells[(row, VerdictColumn) := Str("Opportunity")];
    case NoVerdict =>
  }

  /** `update_audit_values(wb)`: fails, changing nothing, when there is no
      "Full Audit" sheet; otherwise fills its rule table. */
  method UpdateAuditValues(wb: Workbook, store: Store) returns (found: bool)
    requires wb.Valid()
    modifies if FullAudit in wb.sheets then {wb.sheets[FullAudit]} else {}
    ensures found <==> FullAudit in wb.sheets
    ensures wb.Valid()
    ensures found ==>
      var ws := wb.sheets[FullAudit];
      ws.maxRow == old(ws.maxRow) && ws.cells == AuditRows(store, old(ws.cells), ws.maxRow)
  {
    found := FullAudit in wb.sheets;
    if found {
      FillRuleTable(wb.sheets[FullAudit], store);
    }
  }
}
