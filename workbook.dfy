/** The output workbook as openpyxl holds it: named worksheets of cells,
    each sheet tracking the highest row it uses (`max_row`). */
module Workbook {
  import opened Table

  /** Cell values by (row, column), both counted from 1. */
  type Grid = map<(int, int), Cell>

  /** The value of a cell; a cell never written reads as `None`. */
  function CellAt(g: Grid, row: int, col: int): Cell {
    if (row, col) in g then g[(row, col)] else Null
  }

  /** Every cell lies in rows 1..maxRow and in a column from 1 on. */
  predicate Fits(g: Grid, maxRow: nat) {
    maxRow >= 1 && forall key :: key in g ==> 1 <= key.0 <= maxRow && 1 <= key.1
  }

  class Worksheet {
    var cells: Grid
    var maxRow: nat

    ghost predicate Valid()
      reads this
    {
      Fits(cells, maxRow)
    }

    /** A new sheet holding the given cells. */
    constructor Holding(cells: Grid, maxRow: nat)
      requires Fits(cells, maxRow)
      ensures Valid() && this.cells == cells && this.maxRow == maxRow
    {
      this.cells := cells;
      this.maxRow := maxRow;
    }
  }

  /** What a sheet holds. */
  datatype Page = Page(cells: Grid, maxRow: nat)

  class Workbook {
    /** `sheetnames`, in tab order. */
    var sheetNames: seq<string>
    var sheets: map<string, Worksheet>

    ghost predicate Valid()
      reads this, sheets.Values
    {
      (forall i, j :: 0 <= i < j < |sheetNames| ==> sheetNames[i] != sheetNames[j]) &&
      (forall name :: name in sheets <==> name in sheetNames) &&
      (forall name :: name in sheets ==> sheets[name].Valid()) &&
      (forall a, b :: a in sheets && b in sheets && a != b ==> sheets[a] != sheets[b])
    }

    /** The sheets by name, as values. */
    ghost function Contents(): map<string, Page>
      reads this, sheets.Values
    {
      map n | n in sheets :: Page(sheets[n].cells, sheets[n].maxRow)
    }

    /** `create_sheet(name)` for a name not yet in use, followed by copying
        `cells` into the new sheet: appends a sheet and leaves the others be. */
    method CreateSheet(name: string, cells: Grid, maxRow: nat)
      requires Valid() && name !in sheets && Fits(cells, maxRow)
      modifies this
      ensures Valid()
      ensures sheetNames == old(sheetNames) + [name]
      ensures sheets.Keys == old(sheets.Keys) + {name}
      ensures Contents() == old(Contents())[name := Page(cells, maxRow)]
    {
      ghost var before := Contents();
      var ws := new Worksheet.Holding(cells, maxRow);
      sheetNames := sheetNames + [name];
      sheets := sheets[name := ws];
      assert Contents() == before[name := Page(cells, maxRow)] by {
        forall n | n in Contents() ensures Contents()[n] == before[name := Page(cells, maxRow)][n] {
          if n != name {
            assert sheets[n] == old(sheets)[n];
          }
        }
      }
    }
  }
}
