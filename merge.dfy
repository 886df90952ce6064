/** Sheet-merge bookkeeping of `import_existing_sheets`: which files of the
    data folder are imported, what each imported sheet is called, and how many
    files count as imported. */
module Merge {
  import opened Text
  import opened Table
  import opened Workbook

  // ---------------------------------------------------------------- candidate files

  /** A folder entry to import: an Excel workbook that is neither an Office
      lock file (`~...`) nor, by its name, an audit this program wrote. */
  predicate IsCandidate(name: string) {
    (EndsWith(Lower(name), ".xlsx") || EndsWith(Lower(name), ".xls")) && !StartsWith(name, "~")
    && !StartsWith(name, "Technical_Audit_") && !StartsWith(name, "Tech_Audit_")
    && !Contains(name, "Technical_Audit")
  }

  /** The candidates of a folder listing, in listing order. */
  function Candidates(listing: seq<string>): (r: seq<string>)
    ensures |r| <= |listing|
    ensures forall n :: n in r <==> n in listing && IsCandidate(n)
  {
    if listing == [] then []
    else
      var pre := Candidates(listing[..|listing| - 1]);
      var last := listing[|listing| - 1];
      assert listing == listing[..|listing| - 1] + [last];
      if IsCandidate(last) then pre + [last] else pre
  }

  /** Filtering a listing in two parts filters each part, in order. */
  lemma {:induction false} CandidatesAppend(a: seq<string>, b: seq<string>)
    ensures Candidates(a + b) == Candidates(a) + Candidates(b)
    decreases |b|
  {
    if b == [] {
      assert a + b == a;
    } else {
      var init, last := b[..|b| - 1], b[|b| - 1];
      assert (a + b)[..|a + b| - 1] == a + init;
      assert (a + b)[|a + b| - 1] == last;
      CandidatesAppend(a, init);
    }
  }

  /** The loop that collects `excel_files`. */
  method FindCandidates(listing: seq<string>) returns (files: seq<string>)
    ensures files == Candidates(listing)
  {
    files := [];
    for i := 0 to |listing|
      invariant files == Candidates(listing[..i])
    {
      assert listing[..i + 1][..i] == listing[..i];
      if IsCandidate(listing[i]) {
        files := files + [listing[i]];
      }
    }
    assert listing[..|listing|] == listing;
  }

  // ---------------------------------------------------------------- collision-free names

  /** `f"{name}_{k}"`. */
  function Suffixed(name: string, k: nat): string {
    name + "_" + NatToString(k)
  }

  /** Different counters give different names. */
  lemma SuffixedDistinct(name: string, j: nat, k: nat)
    requires j != k
    ensures Suffixed(name, j) != Suffixed(name, k)
  {
    ParseNatToString(j);
    ParseNatToString(k);
    assert NatToString(j) != NatToString(k);
    assert Suffixed(name, j)[|name| + 1..] == NatToString(j);
    assert Suffixed(name, k)[|name| + 1..] == NatToString(k);
  }

  /** The names `name_1` .. `name_n`. */
  function Suffixes(name: string, n: nat): set<string> {
    if n == 0 then {} else Suffixes(name, n - 1) + {Suffixed(name, n)}
  }

  lemma {:induction false} SuffixesMember(name: string, n: nat, k: nat)
    ensures Suffixed(name, k) in Suffixes(name, n) <==> 1 <= k <= n
  {
    if n > 0 {
      SuffixesMember(name, n - 1, k);
      if k != n {
        SuffixedDistinct(name, n, k);
      }
    }
  }

  lemma {:induction false} SuffixesSize(name: string, n: nat)
    ensures |Suffixes(name, n)| == n
  {
    if n > 0 {
      SuffixesSize(name, n - 1);
      SuffixesMember(name, n - 1, n);
    }
  }

  lemma SubsetSize(a: set<string>, b: set<string>)
    requires a <= b
    ensures |a| <= |b|
  {
    assert b == a + (b - a);
  }

  /** The least counter from `k` on whose suffixed name is free, given that
      `name_1` .. `name_(k-1)` are taken. */
  function FreeSuffix(name: string, existing: set<string>, k: nat): (r: nat)
    requires k >= 1 && Suffixes(name, k - 1) <= existing
    ensures r >= k && Suffixed(name, r) !in existing
    ensures Suffixes(name, r - 1) <= existing
    decreases |existing| - k + 1
  {
    if Suffixed(name, k) !in existing then k
    else
      SuffixesSize(name, k);
      SubsetSize(Suffixes(name, k), existing);
      FreeSuffix(name, existing, k + 1)
  }

  /** The name a copied sheet gets: its own name when that is free, otherwise
      `name_k` for the least k >= 1 that is free. */
  function FreeName(name: string, existing: set<string>): (r: string)
    ensures r !in existing
    ensures r == name <==> name !in existing
  {
    if name !in existing then name
    else
      var k := FreeSuffix(name, existing, 1);
      assert |Suffixed(name, k)| > |name|;
      Suffixed(name, k)
  }

  /** `FreeSuffix` finds the least free counter. */
  lemma {:induction false} FreeSuffixLeast(name: string, existing: set<string>, k: nat, m: nat)
    requires 1 <= k <= m
    requires Suffixes(name, m - 1) <= existing && Suffixed(name, m) !in existing
    ensures Suffixes(name, k - 1) <= existing
    ensures FreeSuffix(name, existing, k) == m
    decreases m - k
  {
    SuffixesMember(name, m - 1, k);
    assert Suffixes(name, k - 1) <= existing by {
      forall s | s in Suffixes(name, k - 1) ensures s in existing {
        SuffixesUpTo(name, k - 1, m - 1, s);
      }
    }
    if k < m {
      FreeSuffixLeast(name, existing, k + 1, m);
    }
  }

  lemma {:induction false} SuffixesUpTo(name: string, n: nat, m: nat, s: string)
    requires n <= m && s in Suffixes(name, n)
    ensures s in Suffixes(name, m)
    decreases m
  {
    if n < m {
      SuffixesUpTo(name, n, m - 1, s);
    }
  }

  /** The dedupe loop: try the sheet's own name, then `name_1`, `name_2`, ...
      until one is not in use. */
  method UniqueName(name: string, existing: set<string>) returns (unique: string)
    ensures unique == FreeName(name, existing)
  {
    unique := name;
    var counter := 1;
    while unique in existing
      invariant counter >= 1
      invariant unique == if counter == 1 then name else Suffixed(name, counter - 1)
      invariant counter > 1 ==> name in existing
      invariant Suffixes(name, counter - 1) <= existing + {unique}
      decreases |existing| + 1 - counter
    {
      SuffixesSize(name, counter - 1);
      SubsetSize(Suffixes(name, counter - 1), existing);
      unique := Suffixed(name, counter);
      counter := counter + 1;
    }
    if counter > 1 {
      SuffixesMember(name, counter - 2, counter - 1);
      FreeSuffixLeast(name, existing, 1, counter - 1);
    }
  }

  // ---------------------------------------------------------------- source workbooks

  /** A sheet of a workbook being imported. */
  datatype SourceSheet = SourceSheet(title: string, cells: Grid, maxRow: nat)

  /** Where importing a readable workbook raises, if it does: while copying
      sheet `at` (after creating it, with the cells copied so far), or, for
      `at` past the last sheet, after every sheet was copied. */
  datatype Fault = NoFault | FailsAt(at: nat, copied: Grid)

  /** A workbook of the folder as `load_workbook` finds it. */
  datatype SourceFile = Unreadable | Readable(sheets: seq<SourceSheet>, fault: Fault)

  /** Each sheet's cells lie within its rows, and the cells copied before a
      fault are cells of the sheet being copied. */
  predicate WellFormed(f: SourceFile) {
    f.Readable? ==>
      (forall i :: 0 <= i < |f.sheets| ==> Fits(f.sheets[i].cells, f.sheets[i].maxRow)) &&
      (f.fault.FailsAt? && f.fault.at < |f.sheets| ==>
         var source := f.sheets[f.fault.at].cells;
         forall key :: key in f.fault.copied ==> key in source && f.fault.copied[key] == source[key])
  }

  /** Whether importing the file ends without an exception. */
  predicate Succeeds(f: SourceFile) {
    f.Readable? && f.fault.NoFault?
  }

  /** A sheet the import appends to the output workbook. */
  datatype NewSheet = NewSheet(name: string, cells: Grid, maxRow: nat)

  /** The workbook's tab order after appending `added` to the tabs `before`. */
  function Tabs(before: seq<string>, added: seq<NewSheet>): seq<string> {
    if added == [] then before
    else Tabs(before, added[..|added| - 1]) + [added[|added| - 1].name]
  }

  /** The old tabs come first, then the appended sheets' names in order. */
  lemma {:induction false} TabsOrder(before: seq<string>, added: seq<NewSheet>)
    ensures |Tabs(before, added)| == |before| + |added|
    ensures Tabs(before, added)[..|before|] == before
    ensures forall i :: 0 <= i < |added| ==> Tabs(before, added)[|before| + i] == added[i].name
  {
    if added != [] {
      TabsOrder(before, added[..|added| - 1]);
    }
  }

  /** The names of the appended sheets, as a set. */
  function Seen(added: seq<NewSheet>): (r: set<string>)
    ensures forall i :: 0 <= i < |added| ==> added[i].name in r
  {
    if added == [] then {}
    else Seen(added[..|added| - 1]) + {added[|added| - 1].name}
  }

  /** The first `n` sheets of a workbook, each copied whole under a free name. */
  function Copied(existing: set<string>, sheets: seq<SourceSheet>, n: nat): seq<NewSheet>
    requires n <= |sheets|
  {
    if n == 0 then []
    else
      var pre := Copied(existing, sheets, n - 1);
      var s := sheets[n - 1];
      pre + [NewSheet(FreeName(s.title, existing + Seen(pre)), s.cells, s.maxRow)]
  }

  /** The sheets importing one file appends, including a sheet left partly
      copied by a fault. */
  function FileSheets(existing: set<string>, f: SourceFile): seq<NewSheet> {
    match f
    case Unreadable => []
    case Readable(sheets, NoFault) => Copied(existing, sheets, |sheets|)
    case Readable(sheets, FailsAt(k, copied)) =>
      if k < |sheets| then
        var pre := Copied(existing, sheets, k);
        pre + [NewSheet(FreeName(sheets[k].title, existing + Seen(pre)), copied, sheets[k].maxRow)]
      else Copied(existing, sheets, |sheets|)
  }

  /** The sheets importing the first `n` files appends. */
  function AllSheets(existing: set<string>, files: seq<SourceFile>, n: nat): seq<NewSheet>
    requires n <= |files|
  {
    if n == 0 then []
    else
      var pre := AllSheets(existing, files, n - 1);
      pre + FileSheets(existing + Seen(pre), files[n - 1])
  }

  /** How many of the first `n` files import without an exception. */
  function Successes(files: seq<SourceFile>, n: nat): (r: nat)
    requires n <= |files|
    ensures r <= n
    ensures r == n <==> forall i :: 0 <= i < n ==> Succeeds(files[i])
  {
    if n == 0 then 0 else Successes(files, n - 1) + (if Succeeds(files[n - 1]) then 1 else 0)
  }

  /** The workbook a candidate names; one that is not there fails to load. */
  function Book(books: map<string, SourceFile>, name: string): SourceFile {
    if name in books then books[name] else Unreadable
  }

  function Files(candidates: seq<string>, books: map<string, SourceFile>): (r: seq<SourceFile>)
    ensures |r| == |candidates|
    ensures forall i :: 0 <= i < |r| ==> r[i] == Book(books, candidates[i])
  {
    if candidates == [] then [] else [Book(books, candidates[0])] + Files(candidates[1..], books)
  }

  // ---------------------------------------------------------------- name properties

  /** No added name was in use before, and no two added names are equal. */
  ghost predicate FreshNames(existing: set<string>, added: seq<NewSheet>) {
    (forall i :: 0 <= i < |added| ==> added[i].name !in existing) &&
    (forall i, j :: 0 <= i < j < |added| ==> added[i].name != added[j].name)
  }

  lemma FreshAppend(existing: set<string>, a: seq<NewSheet>, b: seq<NewSheet>)
    requires FreshNames(existing, a) && FreshNames(existing + Seen(a), b)
    ensures FreshNames(existing, a + b)
  {
    forall i, j | 0 <= i < j < |a + b| ensures (a + b)[i].name != (a + b)[j].name {
      if i < |a| && j >= |a| {
        assert (a + b)[i].name in Seen(a);
        assert (a + b)[j] == b[j - |a|];
      }
    }
  }

  /** Appending one sheet under a name not in use keeps the names fresh. */
  lemma FreshSnoc(existing: set<string>, pre: seq<NewSheet>, x: NewSheet)
    requires FreshNames(existing, pre) && x.name !in existing + Seen(pre)
    ensures FreshNames(existing, pre + [x])
  {
    FreshAppend(existing, pre, [x]);
  }

  lemma {:induction false} CopiedFresh(existing: set<string>, sheets: seq<SourceSheet>, n: nat)
    requires n <= |sheets|
    ensures FreshNames(existing, Copied(existing, sheets, n))
  {
    if n > 0 {
      CopiedFresh(existing, sheets, n - 1);
      CopiedFreshStep(existing, sheets, n);
    }
  }

  /** Sheet `n` gets a name fresh after the first `n - 1`. */
  lemma CopiedFreshStep(existing: set<string>, sheets: seq<SourceSheet>, n: nat)
    requires 0 < n <= |sheets|
    requires FreshNames(existing, Copied(existing, sheets, n - 1))
    ensures FreshNames(existing, Copied(existing, sheets, n))
  {
    var pre := Copied(existing, sheets, n - 1);
    var s := sheets[n - 1];
    var x := NewSheet(FreeName(s.title, existing + Seen(pre)), s.cells, s.maxRow);
    assert Copied(existing, sheets, n) == pre + [x];
    FreshSnoc(existing, pre, x);
  }

  lemma FileSheetsFresh(existing: set<string>, f: SourceFile)
    ensures FreshNames(existing, FileSheets(existing, f))
  {
    match f
    case Unreadable =>
    case Readable(sheets, NoFault) => CopiedFresh(existing, sheets, |sheets|);
    case Readable(sheets, FailsAt(k, copied)) =>
      if k < |sheets| {
        var pre := Copied(existing, sheets, k);
        CopiedFresh(existing, sheets, k);
        FreshSnoc(existing, pre, NewSheet(FreeName(sheets[k].title, existing + Seen(pre)), copied, sheets[k].maxRow));
      } else {
        CopiedFresh(existing, sheets, |sheets|);
      }
  }

  /** Every sheet the whole import adds gets a name not used before it: the
      names are new to the workbook and pairwise different. */
  lemma {:induction false} AllSheetsFresh(existing: set<string>, files: seq<SourceFile>, n: nat)
    requires n <= |files|
    ensures FreshNames(existing, AllSheets(existing, files, n))
  {
    if n > 0 {
      AllSheetsFresh(existing, files, n - 1);
      AllSheetsFreshStep(existing, files, n);
    }
  }

  /** The sheets of file `n` keep the names of the first `n - 1` files fresh. */
  lemma AllSheetsFreshStep(existing: set<string>, files: seq<SourceFile>, n: nat)
    requires 0 < n <= |files|
    requires FreshNames(existing, AllSheets(existing, files, n - 1))
    ensures FreshNames(existing, AllSheets(existing, files, n))
  {
    var pre := AllSheets(existing, files, n - 1);
    var more := FileSheets(existing + Seen(pre), files[n - 1]);
    assert AllSheets(existing, files, n) == pre + more;
    FileSheetsFresh(existing + Seen(pre), files[n - 1]);
    FreshAppend(existing, pre, more);
  }

  /** Two sheets called "Data" imported into a workbook that has one: they
      become "Data_1" and "Data_2". */
  lemma TwoDataSheets(g: Grid)
    ensures var sheets := [SourceSheet("Data", g, 1), SourceSheet("Data", g, 1)];
            Tabs(["Data"], Copied({"Data"}, sheets, 2)) == ["Data", "Data_1", "Data_2"]
  {
    var sheets := [SourceSheet("Data", g, 1), SourceSheet("Data", g, 1)];
    assert NatToString(1) == "1" && NatToString(2) == "2";
    assert Suffixed("Data", 1) == "Data_1";
    assert Suffixed("Data", 2) == "Data_2";
    FreeSuffixLeast("Data", {"Data"}, 1, 1);
    assert FreeName("Data", {"Data"}) == "Data_1";
    assert Copied({"Data"}, sheets, 0) == [];
    assert {"Data"} + Seen(Copied({"Data"}, sheets, 0)) == {"Data"};
    var pre := Copied({"Data"}, sheets, 1);
    assert pre == [NewSheet("Data_1", g, 1)];
    assert Seen(pre) == {"Data_1"} by {
      assert pre[0].name == "Data_1";
    }
    assert Suffixes("Data", 1) == {"Data_1"};
    assert {"Data"} + Seen(pre) == {"Data", "Data_1"};
    FreeSuffixLeast("Data", {"Data", "Data_1"}, 1, 2);
    assert FreeName("Data", {"Data", "Data_1"}) == "Data_2";
    var all := Copied({"Data"}, sheets, 2);
    assert all == [NewSheet("Data_1", g, 1), NewSheet("Data_2", g, 1)];
    assert all[..1] == pre && pre[..0] == [];
    assert Tabs(["Data"], pre) == ["Data", "Data_1"];
  }

  // ---------------------------------------------------------------- the import

  /** Sheets by name after appending `added` in order. */
  function Added(m: map<string, Page>, added: seq<NewSheet>): map<string, Page> {
    if added == [] then m
    else
      var last := added[|added| - 1];
      Added(m, added[..|added| - 1])[last.name := Page(last.cells, last.maxRow)]
  }

  lemma {:induction false} AddedAppend(m: map<string, Page>, a: seq<NewSheet>, b: seq<NewSheet>)
    ensures Added(m, a + b) == Added(Added(m, a), b)
    decreases |b|
  {
    if b == [] {
      assert a + b == a;
    } else {
      assert (a + b)[..|a + b| - 1] == a + b[..|b| - 1];
      AddedAppend(m, a, b[..|b| - 1]);
    }
  }

  /** One iteration of the per-sheet loop: pick a free name, create the sheet,
      add the name to the running set, and copy the cells. */
  method ImportSheet(wb: Workbook, existing: set<string>, sheet: SourceSheet, cells: Grid)
    returns (name: string)
    requires wb.Valid() && existing == wb.sheets.Keys && Fits(cells, sheet.maxRow)
    modifies wb
    ensures wb.Valid() && wb.sheets.Keys == existing + {name}
    ensures name == FreeName(sheet.title, existing)
    ensures wb.sheetNames == old(wb.sheetNames) + [name]
    ensures wb.Contents() == old(wb.Contents())[name := Page(cells, sheet.maxRow)]
  {
    ghost var before := wb.Contents();
    name := UniqueName(sheet.title, existing);
    assert wb.Contents() == before;
    wb.CreateSheet(name, cells, sheet.maxRow);
  }

  /** A sheet whose name none of `added` takes keeps its contents. */
  lemma {:induction false} AddedKeeps(m: map<string, Page>, added: seq<NewSheet>, n: string)
    requires forall i :: 0 <= i < |added| ==> added[i].name != n
    ensures n in Added(m, added) <==> n in m
    ensures n in m ==> Added(m, added)[n] == m[n]
  {
    if added != [] {
      AddedKeeps(m, added[..|added| - 1], n);
    }
  }

  /** Each appended sheet, its name being fresh, holds what was copied into
      it. */
  lemma {:induction false} AddedFinds(m: map<string, Page>, existing: set<string>,
                                      added: seq<NewSheet>, i: nat)
    requires FreshNames(existing, added) && i < |added|
    ensures added[i].name in Added(m, added)
    ensures Added(m, added)[added[i].name] == Page(added[i].cells, added[i].maxRow)
  {
    var pre := added[..|added| - 1];
    if i < |added| - 1 {
      assert FreshNames(existing, pre);
      AddedFinds(m, existing, pre, i);
    }
  }

  /** After the merge, every sheet the workbook had keeps its contents and
      every imported sheet is found under its new name with its cells. */
  lemma MergedContents(m: map<string, Page>, files: seq<SourceFile>)
    ensures var added := AllSheets(m.Keys, files, |files|);
            (forall n :: n in m ==> n in Added(m, added) && Added(m, added)[n] == m[n]) &&
            (forall i :: 0 <= i < |added| ==>
               added[i].name in Added(m, added) &&
               Added(m, added)[added[i].name] == Page(added[i].cells, added[i].maxRow))
  {
    var added := AllSheets(m.Keys, files, |files|);
    AllSheetsFresh(m.Keys, files, |files|);
    forall n | n in m ensures n in Added(m, added) && Added(m, added)[n] == m[n] {
      AddedKeeps(m, added, n);
    }
    forall i | 0 <= i < |added|
      ensures added[i].name in Added(m, added) &&
              Added(m, added)[added[i].name] == Page(added[i].cells, added[i].maxRow)
    {
      AddedFinds(m, m.Keys, added, i);
    }
  }

  lemma CopiedNext(existing: set<string>, sheets: seq<SourceSheet>, n: nat)
    requires n < |sheets|
    ensures Copied(existing, sheets, n + 1) ==
            Copied(existing, sheets, n) +
            [NewSheet(FreeName(sheets[n].title, existing + Seen(Copied(existing, sheets, n))),
                      sheets[n].cells, sheets[n].maxRow)]
  {
  }

  lemma {:induction false} SeenAppend(a: seq<NewSheet>, b: seq<NewSheet>)
    ensures Seen(a + b) == Seen(a) + Seen(b)
    decreases |b|
  {
    if b == [] {
      assert a + b == a;
    } else {
      assert (a + b)[..|a + b| - 1] == a + b[..|b| - 1];
      SeenAppend(a, b[..|b| - 1]);
    }
  }

  lemma {:induction false} TabsAppend(before: seq<string>, a: seq<NewSheet>, b: seq<NewSheet>)
    ensures Tabs(before, a + b) == Tabs(Tabs(before, a), b)
    decreases |b|
  {
    if b == [] {
      assert a + b == a;
    } else {
      assert (a + b)[..|a + b| - 1] == a + b[..|b| - 1];
      TabsAppend(before, a, b[..|b| - 1]);
    }
  }

  /** Appending one more sheet. */
  lemma AppendOne(m: map<string, Page>, before: seq<string>, a: seq<NewSheet>, x: NewSheet)
    ensures Added(m, a + [x]) == Added(m, a)[x.name := Page(x.cells, x.maxRow)]
    ensures Seen(a + [x]) == Seen(a) + {x.name}
    ensures Tabs(before, a + [x]) == Tabs(before, a) + [x.name]
  {
    assert (a + [x])[..|a|] == a;
  }

  lemma FaultSheets(existing: set<string>, sheets: seq<SourceSheet>, fault: Fault)
    requires fault.FailsAt? && fault.at < |sheets|
    ensures var pre := Copied(existing, sheets, fault.at);
            var s := sheets[fault.at];
            FileSheets(existing, Readable(sheets, fault)) ==
              pre + [NewSheet(FreeName(s.title, existing + Seen(pre)), fault.copied, s.maxRow)]
  {
  }

  lemma WholeSheets(existing: set<string>, sheets: seq<SourceSheet>, fault: Fault)
    requires fault.FailsAt? ==> fault.at >= |sheets|
    ensures FileSheets(existing, Readable(sheets, fault)) == Copied(existing, sheets, |sheets|)
  {
  }

  /** The workbook holds what it held at the start, `start` by name and
      `before` in tab order, followed by the sheets `done`, whose names are
      new beside `existing`. */
  ghost predicate Appended(wb: Workbook, existing: set<string>, start: map<string, Page>,
                           before: seq<string>, done: seq<NewSheet>)
    reads wb, wb.sheets.Values
  {
    wb.Valid() && wb.sheets.Keys == existing + Seen(done) &&
    wb.sheetNames == Tabs(before, done) && wb.Contents() == Added(start, done)
  }

  /** `ImportSheet` seen against the sheets appended so far. */
  method AppendSheet(wb: Workbook, used: set<string>, sheet: SourceSheet, cells: Grid,
                     ghost existing: set<string>, ghost start: map<string, Page>,
                     ghost before: seq<string>, ghost done: seq<NewSheet>)
    returns (name: string)
    requires Appended(wb, existing, start, before, done) && used == wb.sheets.Keys
    requires Fits(cells, sheet.maxRow)
    modifies wb
    ensures name == FreeName(sheet.title, existing + Seen(done))
    ensures Appended(wb, existing, start, before, done + [NewSheet(name, cells, sheet.maxRow)])
  {
    assert used == existing + Seen(done) && wb.sheetNames == Tabs(before, done);
    name := ImportSheet(wb, used, sheet, cells);
    var next := NewSheet(name, cells, sheet.maxRow);
    AppendOne(start, before, done, next);
    assert wb.sheets.Keys == existing + Seen(done + [next]);
    assert wb.sheetNames == Tabs(before, done + [next]);
  }

  /** One whole sheet copied: the sheets appended so far stay those of
      `Copied`. */
  method CopyNext(wb: Workbook, sheets: seq<SourceSheet>, i: nat,
                  ghost existing: set<string>, ghost start: map<string, Page>,
                  ghost before: seq<string>)
    requires i < |sheets| && Fits(sheets[i].cells, sheets[i].maxRow)
    requires Appended(wb, existing, start, before, Copied(existing, sheets, i))
    modifies wb
    ensures Appended(wb, existing, start, before, Copied(existing, sheets, i + 1))
  {
    ghost var done := Copied(existing, sheets, i);
    var name := AppendSheet(wb, wb.sheets.Keys, sheets[i], sheets[i].cells, existing, start, before, done);
    CopiedNext(existing, sheets, i);
  }

  /** The per-sheet loop run over the first `n` sheets of a loaded file. */
  method CopySheets(wb: Workbook, existing: set<string>, sheets: seq<SourceSheet>, n: nat)
    returns (names: set<string>)
    requires wb.Valid() && existing == wb.sheets.Keys && n <= |sheets|
    requires forall i :: 0 <= i < |sheets| ==> Fits(sheets[i].cells, sheets[i].maxRow)
    modifies wb
    ensures names == wb.sheets.Keys
    ensures Appended(wb, existing, old(wb.Contents()), old(wb.sheetNames), Copied(existing, sheets, n))
  {
    ghost var start := wb.Contents();
    ghost var before := wb.sheetNames;
    for i := 0 to n
      invariant Appended(wb, existing, start, before, Copied(existing, sheets, i))
    {
      CopyNext(wb, sheets, i, existing, start, before);
    }
    names := wb.sheets.Keys;
  }

  /** The body of the `try` for one file: load it, then copy its sheets in
      order; an exception ends the file's import where it arises, leaving the
      sheets copied so far, and the one being copied holds what was copied of
      it. */
  method ImportFile(wb: Workbook, existing: set<string>, file: SourceFile)
    returns (ok: bool, names: set<string>)
    requires wb.Valid() && existing == wb.sheets.Keys && WellFormed(file)
    modifies wb
    ensures ok == Succeeds(file) && names == wb.sheets.Keys
    ensures Appended(wb, existing, old(wb.Contents()), old(wb.sheetNames), FileSheets(existing, file))
  {
    ghost var start := wb.Contents();
    ghost var before := wb.sheetNames;
    match file
    case Unreadable =>
      ok, names := false, existing;
    case Readable(sheets, fault) =>
      if fault.FailsAt? && fault.at < |sheets| {
        var k := fault.at;
        names := CopySheets(wb, existing, sheets, k);
        ghost var done := Copied(existing, sheets, k);
        var name := AppendSheet(wb, names, sheets[k], fault.copied, existing, start, before, done);
        names := wb.sheets.Keys;
        FaultSheets(existing, sheets, fault);
        ok := false;
      } else {
        names := CopySheets(wb, existing, sheets, |sheets|);
        WholeSheets(existing, sheets, fault);
        ok := fault.NoFault?;
      }
  }

  /** Sheets appended in two runs, one after the other. */
  lemma AppendRuns(m: map<string, Page>, before: seq<string>, existing: set<string>,
                   a: seq<NewSheet>, b: seq<NewSheet>)
    ensures Added(m, a + b) == Added(Added(m, a), b)
    ensures existing + Seen(a + b) == (existing + Seen(a)) + Seen(b)
    ensures Tabs(before, a + b) == Tabs(Tabs(before, a), b)
  {
    AddedAppend(m, a, b);
    SeenAppend(a, b);
    TabsAppend(before, a, b);
  }

  /** One iteration of the loop over the candidate files: the sheets appended
      so far stay those of `AllSheets`, and the count goes up by one exactly
      when the file imports without an exception. */
  method ImportNext(wb: Workbook, files: seq<SourceFile>, i: nat, used: set<string>, count: nat,
                    ghost existing: set<string>, ghost start: map<string, Page>,
                    ghost before: seq<string>)
    returns (names: set<string>, imported: nat)
    requires i < |files| && WellFormed(files[i]) && used == wb.sheets.Keys
    requires count == Successes(files, i)
    requires Appended(wb, existing, start, before, AllSheets(existing, files, i))
    modifies wb
    ensures imported == Successes(files, i + 1) && names == wb.sheets.Keys
    ensures Appended(wb, existing, start, before, AllSheets(existing, files, i + 1))
  {
    ghost var done := AllSheets(existing, files, i);
    var ok;
    ok, names := ImportFile(wb, used, files[i]);
    ghost var more := FileSheets(used, files[i]);
    assert AllSheets(existing, files, i + 1) == done + more;
    AppendRuns(start, before, existing, done, more);
    imported := if ok then count + 1 else count;
  }

  /** The loop over the candidate workbooks, with the running count. */
  method ImportFiles(wb: Workbook, files: seq<SourceFile>) returns (imported: nat)
    requires wb.Valid() && forall i :: 0 <= i < |files| ==> WellFormed(files[i])
    modifies wb
    ensures imported == Successes(files, |files|)
    ensures Appended(wb, old(wb.sheets.Keys), old(wb.Contents()), old(wb.sheetNames),
                  AllSheets(old(wb.sheets.Keys), files, |files|))
  {
    ghost var start := wb.Contents();
    ghost var before := wb.sheetNames;
    var existing := wb.sheets.Keys;
    ghost var initial := existing;
    imported := 0;
    for i := 0 to |files|
      invariant imported == Successes(files, i) && existing == wb.sheets.Keys
      invariant Appended(wb, initial, start, before, AllSheets(initial, files, i))
    {
      existing, imported := ImportNext(wb, files, i, existing, imported, initial, start, before);
    }
  }

  /** The count `import_existing_sheets` returns is at most the number of
      candidate workbooks, is 0 when there is none, and falls short of it
      exactly when some candidate raises. */
  lemma ImportedCount(listing: seq<string>, books: map<string, SourceFile>)
    ensures var files := Files(Candidates(listing), books);
            Successes(files, |files|) <= |Candidates(listing)| <= |listing| &&
            (Candidates(listing) == [] ==> Successes(files, |files|) == 0) &&
            (Successes(files, |files|) < |Candidates(listing)| <==>
               exists i :: 0 <= i < |files| && !Succeeds(files[i]))
  {
  }

  /** `import_existing_sheets`: every sheet of every candidate workbook is
      appended under a free name, in listing and tab order; a workbook that
      raises keeps what it added before raising and is not counted. The
      result is the number of workbooks imported without an exception. */
  method ImportExistingSheets(wb: Workbook, listing: seq<string>, books: map<string, SourceFile>)
    returns (imported: nat)
    requires wb.Valid()
    requires forall name :: name in books ==> WellFormed(books[name])
    modifies wb
    ensures var files := Files(Candidates(listing), books);
            imported == Successes(files, |files|) &&
            Appended(wb, old(wb.sheets.Keys), old(wb.Contents()), old(wb.sheetNames),
                  AllSheets(old(wb.sheets.Keys), files, |files|))
  {
    ghost var start := wb.Contents();
    var excelFiles := FindCandidates(listing);
    assert wb.Contents() == start;
    if excelFiles == [] {
      assert wb.sheets.Keys == wb.sheets.Keys + Seen([]);
      return 0;
    }
    imported := ImportFiles(wb, Files(excelFiles, books));
  }
}
