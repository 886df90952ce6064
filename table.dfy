/** Crawl-export tables as pandas holds them after `read_csv`, and the boolean
    masks the metric engine builds over them (`df[mask]`, then `len`). */
module Table {
  import opened Text

  /** One scalar of a table: missing (NaN), text, or a number. */
  datatype Cell = Null | Str(text: string) | Num(value: int)

  /** One row: column header to value; a header the row lacks reads as missing. */
  type Row = map<string, Cell>

  /** A loaded CSV: its header line and its rows. */
  datatype Dataset = Dataset(columns: seq<string>, rows: seq<Row>)

  function Get(r: Row, col: string): Cell {
    if col in r then r[col] else Null
  }

  /** `isna() | (== '')`. */
  predicate IsBlank(c: Cell) {
    c == Null || c == Str("")
  }

  /** `str(x)` of a value of a pandas column: NaN prints as `nan`. */
  function SeriesText(c: Cell): string {
    match c
    case Null => "nan"
    case Str(s) => s
    case Num(n) => IntToString(n)
  }

  /** `get_domain(x)`, that is `urlparse(str(x)).netloc`: a missing value or
      a number has no network location, so only text can have a domain. */
  function Domain(c: Cell): (d: string)
    ensures c.Str? ==> d == Authority(c.text)
    ensures c.Null? || c.Num? ==> d == ""
  {
    var text := SeriesText(c);
    if c.Str? then Authority(text)
    else
      assert '/' !in text by {
        assert forall k :: 0 <= k < |text| ==> text[k] != '/';
      }
      NoSlashNoAuthority(text);
      Authority(text)
  }

  /** A boolean mask over the rows of one table, with pandas' treatment of a
      missing value: `!=` holds of it, every other comparison fails. */
  datatype Test =
    | Blank(col: string)                        // s.isna() | (s == '')
    | Missing(col: string)                      // s.isna()
    | Present(col: string)                      // s.notna()
    | Is(col: string, value: Cell)              // s == value
    | IsNot(col: string, value: Cell)           // s != value
    | DiffersFrom(col: string, other: string)   // s != df[other]
    | Above(col: string, bound: int)            // s > bound
    | Below(col: string, bound: int)            // s < bound
    | AtLeast(col: string, bound: int)          // s >= bound
    | Matches(col: string, pattern: string, caseless: bool)  // s.str.contains(pattern, na=False)
    | Repeated(col: string, counts: multiset<Cell>)          // duplicated(keep=False) among non-blank
    | OtherDomain(col: string, other: string)   // domain(s) != domain(df[other]) and domain(s) != ''
    | And(left: Test, right: Test)
    | Or(left: Test, right: Test)

  predicate Holds(t: Test, r: Row) {
    match t
    case Blank(col) => IsBlank(Get(r, col))
    case Missing(col) => Get(r, col) == Null
    case Present(col) => Get(r, col) != Null
    case Is(col, v) => v != Null && Get(r, col) == v
    case IsNot(col, v) => v == Null || Get(r, col) != v
    case DiffersFrom(col, other) =>
      Get(r, col) == Null || Get(r, other) == Null || Get(r, col) != Get(r, other)
    case Above(col, b) => Get(r, col).Num? && Get(r, col).value > b
    case Below(col, b) => Get(r, col).Num? && Get(r, col).value < b
    case AtLeast(col, b) => Get(r, col).Num? && Get(r, col).value >= b
    case Matches(col, p, caseless) => Get(r, col).Str? && Search(Get(r, col).text, p, caseless)
    case Repeated(col, m) => !IsBlank(Get(r, col)) && m[Get(r, col)] >= 2
    case OtherDomain(col, other) =>
      Domain(Get(r, col)) != Domain(Get(r, other)) && Domain(Get(r, col)) != ""
    case And(a, b) => Holds(a, r) && Holds(b, r)
    case Or(a, b) => Holds(a, r) || Holds(b, r)
  }

  /** Whether evaluating the mask on this row raises: an ordering comparison
      between text and a number is a `TypeError`; `&` and `|` evaluate both sides. */
  predicate Raises(t: Test, r: Row) {
    match t
    case Above(col, _) => Get(r, col).Str?
    case Below(col, _) => Get(r, col).Str?
    case AtLeast(col, _) => Get(r, col).Str?
    case And(a, b) => Raises(a, r) || Raises(b, r)
    case Or(a, b) => Raises(a, r) || Raises(b, r)
    case _ => false
  }

  /** `len(df[mask])`. */
  function Count(rows: seq<Row>, t: Test): (n: nat)
    ensures n <= |rows|
    ensures n == 0 <== (forall i :: 0 <= i < |rows| ==> !Holds(t, rows[i]))
    ensures n == |rows| <== (forall i :: 0 <= i < |rows| ==> Holds(t, rows[i]))
  {
    if rows == [] then 0
    else (if Holds(t, rows[0]) then 1 else 0) + Count(rows[1..], t)
  }

  predicate AnyRaises(rows: seq<Row>, t: Test) {
    exists i :: 0 <= i < |rows| && Raises(t, rows[i])
  }

  /** `len(df[mask])` inside the engine's `try`: a mask that raises on some
      row yields 0 for the whole calculation. */
  function CountOrZero(rows: seq<Row>, t: Test): (n: nat)
    ensures n <= Count(rows, t)
  {
    if AnyRaises(rows, t) then 0 else Count(rows, t)
  }

  /** The multiset of the non-blank values of a column. */
  function NonBlankValues(rows: seq<Row>, col: string): (m: multiset<Cell>)
    ensures |m| <= |rows|
    ensures forall v :: v in m ==> !IsBlank(v)
  {
    if rows == [] then multiset{}
    else
      (if IsBlank(Get(rows[0], col)) then multiset{} else multiset{Get(rows[0], col)})
      + NonBlankValues(rows[1..], col)
  }

  // ---------------------------------------------------------------- counting lemmas

  /** A mask implied by another selects at least as many rows. */
  lemma {:induction false} CountMono(rows: seq<Row>, s: Test, t: Test)
    requires forall i :: 0 <= i < |rows| && Holds(s, rows[i]) ==> Holds(t, rows[i])
    ensures Count(rows, s) <= Count(rows, t)
  {
    if rows != [] {
      var tail := rows[1..];
      forall i | 0 <= i < |tail| && Holds(s, tail[i]) ensures Holds(t, tail[i]) {
        assert tail[i] == rows[i + 1];
      }
      CountMono(tail, s, t);
    }
  }

  /** Two masks no row satisfies together select at most all rows between them. */
  lemma {:induction false} CountDisjoint(rows: seq<Row>, s: Test, t: Test)
    requires forall i :: 0 <= i < |rows| ==> !(Holds(s, rows[i]) && Holds(t, rows[i]))
    ensures Count(rows, s) + Count(rows, t) <= |rows|
  {
    if rows != [] {
      var tail := rows[1..];
      forall i | 0 <= i < |tail| ensures !(Holds(s, tail[i]) && Holds(t, tail[i])) {
        assert tail[i] == rows[i + 1];
      }
      CountDisjoint(tail, s, t);
      assert !(Holds(s, rows[0]) && Holds(t, rows[0]));
      assert Count(rows, s) == (if Holds(s, rows[0]) then 1 else 0) + Count(tail, s);
      assert Count(rows, t) == (if Holds(t, rows[0]) then 1 else 0) + Count(tail, t);
    }
  }

  /** A positive count has a row that satisfies the mask. */
  lemma {:induction false} CountWitness(rows: seq<Row>, t: Test) returns (i: nat)
    requires Count(rows, t) > 0
    ensures i < |rows| && Holds(t, rows[i])
  {
    if Holds(t, rows[0]) {
      i := 0;
    } else {
      var j := CountWitness(rows[1..], t);
      i := j + 1;
    }
  }

  /** Rows equal to a non-blank value are as many as that value's copies
      among the non-blank values. */
  lemma {:induction false} CountIs(rows: seq<Row>, col: string, v: Cell)
    requires !IsBlank(v)
    ensures Count(rows, Is(col, v)) == NonBlankValues(rows, col)[v]
  {
    if rows != [] {
      CountIs(rows[1..], col, v);
    }
  }

  /** `duplicated(keep=False)` over the non-blank rows keeps every copy of a
      repeated value, not just the copies after the first. */
  lemma RepeatedKeepsAllCopies(rows: seq<Row>, col: string, v: Cell)
    requires !IsBlank(v) && NonBlankValues(rows, col)[v] >= 2
    ensures Count(rows, Repeated(col, NonBlankValues(rows, col))) >= NonBlankValues(rows, col)[v]
  {
    var m := NonBlankValues(rows, col);
    CountIs(rows, col, v);
    CountMono(rows, Is(col, v), Repeated(col, m));
  }

  /** Hence a duplicate count is never exactly one. */
  lemma RepeatedNeverOne(rows: seq<Row>, col: string)
    ensures Count(rows, Repeated(col, NonBlankValues(rows, col))) != 1
  {
    var m := NonBlankValues(rows, col);
    if Count(rows, Repeated(col, m)) > 0 {
      var i := CountWitness(rows, Repeated(col, m));
      RepeatedKeepsAllCopies(rows, col, Get(rows[i], col));
    }
  }
}
