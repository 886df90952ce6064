/** The metric engine, `calculate_metric`: one count per calculation over the
    loaded crawl exports, degrading to 0 whenever its input is missing. */
module Metrics {
  import opened Text
  import opened Table
  import opened Catalog

  /** The loaded exports, by file name (`screaming_frog_data`). */
  type Store = map<string, Dataset>

  datatype Option<T> = None | Some(value: T)

  const StatusCode := "Status Code"
  const Indexability := "Indexability"
  const Canonical := "Canonical Link Element 1"
  const ContentType := "Content Type"
  const Address := "Address"
  const MetaRobots := "Meta Robots 1"
  const Title := "Title 1"
  const TitleLength := "Title 1 Length"
  const MetaDescription := "Meta Description 1"
  const MetaDescriptionLength := "Meta Description 1 Length"
  const H1 := "H1-1"
  const SecondH1 := "H1-2"
  const AltText := "Alt Text"
  const Size := "Size (Bytes)"

  predicate HasColumn(d: Dataset, col: string) {
    col in d.columns
  }

  /** Whether every column the calculation checks for is in the file. */
  predicate HasRequired(d: Dataset, k: Kind) {
    forall col :: col in Required(k) ==> HasColumn(d, col)
  }

  /** The columns a calculation checks for before it evaluates its mask. */
  function Required(k: Kind): set<string> {
    match k
    case Non200InSitemap => {StatusCode}
    case NonIndexableInSitemap => {Indexability}
    case MissingCanonical => {Canonical}
    case CanonicalisedPages => {Canonical, Address}
    case CanonicalDifferentDomain => {Canonical, Address}
    case PagesWithNoindex => {MetaRobots}
    case PagesWithNofollow => {MetaRobots}
    case RobotsTxtBlocked => {Indexability}
    case MissingPageTitles => {Title}
    case DuplicatePageTitles => {Title}
    case LongPageTitles => {TitleLength}
    case ShortPageTitles => {TitleLength}
    case MissingMetaDescriptions => {MetaDescription}
    case DuplicateMetaDescriptions => {MetaDescription}
    case LongMetaDescriptions => {MetaDescriptionLength}
    case ShortMetaDescriptions => {MetaDescriptionLength}
    case MissingH1 => {H1}
    case DuplicateH1 => {H1}
    case MultipleH1 => {SecondH1}
    case ImagesMissingAlt => {AltText}
    case ImagesOver100kb => {Size}
    case BrokenImages => {StatusCode}
    case Client4xxErrors => {StatusCode}
    case Server5xxErrors => {StatusCode}
    case Status404Count => {StatusCode}
    case TemporaryRedirects => {StatusCode}
    case _ => {}
  }

  /** Non-blank values appearing on at least two non-blank rows. */
  function Duplicates(d: Dataset, col: string): Test {
    Repeated(col, NonBlankValues(d.rows, col))
  }

  /** The mask a per-row calculation counts, or None for a calculation that
      counts no rows of its own file. */
  function Mask(k: Kind, d: Dataset): Option<Test> {
    match k
    case Non200InSitemap => Some(IsNot(StatusCode, Num(200)))
    case NonIndexableInSitemap => Some(IsNot(Indexability, Str("Indexable")))
    case MissingCanonical =>
      if HasColumn(d, ContentType)
      then Some(And(Matches(ContentType, "text/html", false), Missing(Canonical)))
      else Some(Missing(Canonical))
    case CanonicalisedPages => Some(And(Present(Canonical), DiffersFrom(Canonical, Address)))
    case CanonicalDifferentDomain => Some(And(Present(Canonical), OtherDomain(Canonical, Address)))
    case PagesWithNoindex => Some(Matches(MetaRobots, "noindex", true))
    case PagesWithNofollow => Some(Matches(MetaRobots, "nofollow", true))
    case RobotsTxtBlocked => Some(Matches(Indexability, "Blocked by robots.txt", true))
    case MissingPageTitles => Some(Blank(Title))
    case DuplicatePageTitles => Some(Duplicates(d, Title))
    case LongPageTitles => Some(Above(TitleLength, 60))
    case ShortPageTitles => Some(And(Below(TitleLength, 30), Above(TitleLength, 0)))
    case MissingMetaDescriptions => Some(Blank(MetaDescription))
    case DuplicateMetaDescriptions => Some(Duplicates(d, MetaDescription))
    case LongMetaDescriptions => Some(Above(MetaDescriptionLength, 160))
    case ShortMetaDescriptions => Some(And(Below(MetaDescriptionLength, 120), Above(MetaDescriptionLength, 0)))
    case MissingH1 => Some(Blank(H1))
    case DuplicateH1 => Some(Duplicates(d, H1))
    case MultipleH1 => Some(Present(SecondH1))
    case ImagesMissingAlt => Some(Blank(AltText))
    case ImagesOver100kb => Some(Above(Size, 100000))
    case BrokenImages => Some(IsNot(StatusCode, Num(200)))
    case Client4xxErrors => Some(And(AtLeast(StatusCode, 400), Below(StatusCode, 500)))
    case Server5xxErrors => Some(AtLeast(StatusCode, 500))
    case Status404Count => Some(Is(StatusCode, Num(404)))
    case TemporaryRedirects => Some(Or(Is(StatusCode, Num(302)), Is(StatusCode, Num(307))))
    case _ => None
  }

  /** `calculate_metric(file, kind)`. */
  function Metric(store: Store, file: string, k: Kind): (n: nat)
    ensures file !in store ==> n == 0
    ensures !k.Computed() ==> n == 0
    ensures file in store && !HasRequired(store[file], k) ==> n == 0
    ensures file in store && k != RedirectChains && k != RedirectLoops ==> n <= |store[file].rows|
    ensures k == RedirectChains && file in store ==> n == if Chains in store then |store[Chains].rows| else 0
    ensures k == RedirectLoops && file in store ==> n == if Loops in store then |store[Loops].rows| else 0
    ensures (file in store && Mask(k, store[file]).Some? &&
             AnyRaises(store[file].rows, Mask(k, store[file]).value)) ==> n == 0
  {
    if file !in store || !k.Computed() then 0
    else if k == RedirectChains then (if Chains in store then |store[Chains].rows| else 0)
    else if k == RedirectLoops then (if Loops in store then |store[Loops].rows| else 0)
    else if !HasRequired(store[file], k) then 0
    else
      match Mask(k, store[file])
      case None => 0
      case Some(t) => CountOrZero(store[file].rows, t)
  }

  /** A per-row calculation on a loaded file with its columns counts its mask. */
  lemma MetricCounts(store: Store, file: string, k: Kind, t: Test)
    requires file in store && HasRequired(store[file], k) && k.Computed()
    requires k != RedirectChains && k != RedirectLoops
    requires Mask(k, store[file]) == Some(t)
    ensures Metric(store, file, k) == CountOrZero(store[file].rows, t)
  {
  }

  /** The calculation an audit item's catalog entry asks for. */
  function ItemMetric(store: Store, e: Entry): nat {
    Metric(store, e.file, e.calculation)
  }

  // ---------------------------------------------------------------- properties

  /** The number of rows of a loaded file, or 0. */
  function Rows(store: Store, file: string): nat {
    if file in store then |store[file].rows| else 0
  }

  /** The field a missing/duplicate pair of calculations looks at. */
  function FieldOf(k: Kind): string {
    if k in {MissingPageTitles, DuplicatePageTitles} then Title
    else if k in {MissingMetaDescriptions, DuplicateMetaDescriptions} then MetaDescription
    else H1
  }

  /** A blank field and a repeated non-blank field are different rows. */
  lemma BlankRepeatedRows(rows: seq<Row>, col: string, m: multiset<Cell>)
    ensures CountOrZero(rows, Blank(col)) + CountOrZero(rows, Repeated(col, m)) <= |rows|
  {
    CountDisjoint(rows, Blank(col), Repeated(col, m));
  }

  /** Rows with a blank field and rows whose field repeats are different rows. */
  lemma MissingAndDuplicates(store: Store, file: string, missing: Kind, duplicate: Kind)
    requires (missing, duplicate) in {(MissingPageTitles, DuplicatePageTitles),
                                      (MissingMetaDescriptions, DuplicateMetaDescriptions),
                                      (MissingH1, DuplicateH1)}
    ensures Metric(store, file, missing) + Metric(store, file, duplicate) <= Rows(store, file)
  {
    if file in store && HasRequired(store[file], missing) {
      var d := store[file];
      var col := FieldOf(missing);
      MetricCounts(store, file, missing, Blank(col));
      MetricCounts(store, file, duplicate, Duplicates(d, col));
      BlankRepeatedRows(d.rows, col, NonBlankValues(d.rows, col));
    }
  }

  /** A duplicate count is never exactly one. */
  lemma DuplicatesNeverOne(store: Store, file: string, k: Kind)
    requires k in {DuplicatePageTitles, DuplicateMetaDescriptions, DuplicateH1}
    ensures Metric(store, file, k) != 1
  {
    if file in store && HasRequired(store[file], k) {
      var d := store[file];
      MetricCounts(store, file, k, Duplicates(d, FieldOf(k)));
      RepeatedNeverOne(d.rows, FieldOf(k));
    }
  }

  /** Every copy of a repeated non-blank value is counted as a duplicate. */
  lemma DuplicatesCountEveryCopy(store: Store, file: string, k: Kind, v: Cell)
    requires k in {DuplicatePageTitles, DuplicateMetaDescriptions, DuplicateH1}
    requires file in store && HasColumn(store[file], FieldOf(k))
    requires !IsBlank(v) && NonBlankValues(store[file].rows, FieldOf(k))[v] >= 2
    ensures Metric(store, file, k) >= NonBlankValues(store[file].rows, FieldOf(k))[v]
  {
    var d := store[file];
    MetricCounts(store, file, k, Duplicates(d, FieldOf(k)));
    RepeatedKeepsAllCopies(d.rows, FieldOf(k), v);
  }

  /** A length above `high` and a positive length below `low <= high + 1`
      are different rows; if either comparison raises, both do. */
  lemma LongShortRows(rows: seq<Row>, col: string, high: int, low: int)
    requires low <= high + 1
    ensures CountOrZero(rows, Above(col, high)) + CountOrZero(rows, And(Below(col, low), Above(col, 0))) <= |rows|
  {
    var l, s := Above(col, high), And(Below(col, low), Above(col, 0));
    if AnyRaises(rows, l) {
      var i :| 0 <= i < |rows| && Raises(l, rows[i]);
      assert Raises(s, rows[i]);
    } else {
      CountDisjoint(rows, l, s);
    }
  }

  /** A length can be long or short, not both. */
  lemma LongAndShort(store: Store, file: string, long: Kind, short: Kind)
    requires (long, short) in {(LongPageTitles, ShortPageTitles),
                               (LongMetaDescriptions, ShortMetaDescriptions)}
    ensures Metric(store, file, long) + Metric(store, file, short) <= Rows(store, file)
  {
    if file in store && HasRequired(store[file], long) {
      var d := store[file];
      var titles := long == LongPageTitles;
      var col := if titles then TitleLength else MetaDescriptionLength;
      var high, low := if titles then 60 else 160, if titles then 30 else 120;
      MetricCounts(store, file, long, Above(col, high));
      MetricCounts(store, file, short, And(Below(col, low), Above(col, 0)));
      LongShortRows(d.rows, col, high, low);
    }
  }

  /** Status codes 400-499 and codes from 500 on are different rows. */
  lemma ClientServerRows(rows: seq<Row>)
    ensures CountOrZero(rows, And(AtLeast(StatusCode, 400), Below(StatusCode, 500)))
          + CountOrZero(rows, AtLeast(StatusCode, 500)) <= |rows|
  {
    var c, s := And(AtLeast(StatusCode, 400), Below(StatusCode, 500)), AtLeast(StatusCode, 500);
    if !AnyRaises(rows, c) && !AnyRaises(rows, s) {
      CountDisjoint(rows, c, s);
    }
  }

  /** Client errors (400-499) and server errors (500 and up) are different rows. */
  lemma ClientAndServerErrors(store: Store, file: string)
    ensures Metric(store, file, Client4xxErrors) + Metric(store, file, Server5xxErrors) <= Rows(store, file)
  {
    if file in store && HasRequired(store[file], Client4xxErrors) {
      var d := store[file];
      MetricCounts(store, file, Client4xxErrors, And(AtLeast(StatusCode, 400), Below(StatusCode, 500)));
      MetricCounts(store, file, Server5xxErrors, AtLeast(StatusCode, 500));
      ClientServerRows(d.rows);
    }
  }

  /** A column as `read_csv(low_memory=False)` types it, as a whole: all text
      or all numbers, besides missing values. */
  predicate Uniform(rows: seq<Row>, col: string) {
    (forall i :: 0 <= i < |rows| ==> !Get(rows[i], col).Str?) ||
    (forall i :: 0 <= i < |rows| ==> !Get(rows[i], col).Num?)
  }

  /** A status column in which a comparison raised holds no number. */
  lemma NoNotFoundInTextColumn(rows: seq<Row>)
    requires Uniform(rows, StatusCode)
    requires AnyRaises(rows, And(AtLeast(StatusCode, 400), Below(StatusCode, 500)))
    ensures Count(rows, Is(StatusCode, Num(404))) == 0
  {
    var i :| 0 <= i < |rows| && Raises(And(AtLeast(StatusCode, 400), Below(StatusCode, 500)), rows[i]);
    assert Raises(AtLeast(StatusCode, 400), rows[i]) || Raises(Below(StatusCode, 500), rows[i]);
    assert Get(rows[i], StatusCode).Str?;
    assert forall j :: 0 <= j < |rows| ==> !Get(rows[j], StatusCode).Num?;
  }

  /** In a uniform status column, rows equal to 404 are among those in 400-499. */
  lemma NotFoundRows(rows: seq<Row>)
    requires Uniform(rows, StatusCode)
    ensures CountOrZero(rows, Is(StatusCode, Num(404)))
         <= CountOrZero(rows, And(AtLeast(StatusCode, 400), Below(StatusCode, 500)))
  {
    var c, nf := And(AtLeast(StatusCode, 400), Below(StatusCode, 500)), Is(StatusCode, Num(404));
    assert !AnyRaises(rows, nf);
    if AnyRaises(rows, c) {
      NoNotFoundInTextColumn(rows);
    } else {
      CountMono(rows, nf, c);
    }
  }

  /** A status column without numbers has no row equal to 404 and no row in
      400-499. */
  lemma TextStatusRows(rows: seq<Row>)
    requires forall i :: 0 <= i < |rows| ==> !Get(rows[i], StatusCode).Num?
    ensures CountOrZero(rows, Is(StatusCode, Num(404))) == 0
    ensures CountOrZero(rows, And(AtLeast(StatusCode, 400), Below(StatusCode, 500))) == 0
  {
    var c, nf := And(AtLeast(StatusCode, 400), Below(StatusCode, 500)), Is(StatusCode, Num(404));
    assert forall i :: 0 <= i < |rows| ==> !Holds(nf, rows[i]);
    assert forall i :: 0 <= i < |rows| ==> !Holds(c, rows[i]);
  }

  /** In a status column without numbers, as `read_csv` types a text column,
      neither the 404 count nor the client-error count is above 0. */
  lemma TextStatusCountsNothing(store: Store, file: string)
    requires file in store ==>
               forall i :: 0 <= i < |store[file].rows| ==> !Get(store[file].rows[i], StatusCode).Num?
    ensures Metric(store, file, Status404Count) == 0
    ensures Metric(store, file, Client4xxErrors) == 0
  {
    if file in store && HasRequired(store[file], Status404Count) {
      MetricCounts(store, file, Client4xxErrors, And(AtLeast(StatusCode, 400), Below(StatusCode, 500)));
      MetricCounts(store, file, Status404Count, Is(StatusCode, Num(404)));
      TextStatusRows(store[file].rows);
    }
  }

  /** In a uniform status column, 404s are among the client errors. */
  lemma NotFoundAmongClientErrors(store: Store, file: string)
    requires file in store ==> Uniform(store[file].rows, StatusCode)
    ensures Metric(store, file, Status404Count) <= Metric(store, file, Client4xxErrors)
  {
    if file in store && HasRequired(store[file], Status404Count) {
      var d := store[file];
      MetricCounts(store, file, Client4xxErrors, And(AtLeast(StatusCode, 400), Below(StatusCode, 500)));
      MetricCounts(store, file, Status404Count, Is(StatusCode, Num(404)));
      NotFoundRows(d.rows);
    }
  }

  /** Without uniformity the inclusion fails: a text status makes the
      client-error comparison raise, so that count is 0, while `== 404`
      does not raise. */
  lemma MixedStatusRows()
    ensures var rows := [map[StatusCode := Num(404)], map[StatusCode := Str("n/a")]];
            CountOrZero(rows, Is(StatusCode, Num(404))) == 1 &&
            CountOrZero(rows, And(AtLeast(StatusCode, 400), Below(StatusCode, 500))) == 0
  {
    var rows := [map[StatusCode := Num(404)], map[StatusCode := Str("n/a")]];
    var c, nf := And(AtLeast(StatusCode, 400), Below(StatusCode, 500)), Is(StatusCode, Num(404));
    assert Raises(c, rows[1]);
    assert !AnyRaises(rows, nf);
    assert rows[1..][1..] == [];
  }

  /** The same failure through `calculate_metric`, on a table that mixes
      numbers and text in one column, which the loader never produces. */
  lemma MixedStatusColumn()
    ensures var d := Dataset([StatusCode], [map[StatusCode := Num(404)], map[StatusCode := Str("n/a")]]);
            var store := map[Internal := d];
            Metric(store, Internal, Status404Count) == 1 && Metric(store, Internal, Client4xxErrors) == 0
  {
    var d := Dataset([StatusCode], [map[StatusCode := Num(404)], map[StatusCode := Str("n/a")]]);
    var store := map[Internal := d];
    MetricCounts(store, Internal, Client4xxErrors, And(AtLeast(StatusCode, 400), Below(StatusCode, 500)));
    MetricCounts(store, Internal, Status404Count, Is(StatusCode, Num(404)));
    MixedStatusRows();
  }

  lemma NeverRaises(rows: seq<Row>, t: Test)
    requires t.And? && !t.left.Above? && !t.left.Below? && !t.left.AtLeast? && !t.left.And? && !t.left.Or?
    requires !t.right.Above? && !t.right.Below? && !t.right.AtLeast? && !t.right.And? && !t.right.Or?
    ensures !AnyRaises(rows, t)
  {
    forall i | 0 <= i < |rows| ensures !Raises(t, rows[i]) {
      assert !Raises(t.left, rows[i]) && !Raises(t.right, rows[i]);
    }
  }

  lemma OtherDomainDiffers(r: Row)
    ensures Holds(OtherDomain(Canonical, Address), r) ==> Holds(DiffersFrom(Canonical, Address), r)
  {
  }

  /** A canonical on another domain is a canonical different from the address. */
  lemma CrossDomainIsCanonicalised(store: Store, file: string)
    ensures Metric(store, file, CanonicalDifferentDomain) <= Metric(store, file, CanonicalisedPages)
  {
    if file in store && HasRequired(store[file], CanonicalisedPages) {
      var d := store[file];
      var x := And(Present(Canonical), OtherDomain(Canonical, Address));
      var y := And(Present(Canonical), DiffersFrom(Canonical, Address));
      MetricCounts(store, file, CanonicalDifferentDomain, x);
      MetricCounts(store, file, CanonicalisedPages, y);
      NeverRaises(d.rows, x);
      NeverRaises(d.rows, y);
      forall i | 0 <= i < |d.rows| && Holds(x, d.rows[i]) ensures Holds(y, d.rows[i]) {
        OtherDomainDiffers(d.rows[i]);
      }
      CountMono(d.rows, x, y);
    }
  }

  /** Missing canonicals are rows whose canonical is null, and only HTML
      pages where the file says what each page's content type is. */
  lemma MissingCanonicalCountsNullHtml(store: Store, file: string)
    requires file in store
    ensures Metric(store, file, MissingCanonical) <= Count(store[file].rows, Missing(Canonical))
    ensures HasColumn(store[file], ContentType) ==>
      Metric(store, file, MissingCanonical) <= Count(store[file].rows, Matches(ContentType, "text/html", false))
    ensures HasColumn(store[file], Canonical) ==>
      Metric(store, file, MissingCanonical) ==
        Count(store[file].rows,
              if HasColumn(store[file], ContentType)
              then And(Matches(ContentType, "text/html", false), Missing(Canonical))
              else Missing(Canonical))
  {
    var d := store[file];
    if HasRequired(d, MissingCanonical) {
      var html := Matches(ContentType, "text/html", false);
      if HasColumn(d, ContentType) {
        MetricCounts(store, file, MissingCanonical, And(html, Missing(Canonical)));
        NeverRaises(d.rows, And(html, Missing(Canonical)));
        CountMono(d.rows, And(html, Missing(Canonical)), Missing(Canonical));
        CountMono(d.rows, And(html, Missing(Canonical)), html);
      } else {
        MetricCounts(store, file, MissingCanonical, Missing(Canonical));
      }
    }
  }
}
