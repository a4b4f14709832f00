/**
 * The warehouse build of `main()`, from the frame read off the CSV file to
 * the fact rows and their missing-key counts: column lookup, cleaning, the
 * four dimension loads and the key resolution.
 *
 * `Build` states the whole run as a value; `BuildWarehouse` runs it step by
 * step, reassigning the frame after each stage and filling the dimension
 * tables in place, and is proved to produce what `Build` states.
 */
module Warehouse {
  import opened Wrappers
  import opened Records
  import opened Columns
  import opened Cleaning
  import opened Dimensions
  import opened Facts
  import opened Picks

  /** A cell of an input row, by header; a row without the header has a
      missing cell there. */
  function CellAt(row: map<string, Cell>, header: string): Cell {
    if header in row then row[header] else Blank
  }

  /** The eight required cells of every input row, in row order. */
  function Project(frame: seq<map<string, Cell>>, cols: ColumnMap): (r: seq<RawRow>)
    ensures |r| == |frame|
  {
    seq(|frame|, i requires 0 <= i < |frame| =>
      RawRow(CellAt(frame[i], cols.invoice), CellAt(frame[i], cols.stockCode),
        CellAt(frame[i], cols.description), CellAt(frame[i], cols.quantity),
        CellAt(frame[i], cols.invoiceDate), CellAt(frame[i], cols.price),
        CellAt(frame[i], cols.customerId), CellAt(frame[i], cols.country)))
  }

  /** The natural key of `dim_date`, `full_date`. The other three
      dimensions load exactly their natural-key columns, so each of their
      rows is its own key (`WholeRow`). */
  function DateKey(d: DateRow): Date { d.fullDate }

  /** The columns each dimension is loaded from (lines 157, 162, 172, 177). */
  function CustomerColumn(cleaned: seq<CleanRecord>): seq<string> {
    seq(|cleaned|, i requires 0 <= i < |cleaned| => cleaned[i].customerId)
  }

  function CountryColumn(cleaned: seq<CleanRecord>): seq<string> {
    seq(|cleaned|, i requires 0 <= i < |cleaned| => cleaned[i].country)
  }

  function ProductColumn(cleaned: seq<CleanRecord>): seq<ProductKey> {
    seq(|cleaned|, i requires 0 <= i < |cleaned| => ProductOf(cleaned[i]))
  }

  function DateOf(c: CleanRecord): DateRow {
    DateRow(c.fullDate, c.year, c.month, c.monthName, c.quarter)
  }

  function DateColumn(cleaned: seq<CleanRecord>): seq<DateRow> {
    seq(|cleaned|, i requires 0 <= i < |cleaned| => DateOf(cleaned[i]))
  }

  /** A dimension loaded into its freshly created table: `drop_duplicates()`,
      then "insert or ignore", read back with its surrogate keys. */
  function LoadDimension<R(==), K(==)>(keyOf: R -> K, column: seq<R>): (r: seq<(R, nat)>)
    ensures |r| <= |column|
    ensures forall i :: 0 <= i < |r| ==> r[i].0 in column && r[i].1 == i + 1
  {
    Enumerate(FirstByKey(keyOf, {}, Distinct(column)))
  }

  /** A dimension as the fact load reads it: natural key and surrogate key. */
  function KeyFrameOf<R, K>(keyOf: R -> K, dim: seq<(R, nat)>): (r: KeyFrame<K>)
    ensures |r| == |dim|
    ensures forall i :: 0 <= i < |dim| ==> r[i] == (keyOf(dim[i].0), dim[i].1)
  {
    seq(|dim|, i requires 0 <= i < |dim| => (keyOf(dim[i].0), dim[i].1))
  }

  /** Everything a run produces: the cleaned rows, the four dimensions with
      their surrogate keys, the fact rows and the missing-key counts. */
  datatype Warehouse = Warehouse(
    columns: ColumnMap,
    cleaned: seq<CleanRecord>,
    customers: seq<(string, nat)>,
    products: seq<(ProductKey, nat)>,
    countries: seq<(string, nat)>,
    dates: seq<(DateRow, nat)>,
    facts: seq<FactRow>,
    missing: Missing)

  function DimsOf(customers: seq<(string, nat)>, products: seq<(ProductKey, nat)>,
      countries: seq<(string, nat)>, dates: seq<(DateRow, nat)>): Dims {
    Dims(KeyFrameOf(DateKey, dates), KeyFrameOf(WholeRow, customers),
      KeyFrameOf(WholeRow, countries), KeyFrameOf(WholeRow, products))
  }

  /** Lines 154-224 of `main()` once the frame is clean: the four dimension
      loads, the merges and the missing-key counts. */
  function Load(cols: ColumnMap, cleaned: seq<CleanRecord>): (w: Warehouse)
    ensures w.columns == cols && w.cleaned == cleaned
    ensures |w.customers| <= |cleaned| && |w.products| <= |cleaned| && |w.countries| <= |cleaned| && |w.dates| <= |cleaned|
    ensures |w.facts| >= |cleaned|
    ensures forall i :: 0 <= i < |cleaned| ==>
      ResolvedRow(cleaned[i], DimsOf(w.customers, w.products, w.countries, w.dates)) in w.facts
  {
    var customers := LoadDimension(WholeRow, CustomerColumn(cleaned));
    var products := LoadDimension(WholeRow, ProductColumn(cleaned));
    var countries := LoadDimension(WholeRow, CountryColumn(cleaned));
    var dates := LoadDimension(DateKey, DateColumn(cleaned));
    var facts := Resolve(cleaned, DimsOf(customers, products, countries, dates));
    Warehouse(cols, cleaned, customers, products, countries, dates, facts, MissingCounts(facts))
  }

  /** The run of `main()` over a frame with headers `headers`, as a value. */
  function Build(headers: seq<string>, frame: seq<map<string, Cell>>, p: Parsers): (r: Result<Warehouse, PipelineError>)
    ensures r.Failure? ==> r.error.MissingColumn? || r.error == UncastableCustomerId
    ensures r.Success? ==> ResolveSpec(headers).Success? && r.value.columns == ResolveSpec(headers).value
    ensures r.Success? ==> |r.value.cleaned| <= |frame| && forall i :: 0 <= i < |r.value.cleaned| ==> WellFormed(r.value.cleaned[i])
  {
    var cols :- ResolveSpec(headers);
    var cleaned :- Clean(Project(frame, cols), p);
    Success(Load(cols, cleaned))
  }

  /** One dimension table created empty, filled with "insert or ignore" from
      its deduplicated column, and read back with its surrogate keys. */
  method LoadTable<R(==), K(==)>(keyOf: R -> K, column: seq<R>) returns (published: seq<(R, nat)>)
    ensures published == LoadDimension(keyOf, column)
  {
    var table := new Table(keyOf);
    assert table.index.Keys == {};
    var unique := Distinct(column);
    table.InsertAll(unique);
    assert table.rows == FirstByKey(keyOf, {}, unique);
    published := table.Published();
  }

  /** Lines 41-91 and 154-224 of `main()`: the frame is reassigned after each
      cleaning stage and each dimension table is filled in place. */
  method BuildWarehouse(headers: seq<string>, frame: seq<map<string, Cell>>, p: Parsers)
    returns (r: Result<Warehouse, PipelineError>)
    ensures r == Build(headers, frame, p)
  {
    var cols :- ResolveColumns(headers);
    var rows := Project(frame, cols);
    var timed := ParseTimestamps(rows, p);
    var parsed := ParseNumerics(timed, p);
    var valid := DropInvalid(parsed);
    StagesAgree(rows, p);
    var cleaned :- Standardize(valid, p);

    var customers := LoadTable(WholeRow, CustomerColumn(cleaned));
    var products := LoadTable(WholeRow, ProductColumn(cleaned));
    var countries := LoadTable(WholeRow, CountryColumn(cleaned));
    var dates := LoadTable(DateKey, DateColumn(cleaned));
    var facts := Resolve(cleaned, DimsOf(customers, products, countries, dates));
    r := Success(Warehouse(cols, cleaned, customers, products, countries, dates, facts, MissingCounts(facts)));
  }

  /** A successful run is the load of the cleaned rows, and every cleaned
      row is well formed. */
  lemma BuildIsLoad(headers: seq<string>, frame: seq<map<string, Cell>>, p: Parsers)
    requires Build(headers, frame, p).Success?
    ensures ResolveSpec(headers).Success?
    ensures var cleaned := Clean(Project(frame, ResolveSpec(headers).value), p);
      && cleaned.Success?
      && Build(headers, frame, p).value == Load(ResolveSpec(headers).value, cleaned.value)
      && forall i :: 0 <= i < |cleaned.value| ==> WellFormed(cleaned.value[i])
  {
  }

  /** A dimension holds one entry per distinct natural key of its column, its
      surrogate keys are 1 up to the number of entries, and its entries are
      rows of the column. */
  ghost predicate OnePerNaturalKey<R, K>(keyOf: R -> K, dim: seq<(R, nat)>, column: seq<R>) {
    && (forall i, j :: 0 <= i < j < |dim| ==> keyOf(dim[i].0) != keyOf(dim[j].0))
    && (forall i :: 0 <= i < |dim| ==> dim[i].1 == i + 1 && dim[i].0 in column)
    && (forall i :: 0 <= i < |column| ==> exists j :: 0 <= j < |dim| && keyOf(dim[j].0) == keyOf(column[i]))
    && |dim| == |KeysOf(keyOf, column)|
  }

  /** Loading a column into an empty table gives one entry per distinct
      natural key, whatever the duplicates in the column. */
  lemma LoadDimensionExact<R, K>(keyOf: R -> K, column: seq<R>)
    ensures OnePerNaturalKey(keyOf, LoadDimension(keyOf, column), column)
  {
    var d := FirstByKey(keyOf, {}, Distinct(column));
    DistinctThenLoad(keyOf, column);
    OnePerKey(keyOf, column);
    EnumerateOnePerKey(keyOf, d, column);
  }

  /** Surrogate key k + 1 goes to the k-th natural key of the column in
      first-seen order: entry k is the row at position `idx[k]`, the first
      row of its key, the positions increase strictly, and every first
      occurrence of a key has its entry. */
  lemma LoadDimensionInOrder<R, K>(keyOf: R -> K, column: seq<R>) returns (idx: seq<nat>)
    ensures Increasing(idx, |column|) && |idx| == |LoadDimension(keyOf, column)|
    ensures forall k :: 0 <= k < |idx| ==>
      LoadDimension(keyOf, column)[k] == (column[idx[k]], k + 1) && FirstNew(keyOf, {}, column, idx[k])
    ensures forall i :: 0 <= i < |column| && FirstNew(keyOf, {}, column, i) ==> i in idx
  {
    DistinctThenLoad(keyOf, column);
    idx := FirstByKeyPicks(keyOf, {}, column);
  }

  /** Numbering rows that hold each key of the column once, and nothing
      else, gives one entry per natural key. */
  lemma EnumerateOnePerKey<R, K>(keyOf: R -> K, d: seq<R>, column: seq<R>)
    requires UniqueKeys(keyOf, d)
    requires forall i :: 0 <= i < |d| ==> d[i] in column
    requires KeysOf(keyOf, d) == KeysOf(keyOf, column)
    requires |d| == |KeysOf(keyOf, column)|
    ensures OnePerNaturalKey(keyOf, Enumerate(d), column)
  {
    var dim := Enumerate(d);
    forall i | 0 <= i < |column|
      ensures exists j :: 0 <= j < |dim| && keyOf(dim[j].0) == keyOf(column[i])
    {
      assert keyOf(column[i]) in KeysOf(keyOf, d);
      var j :| 0 <= j < |d| && keyOf(d[j]) == keyOf(column[i]);
      assert dim[j].0 == d[j];
    }
  }

  /** A dimension with one entry per natural key has unique natural keys and
      holds every key of its column, as the fact lookups see it. */
  lemma KeyFrameCovers<R, K>(keyOf: R -> K, dim: seq<(R, nat)>, column: seq<R>)
    requires OnePerNaturalKey(keyOf, dim, column)
    ensures UniqueNaturalKeys(KeyFrameOf(keyOf, dim))
    ensures forall i :: 0 <= i < |column| ==> HasKey(KeyFrameOf(keyOf, dim), keyOf(column[i]))
  {
    var kf := KeyFrameOf(keyOf, dim);
    forall i | 0 <= i < |column|
      ensures HasKey(kf, keyOf(column[i]))
    {
      var j :| 0 <= j < |dim| && keyOf(dim[j].0) == keyOf(column[i]);
      assert kf[j].0 == keyOf(column[i]);
    }
  }

  /** Lines 157-186: every dimension holds exactly one entry per distinct
      natural key among the cleaned rows, numbered 1, 2, … in first-seen
      order. */
  lemma DimensionsOnePerKey(cols: ColumnMap, cleaned: seq<CleanRecord>)
    ensures var w := Load(cols, cleaned);
      && OnePerNaturalKey(WholeRow, w.customers, CustomerColumn(cleaned))
      && OnePerNaturalKey(WholeRow, w.products, ProductColumn(cleaned))
      && OnePerNaturalKey(WholeRow, w.countries, CountryColumn(cleaned))
      && OnePerNaturalKey(DateKey, w.dates, DateColumn(cleaned))
  {
    LoadDimensionExact(WholeRow, CustomerColumn(cleaned));
    LoadDimensionExact(WholeRow, ProductColumn(cleaned));
    LoadDimensionExact(WholeRow, CountryColumn(cleaned));
    LoadDimensionExact(DateKey, DateColumn(cleaned));
  }

  /** Products are keyed by the (stock code, description) pair: two cleaned
      rows with the same stock code and different descriptions give two
      product entries. */
  lemma ProductsKeyedByPair(cleaned: seq<CleanRecord>, a: nat, b: nat)
    requires a < |cleaned| && b < |cleaned|
    requires cleaned[a].stockCode == cleaned[b].stockCode && cleaned[a].description != cleaned[b].description
    ensures var products := LoadDimension(WholeRow, ProductColumn(cleaned));
      exists j, k :: 0 <= j < |products| && 0 <= k < |products| && j != k
        && products[j].0 == ProductOf(cleaned[a]) && products[k].0 == ProductOf(cleaned[b])
  {
    var column := ProductColumn(cleaned);
    assert column[a] == ProductOf(cleaned[a]) && column[b] == ProductOf(cleaned[b]);
    var j := EntryOf(WholeRow, column, a);
    var k := EntryOf(WholeRow, column, b);
  }

  /** The entry a row of the column is loaded under. */
  lemma EntryOf<R, K>(keyOf: R -> K, column: seq<R>, i: nat) returns (j: nat)
    requires i < |column|
    ensures j < |LoadDimension(keyOf, column)| && keyOf(LoadDimension(keyOf, column)[j].0) == keyOf(column[i])
  {
    var dim := LoadDimension(keyOf, column);
    LoadDimensionExact(keyOf, column);
    j :| 0 <= j < |dim| && keyOf(dim[j].0) == keyOf(column[i]);
  }

  /** A date row's attributes are those of its day. */
  predicate DateRowConsistent(d: DateRow) {
    && d.year == d.fullDate.year
    && d.month == d.fullDate.month
    && d.monthName == MonthAbbrev(d.month)
    && d.quarter == QuarterOf(d.month)
  }

  /** The date attributes of a well-formed record follow from its day, so
      two records of the same day have the same date row. */
  lemma SameDaySameDateRow(c: CleanRecord, d: CleanRecord)
    requires WellFormed(c) && WellFormed(d)
    ensures DateRowConsistent(DateOf(c))
    ensures c.fullDate == d.fullDate ==> DateOf(c) == DateOf(d)
  {
  }

  /** Lines 177-186: every entry of `dim_date` is consistent, so
      deduplicating the five columns together and keying the table by
      `full_date` alone pick out the same days. */
  lemma DatesConsistent(cleaned: seq<CleanRecord>)
    requires forall i :: 0 <= i < |cleaned| ==> WellFormed(cleaned[i])
    ensures var dates := LoadDimension(DateKey, DateColumn(cleaned));
      forall j :: 0 <= j < |dates| ==> DateRowConsistent(dates[j].0)
  {
    var column := DateColumn(cleaned);
    forall i | 0 <= i < |column|
      ensures DateRowConsistent(column[i])
    {
      SameDaySameDateRow(cleaned[i], cleaned[i]);
    }
    EntriesFromColumn(DateKey, column, DateRowConsistent);
  }

  /** After `drop_duplicates()` no "insert or ignore" of lines 157-186 is
      ignored: every deduplicated row is inserted, so the surrogate keys
      1, 2, … run over the deduplicated rows with no gap. For `dim_date`
      this holds because a day fixes the other four date columns. */
  lemma NoInsertIgnored(cleaned: seq<CleanRecord>)
    requires forall i :: 0 <= i < |cleaned| ==> WellFormed(cleaned[i])
    ensures FirstByKey(WholeRow, {}, Distinct(CustomerColumn(cleaned))) == Distinct(CustomerColumn(cleaned))
    ensures FirstByKey(WholeRow, {}, Distinct(ProductColumn(cleaned))) == Distinct(ProductColumn(cleaned))
    ensures FirstByKey(WholeRow, {}, Distinct(CountryColumn(cleaned))) == Distinct(CountryColumn(cleaned))
    ensures FirstByKey(DateKey, {}, Distinct(DateColumn(cleaned))) == Distinct(DateColumn(cleaned))
  {
    DistinctAllInserted(CustomerColumn(cleaned));
    DistinctAllInserted(ProductColumn(cleaned));
    DistinctAllInserted(CountryColumn(cleaned));
    DistinctDaysDiffer(cleaned);
    NoneIgnored(DateKey, {}, Distinct(DateColumn(cleaned)));
  }

  /** Two different date rows of well-formed records are of different
      days. */
  lemma DistinctDaysDiffer(cleaned: seq<CleanRecord>)
    requires forall i :: 0 <= i < |cleaned| ==> WellFormed(cleaned[i])
    ensures UniqueKeys(DateKey, Distinct(DateColumn(cleaned)))
  {
    var column := DateColumn(cleaned);
    var d := Distinct(column);
    forall i, j | 0 <= i < j < |d|
      ensures DateKey(d[i]) != DateKey(d[j])
    {
      var a :| 0 <= a < |column| && column[a] == d[i];
      var b :| 0 <= b < |column| && column[b] == d[j];
      SameDaySameDateRow(cleaned[a], cleaned[b]);
    }
  }

  /** Rows that are their own keys are all inserted once deduplicated. */
  lemma DistinctAllInserted<R>(column: seq<R>)
    ensures FirstByKey(WholeRow, {}, Distinct(column)) == Distinct(column)
  {
    NoneIgnored(WholeRow, {}, Distinct(column));
  }

  /** What holds of every row of a column holds of every entry loaded from
      it. */
  lemma EntriesFromColumn<R, K>(keyOf: R -> K, column: seq<R>, holds: R -> bool)
    requires forall i :: 0 <= i < |column| ==> holds(column[i])
    ensures forall j :: 0 <= j < |LoadDimension(keyOf, column)| ==> holds(LoadDimension(keyOf, column)[j].0)
  {
    LoadDimensionExact(keyOf, column);
  }

  /** Lines 215-220: the merges keep one fact row per cleaned record, in
      order, and every fact row gets the surrogate key of the dimension
      entry holding its natural key. */
  lemma FactsResolveCompletely(cols: ColumnMap, cleaned: seq<CleanRecord>)
    ensures var w := Load(cols, cleaned);
      && |w.facts| == |cleaned|
      && forall i :: 0 <= i < |w.facts| ==>
        && w.facts[i].rec == cleaned[i]
        && w.facts[i].dateKey.Some? && w.facts[i].customerKey.Some?
        && w.facts[i].countryKey.Some? && w.facts[i].productKey.Some?
        && (cleaned[i].customerId, w.facts[i].customerKey.value) in KeyFrameOf(WholeRow, w.customers)
        && (cleaned[i].country, w.facts[i].countryKey.value) in KeyFrameOf(WholeRow, w.countries)
        && (ProductOf(cleaned[i]), w.facts[i].productKey.value) in KeyFrameOf(WholeRow, w.products)
        && (cleaned[i].fullDate, w.facts[i].dateKey.value) in KeyFrameOf(DateKey, w.dates)
  {
    var w := Load(cols, cleaned);
    var d := DimsOf(w.customers, w.products, w.countries, w.dates);
    LoadCovers(cols, cleaned);
    CoveredResolvesFully(cleaned, d);
  }

  /** Lines 222-224: after the load no fact row misses a key, so every
      count is zero and no warning is printed. */
  lemma NoKeyMissing(cols: ColumnMap, cleaned: seq<CleanRecord>)
    ensures Load(cols, cleaned).missing == Missing(0, 0, 0, 0)
    ensures !Warns(Load(cols, cleaned).missing)
  {
    var w := Load(cols, cleaned);
    LoadCovers(cols, cleaned);
    CoveredResolvesFully(cleaned, DimsOf(w.customers, w.products, w.countries, w.dates));
  }

  /** The loaded dimensions have unique natural keys and hold the natural
      keys of every cleaned record. */
  lemma LoadCovers(cols: ColumnMap, cleaned: seq<CleanRecord>)
    ensures var w := Load(cols, cleaned);
      var d := DimsOf(w.customers, w.products, w.countries, w.dates);
      DimsUnique(d) && Covers(cleaned, d)
  {
    var w := Load(cols, cleaned);
    var d := DimsOf(w.customers, w.products, w.countries, w.dates);
    DimensionsOnePerKey(cols, cleaned);
    KeyFrameCovers(WholeRow, w.customers, CustomerColumn(cleaned));
    KeyFrameCovers(WholeRow, w.products, ProductColumn(cleaned));
    KeyFrameCovers(WholeRow, w.countries, CountryColumn(cleaned));
    KeyFrameCovers(DateKey, w.dates, DateColumn(cleaned));
    forall i | 0 <= i < |cleaned|
      ensures HasKey(d.dates, cleaned[i].fullDate) && HasKey(d.customers, cleaned[i].customerId)
        && HasKey(d.countries, cleaned[i].country) && HasKey(d.products, ProductOf(cleaned[i]))
    {
      assert DateKey(DateColumn(cleaned)[i]) == cleaned[i].fullDate;
      assert WholeRow(CustomerColumn(cleaned)[i]) == cleaned[i].customerId;
      assert WholeRow(CountryColumn(cleaned)[i]) == cleaned[i].country;
      assert WholeRow(ProductColumn(cleaned)[i]) == ProductOf(cleaned[i]);
    }
  }

  /** A run that fails on its columns reports the first required name, in
      lookup order, that no header matches. */
  lemma BuildMissingColumn(headers: seq<string>, frame: seq<map<string, Cell>>, p: Parsers)
    requires ResolveSpec(headers).Failure?
    ensures Build(headers, frame, p).Failure?
    ensures exists k ::
      && 0 <= k < 8
      && Build(headers, frame, p).error == MissingColumn(Required[k], headers)
      && NoMatch(HeaderKey, headers, Required[k])
      && forall j :: 0 <= j < k ==> !NoMatch(HeaderKey, headers, Required[j])
  {
    ResolveFailure(HeaderKey, headers, Required);
  }

  /** Once every column is found, a run fails only for a customer id the
      `Int64` cast rejects. */
  lemma BuildUncastable(headers: seq<string>, frame: seq<map<string, Cell>>, p: Parsers)
    requires ResolveSpec(headers).Success? && Build(headers, frame, p).Failure?
    ensures Build(headers, frame, p).error == UncastableCustomerId
  {
    var cleaned := Clean(Project(frame, ResolveSpec(headers).value), p);
    assert cleaned.Failure? && Build(headers, frame, p).error == cleaned.error;
  }
}
