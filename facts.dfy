/**
 * Fact key resolution: each cleaned row is left-joined, in turn, to the date,
 * customer, country and product dimensions as they are read back from the
 * database, and the rows whose lookup found nothing are counted per
 * dimension. A count above zero prints a warning; it never stops the run.
 */
module Facts {
  import opened Wrappers
  import opened Records
  import opened Picks

  /** A dimension as the fact load reads it back: natural key and surrogate
      key per entry. */
  type KeyFrame<K> = seq<(K, nat)>

  /** No natural key appears twice: what the UNIQUE constraint guarantees. */
  predicate UniqueNaturalKeys<K(==)>(dim: KeyFrame<K>) {
    forall i, j :: 0 <= i < j < |dim| ==> dim[i].0 != dim[j].0
  }

  /** The natural key `k` is present in `dim`. */
  predicate HasKey<K(==)>(dim: KeyFrame<K>, k: K) {
    exists i :: 0 <= i < |dim| && dim[i].0 == k
  }

  /** The surrogate keys of every entry whose natural key is `k`, in order:
      what a join on `k` pairs a row with. */
  function Matches<K(==)>(dim: KeyFrame<K>, k: K): (r: seq<nat>)
    ensures |r| <= |dim|
    ensures r == [] <==> !HasKey(dim, k)
    ensures r != [] ==> Find(dim, k) == Some(r[0])
  {
    if dim == [] then []
    else
      var rest := Matches(dim[1..], k);
      assert HasKey(dim, k) <==> dim[0].0 == k || HasKey(dim[1..], k) by {
        if HasKey(dim[1..], k) {
          var i :| 0 <= i < |dim[1..]| && dim[1..][i].0 == k;
          assert dim[i + 1] == dim[1..][i];
        }
        if HasKey(dim, k) && dim[0].0 != k {
          var i :| 0 <= i < |dim| && dim[i].0 == k;
          assert dim[1..][i - 1] == dim[i];
        }
      }
      (if dim[0].0 == k then [dim[0].1] else []) + rest
  }

  /** The surrogate key of the first entry whose natural key is `k`. */
  function Find<K(==)>(dim: KeyFrame<K>, k: K): (r: Option<nat>)
    ensures r.None? <==> !HasKey(dim, k)
    ensures r.Some? ==> (k, r.value) in dim
  {
    if dim == [] then None
    else if dim[0].0 == k then Some(dim[0].1)
    else
      var r := Find(dim[1..], k);
      assert HasKey(dim[1..], k) ==> HasKey(dim, k) by {
        if HasKey(dim[1..], k) {
          var i :| 0 <= i < |dim[1..]| && dim[1..][i].0 == k;
          assert dim[i + 1] == dim[1..][i];
        }
      }
      assert HasKey(dim, k) ==> HasKey(dim[1..], k) by {
        if HasKey(dim, k) {
          var i :| 0 <= i < |dim| && dim[i].0 == k;
          assert dim[1..][i - 1] == dim[i];
        }
      }
      r
  }

  /** With unique natural keys a join finds at most one entry: the one
      `Find` names. */
  lemma {:induction false} MatchesUnique<K>(dim: KeyFrame<K>, k: K)
    requires UniqueNaturalKeys(dim)
    ensures Matches(dim, k) == if Find(dim, k).Some? then [Find(dim, k).value] else []
  {
    if dim != [] {
      var rest := dim[1..];
      assert UniqueNaturalKeys(rest) by {
        forall i, j | 0 <= i < j < |rest|
          ensures rest[i].0 != rest[j].0
        {
          assert rest[i] == dim[i + 1] && rest[j] == dim[j + 1];
        }
      }
      if dim[0].0 == k {
        assert !HasKey(rest, k);
      } else {
        MatchesUnique(rest, k);
      }
    }
  }

  /** The rows one frame row joins to: the row paired with each matching
      entry in turn, or once with no key when nothing matches. The first of
      them carries the key of the first matching entry. */
  function Joined<F, K(==)>(row: F, key: F -> K, dim: KeyFrame<K>, attach: (F, Option<nat>) -> F): (r: seq<F>)
    ensures r != [] && r[0] == attach(row, Find(dim, key(row)))
  {
    var ms := Matches(dim, key(row));
    if ms == [] then [attach(row, None)]
    else seq(|ms|, j requires 0 <= j < |ms| => attach(row, Some(ms[j])))
  }

  /** `frame.merge(dim, how="left")`: every row in order, each followed by
      its joined rows. No row is lost: each comes out at least once, with
      the key of its first matching entry, or with none. */
  function MergeLeft<F, K(==)>(frame: seq<F>, key: F -> K, dim: KeyFrame<K>, attach: (F, Option<nat>) -> F): (r: seq<F>)
    ensures |r| >= |frame|
    ensures forall i :: 0 <= i < |frame| ==> attach(frame[i], Find(dim, key(frame[i]))) in r
  {
    if frame == [] then []
    else
      var head := Joined(frame[0], key, dim, attach);
      var rest := MergeLeft(frame[1..], key, dim, attach);
      assert forall i :: 0 <= i < |frame| ==> attach(frame[i], Find(dim, key(frame[i]))) in head + rest by {
        forall i | 0 <= i < |frame|
          ensures attach(frame[i], Find(dim, key(frame[i]))) in head + rest
        {
          if i == 0 {
            assert (head + rest)[0] == head[0];
          } else {
            assert frame[1..][i - 1] == frame[i];
          }
        }
      }
      head + rest
  }

  /** A row of the frame comes out of the left join with the key of its
      first matching entry. */
  lemma MergeLeftHolds<F, K>(frame: seq<F>, key: F -> K, dim: KeyFrame<K>, attach: (F, Option<nat>) -> F, x: F)
    requires x in frame
    ensures attach(x, Find(dim, key(x))) in MergeLeft(frame, key, dim, attach)
  {
    var i :| 0 <= i < |frame| && frame[i] == x;
  }

  /** The left join keeps every row, each one separately and in order: row
      `i` of the frame comes out at position `idx[i]`, with the key of its
      first matching entry, and the positions increase strictly. */
  lemma {:induction false} MergeLeftKeeps<F, K>(frame: seq<F>, key: F -> K, dim: KeyFrame<K>, attach: (F, Option<nat>) -> F)
    returns (idx: seq<nat>)
    ensures Increasing(idx, |MergeLeft(frame, key, dim, attach)|) && |idx| == |frame|
    ensures forall i :: 0 <= i < |frame| ==>
      MergeLeft(frame, key, dim, attach)[idx[i]] == attach(frame[i], Find(dim, key(frame[i])))
  {
    if frame == [] {
      idx := [];
    } else {
      var head := Joined(frame[0], key, dim, attach);
      var rest := MergeLeft(frame[1..], key, dim, attach);
      var tail := MergeLeftKeeps(frame[1..], key, dim, attach);
      idx := AfterHead(head, rest, tail);
      forall i | 1 <= i < |frame|
        ensures (head + rest)[idx[i]] == attach(frame[i], Find(dim, key(frame[i])))
      {
        assert frame[1..][i - 1] == frame[i];
      }
    }
  }

  /** The positions of picks from `rest`, as positions in `head + rest`,
      after the head's first row. */
  lemma AfterHead<F>(head: seq<F>, rest: seq<F>, tail: seq<nat>) returns (idx: seq<nat>)
    requires head != [] && Increasing(tail, |rest|)
    ensures Increasing(idx, |head + rest|) && |idx| == |tail| + 1
    ensures (head + rest)[idx[0]] == head[0]
    ensures forall i :: 1 <= i < |idx| ==> (head + rest)[idx[i]] == rest[tail[i - 1]]
  {
    idx := [0] + ShiftBy(tail, |head|);
    forall k, l | 0 <= k < l < |idx|
      ensures idx[k] < idx[l]
    {
      assert idx[l] == tail[l - 1] + |head|;
    }
    forall i | 1 <= i < |idx|
      ensures (head + rest)[idx[i]] == rest[tail[i - 1]]
    {
      assert idx[i] == tail[i - 1] + |head|;
    }
  }

  /** A left join on a unique natural key keeps the row count and the row
      order, and gives each row the key of its one match, or none. */
  lemma {:induction false} MergeLeftUnique<F, K>(frame: seq<F>, key: F -> K, dim: KeyFrame<K>, attach: (F, Option<nat>) -> F)
    requires UniqueNaturalKeys(dim)
    ensures |MergeLeft(frame, key, dim, attach)| == |frame|
    ensures forall i :: 0 <= i < |frame| ==>
      MergeLeft(frame, key, dim, attach)[i] == attach(frame[i], Find(dim, key(frame[i])))
  {
    if frame != [] {
      JoinedUnique(frame[0], key, dim, attach);
      MergeLeftUnique(frame[1..], key, dim, attach);
      var r := MergeLeft(frame, key, dim, attach);
      var rest := MergeLeft(frame[1..], key, dim, attach);
      assert r == [attach(frame[0], Find(dim, key(frame[0])))] + rest;
      forall i | 1 <= i < |frame|
        ensures r[i] == attach(frame[i], Find(dim, key(frame[i])))
      {
        assert r[i] == rest[i - 1] && frame[1..][i - 1] == frame[i];
      }
    }
  }

  /** On a unique natural key a row joins to exactly one row. */
  lemma JoinedUnique<F, K>(row: F, key: F -> K, dim: KeyFrame<K>, attach: (F, Option<nat>) -> F)
    requires UniqueNaturalKeys(dim)
    ensures Joined(row, key, dim, attach) == [attach(row, Find(dim, key(row)))]
  {
    MatchesUnique(dim, key(row));
  }

  /** A row of the fact frame after the merges: the cleaned record and the
      four surrogate keys, each missing (`NaN`) when its lookup failed. */
  datatype FactRow = FactRow(
    rec: CleanRecord,
    dateKey: Option<nat>,
    customerKey: Option<nat>,
    countryKey: Option<nat>,
    productKey: Option<nat>)

  function ProductOf(c: CleanRecord): ProductKey {
    (c.stockCode, c.description)
  }

  /** The four dimensions as read back for the lookups. */
  datatype Dims = Dims(
    dates: KeyFrame<Date>,
    customers: KeyFrame<string>,
    countries: KeyFrame<string>,
    products: KeyFrame<ProductKey>)

  predicate DimsUnique(d: Dims) {
    && UniqueNaturalKeys(d.dates)
    && UniqueNaturalKeys(d.customers)
    && UniqueNaturalKeys(d.countries)
    && UniqueNaturalKeys(d.products)
  }

  /** Lines 215-220: the four left merges, in the source's order, starting
      from the cleaned rows with no keys. */
  function Resolve(cleaned: seq<CleanRecord>, d: Dims): (r: seq<FactRow>)
    ensures |r| >= |cleaned|
    ensures forall i :: 0 <= i < |cleaned| ==> ResolvedRow(cleaned[i], d) in r
  {
    var fact := seq(|cleaned|, i requires 0 <= i < |cleaned| => FactRow(cleaned[i], None, None, None, None));
    var withDate := MergeLeft(fact, (f: FactRow) => f.rec.fullDate, d.dates, (f: FactRow, k) => f.(dateKey := k));
    var withCustomer := MergeLeft(withDate, (f: FactRow) => f.rec.customerId, d.customers, (f: FactRow, k) => f.(customerKey := k));
    var withCountry := MergeLeft(withCustomer, (f: FactRow) => f.rec.country, d.countries, (f: FactRow, k) => f.(countryKey := k));
    var r := MergeLeft(withCountry, (f: FactRow) => ProductOf(f.rec), d.products, (f: FactRow, k) => f.(productKey := k));
    assert forall i :: 0 <= i < |cleaned| ==> ResolvedRow(cleaned[i], d) in r by {
      forall i | 0 <= i < |cleaned|
        ensures ResolvedRow(cleaned[i], d) in r
      {
        var x0 := FactRow(cleaned[i], None, None, None, None);
        assert fact[i] == x0;
        MergeLeftHolds(fact, (f: FactRow) => f.rec.fullDate, d.dates, (f: FactRow, k) => f.(dateKey := k), x0);
        var x1 := x0.(dateKey := Find(d.dates, x0.rec.fullDate));
        MergeLeftHolds(withDate, (f: FactRow) => f.rec.customerId, d.customers, (f: FactRow, k) => f.(customerKey := k), x1);
        var x2 := x1.(customerKey := Find(d.customers, x1.rec.customerId));
        MergeLeftHolds(withCustomer, (f: FactRow) => f.rec.country, d.countries, (f: FactRow, k) => f.(countryKey := k), x2);
        var x3 := x2.(countryKey := Find(d.countries, x2.rec.country));
        MergeLeftHolds(withCountry, (f: FactRow) => ProductOf(f.rec), d.products, (f: FactRow, k) => f.(productKey := k), x3);
      }
    }
    r
  }

  /** The fact row a record resolves to: each key is that of the first
      dimension entry holding its natural key, or missing. */
  function ResolvedRow(c: CleanRecord, d: Dims): FactRow {
    FactRow(c, Find(d.dates, c.fullDate), Find(d.customers, c.customerId), Find(d.countries, c.country), Find(d.products, ProductOf(c)))
  }

  /** Whatever the dimensions hold, the merges drop no cleaned record: record
      `i` comes out at position `idx[i]` with the keys of its first matching
      entries, each record separately and in the order of the records. */
  lemma ResolveKeeps(cleaned: seq<CleanRecord>, d: Dims) returns (idx: seq<nat>)
    ensures Increasing(idx, |Resolve(cleaned, d)|) && |idx| == |cleaned|
    ensures forall i :: 0 <= i < |cleaned| ==> Resolve(cleaned, d)[idx[i]] == ResolvedRow(cleaned[i], d)
  {
    var fact := seq(|cleaned|, i requires 0 <= i < |cleaned| => FactRow(cleaned[i], None, None, None, None));
    var k1, a1 := (f: FactRow) => f.rec.fullDate, (f: FactRow, k) => f.(dateKey := k);
    var k2, a2 := (f: FactRow) => f.rec.customerId, (f: FactRow, k) => f.(customerKey := k);
    var k3, a3 := (f: FactRow) => f.rec.country, (f: FactRow, k) => f.(countryKey := k);
    var k4, a4 := (f: FactRow) => ProductOf(f.rec), (f: FactRow, k) => f.(productKey := k);
    var f1 := MergeLeft(fact, k1, d.dates, a1);
    var i1 := MergeLeftKeeps(fact, k1, d.dates, a1);
    var f2 := MergeLeft(f1, k2, d.customers, a2);
    var i2 := MergeLeftKeeps(f1, k2, d.customers, a2);
    var f3 := MergeLeft(f2, k3, d.countries, a3);
    var i3 := MergeLeftKeeps(f2, k3, d.countries, a3);
    var f4 := MergeLeft(f3, k4, d.products, a4);
    var i4 := MergeLeftKeeps(f3, k4, d.products, a4);
    assert f4 == Resolve(cleaned, d);
    var i12 := Compose(i2, i1);
    ComposeIncreasing(i2, i1, |f2|);
    var i123 := Compose(i3, i12);
    ComposeIncreasing(i3, i12, |f3|);
    idx := Compose(i4, i123);
    ComposeIncreasing(i4, i123, |f4|);
    forall i | 0 <= i < |cleaned|
      ensures f4[idx[i]] == ResolvedRow(cleaned[i], d)
    {
      var c := cleaned[i];
      assert f1[i1[i]] == FactRow(c, Find(d.dates, c.fullDate), None, None, None);
      assert f2[i12[i]] == f1[i1[i]].(customerKey := Find(d.customers, c.customerId));
      assert f3[i123[i]] == f2[i12[i]].(countryKey := Find(d.countries, c.country));
    }
  }

  /** With unique natural keys the merges keep one fact row per cleaned
      record, in order, and each key is the one its natural key names. */
  lemma ResolveUnique(cleaned: seq<CleanRecord>, d: Dims)
    requires DimsUnique(d)
    ensures |Resolve(cleaned, d)| == |cleaned|
    ensures forall i :: 0 <= i < |cleaned| ==> Resolve(cleaned, d)[i] == ResolvedRow(cleaned[i], d)
  {
    var fact := seq(|cleaned|, i requires 0 <= i < |cleaned| => FactRow(cleaned[i], None, None, None, None));
    var k1, a1 := (f: FactRow) => f.rec.fullDate, (f: FactRow, k) => f.(dateKey := k);
    var k2, a2 := (f: FactRow) => f.rec.customerId, (f: FactRow, k) => f.(customerKey := k);
    var k3, a3 := (f: FactRow) => f.rec.country, (f: FactRow, k) => f.(countryKey := k);
    var k4, a4 := (f: FactRow) => ProductOf(f.rec), (f: FactRow, k) => f.(productKey := k);
    var f1 := MergeLeft(fact, k1, d.dates, a1);
    MergeLeftUnique(fact, k1, d.dates, a1);
    var f2 := MergeLeft(f1, k2, d.customers, a2);
    MergeLeftUnique(f1, k2, d.customers, a2);
    var f3 := MergeLeft(f2, k3, d.countries, a3);
    MergeLeftUnique(f2, k3, d.countries, a3);
    var f4 := MergeLeft(f3, k4, d.products, a4);
    MergeLeftUnique(f3, k4, d.products, a4);
    assert f4 == Resolve(cleaned, d);
  }

  /** The number of rows whose selected key is missing: `isna().sum()`. */
  function CountMissing(facts: seq<FactRow>, key: FactRow -> Option<nat>): (n: nat)
    ensures n <= |facts|
    ensures n == 0 <==> forall i :: 0 <= i < |facts| ==> key(facts[i]).Some?
  {
    if facts == [] then 0
    else (if key(facts[0]).None? then 1 else 0) + CountMissing(facts[1..], key)
  }

  /** Line 222: the missing-key count per dimension. */
  datatype Missing = Missing(date: nat, customer: nat, country: nat, product: nat)

  function MissingCounts(facts: seq<FactRow>): (m: Missing)
    ensures m.date <= |facts| && m.customer <= |facts| && m.country <= |facts| && m.product <= |facts|
    ensures m.date == 0 <==> forall i :: 0 <= i < |facts| ==> facts[i].dateKey.Some?
    ensures m.customer == 0 <==> forall i :: 0 <= i < |facts| ==> facts[i].customerKey.Some?
    ensures m.country == 0 <==> forall i :: 0 <= i < |facts| ==> facts[i].countryKey.Some?
    ensures m.product == 0 <==> forall i :: 0 <= i < |facts| ==> facts[i].productKey.Some?
  {
    Missing(
      CountMissing(facts, (f: FactRow) => f.dateKey),
      CountMissing(facts, (f: FactRow) => f.customerKey),
      CountMissing(facts, (f: FactRow) => f.countryKey),
      CountMissing(facts, (f: FactRow) => f.productKey))
  }

  /** Line 223: a warning is printed when any count is above zero. */
  predicate Warns(m: Missing) {
    m.date > 0 || m.customer > 0 || m.country > 0 || m.product > 0
  }

  /** A warning is printed exactly when some fact row misses one of its
      four keys. */
  lemma WarnsOnMissingKey(facts: seq<FactRow>)
    ensures Warns(MissingCounts(facts)) <==>
      exists i :: 0 <= i < |facts| &&
        (facts[i].dateKey.None? || facts[i].customerKey.None? || facts[i].countryKey.None? || facts[i].productKey.None?)
  {
  }

  /** The number of records whose natural key `key` picks is absent from
      `dim`. */
  function CountAbsent<K(==)>(cleaned: seq<CleanRecord>, key: CleanRecord -> K, dim: KeyFrame<K>): nat {
    if cleaned == [] then 0
    else (if HasKey(dim, key(cleaned[0])) then 0 else 1) + CountAbsent(cleaned[1..], key, dim)
  }

  /** Counting missing keys of the resolved rows is counting the records
      whose natural key is not in the dimension. */
  lemma {:induction false} CountMissingIsAbsent<K>(facts: seq<FactRow>, cleaned: seq<CleanRecord>,
      key: CleanRecord -> K, dim: KeyFrame<K>, sel: FactRow -> Option<nat>)
    requires |facts| == |cleaned|
    requires forall i :: 0 <= i < |facts| ==> sel(facts[i]) == Find(dim, key(cleaned[i]))
    ensures CountMissing(facts, sel) == CountAbsent(cleaned, key, dim)
  {
    if facts != [] {
      CountMissingIsAbsent(facts[1..], cleaned[1..], key, dim, sel);
    }
  }

  /** Each missing-key count is the number of cleaned records whose natural
      key its dimension lacks. */
  lemma MissingCountsExact(cleaned: seq<CleanRecord>, d: Dims)
    requires DimsUnique(d)
    ensures var m := MissingCounts(Resolve(cleaned, d));
      && m.date == CountAbsent(cleaned, (c: CleanRecord) => c.fullDate, d.dates)
      && m.customer == CountAbsent(cleaned, (c: CleanRecord) => c.customerId, d.customers)
      && m.country == CountAbsent(cleaned, (c: CleanRecord) => c.country, d.countries)
      && m.product == CountAbsent(cleaned, (c: CleanRecord) => ProductOf(c), d.products)
  {
    var facts := Resolve(cleaned, d);
    ResolveUnique(cleaned, d);
    CountMissingIsAbsent(facts, cleaned, (c: CleanRecord) => c.fullDate, d.dates, (f: FactRow) => f.dateKey);
    CountMissingIsAbsent(facts, cleaned, (c: CleanRecord) => c.customerId, d.customers, (f: FactRow) => f.customerKey);
    CountMissingIsAbsent(facts, cleaned, (c: CleanRecord) => c.country, d.countries, (f: FactRow) => f.countryKey);
    CountMissingIsAbsent(facts, cleaned, (c: CleanRecord) => ProductOf(c), d.products, (f: FactRow) => f.productKey);
  }

  /** Every natural key of the cleaned records has a dimension entry. */
  predicate Covers(cleaned: seq<CleanRecord>, d: Dims) {
    forall i :: 0 <= i < |cleaned| ==>
      && HasKey(d.dates, cleaned[i].fullDate)
      && HasKey(d.customers, cleaned[i].customerId)
      && HasKey(d.countries, cleaned[i].country)
      && HasKey(d.products, ProductOf(cleaned[i]))
  }

  /** Referential completeness: when the dimensions cover every natural key,
      every fact row gets all four keys, every count is zero and no warning
      is printed. */
  lemma CoveredResolvesFully(cleaned: seq<CleanRecord>, d: Dims)
    requires DimsUnique(d) && Covers(cleaned, d)
    ensures |Resolve(cleaned, d)| == |cleaned|
    ensures forall i :: 0 <= i < |cleaned| ==>
      var f := Resolve(cleaned, d)[i];
      && f.rec == cleaned[i]
      && f.dateKey.Some? && f.customerKey.Some? && f.countryKey.Some? && f.productKey.Some?
      && (cleaned[i].fullDate, f.dateKey.value) in d.dates
      && (cleaned[i].customerId, f.customerKey.value) in d.customers
      && (cleaned[i].country, f.countryKey.value) in d.countries
      && (ProductOf(cleaned[i]), f.productKey.value) in d.products
    ensures MissingCounts(Resolve(cleaned, d)) == Missing(0, 0, 0, 0)
    ensures !Warns(MissingCounts(Resolve(cleaned, d)))
  {
    ResolveUnique(cleaned, d);
  }
}
