/**
 * Column lookup: `col(df, name)` and the eight lookups `main()` makes with it
 * before any row is touched.
 *
 * The search is stated for any key function; `col` compares headers by
 * `HeaderKey`, which strips and lower-cases.
 */
module Columns {
  import opened Wrappers
  import opened Text
  import opened Records

  /** `s.strip().lower()`: headers and required names are compared by this.
      The key has no whitespace at either end and no upper-case letter. */
  function HeaderKey(s: string): (k: string)
    ensures |k| <= |s| && IsStripped(k)
    ensures forall i :: 0 <= i < |k| ==> !('A' <= k[i] <= 'Z')
  {
    Lower(Strip(s))
  }

  /** A key is its own key: comparing keys again changes nothing. */
  lemma HeaderKeyIdempotent(s: string)
    ensures HeaderKey(HeaderKey(s)) == HeaderKey(s)
  {
    var k := HeaderKey(s);
    StripStrippedIsIdentity(k);
    assert Lower(k) == k;
  }

  /** Header `i` matches `name` under `key`, and no header before it does. */
  predicate IsFirstMatch(key: string -> string, headers: seq<string>, name: string, i: int) {
    && 0 <= i < |headers|
    && key(headers[i]) == key(name)
    && forall j :: 0 <= j < i ==> key(headers[j]) != key(name)
  }

  predicate NoMatch(key: string -> string, headers: seq<string>, name: string) {
    forall j :: 0 <= j < |headers| ==> key(headers[j]) != key(name)
  }

  /** The first position holding `x`, searched from the front. */
  function IndexOf<T(==)>(xs: seq<T>, x: T): (r: Option<nat>)
    ensures r.Some? ==> r.value < |xs| && xs[r.value] == x && forall j :: 0 <= j < r.value ==> xs[j] != x
    ensures r.None? ==> forall j :: 0 <= j < |xs| ==> xs[j] != x
  {
    if xs == [] then None
    else if xs[0] == x then Some(0)
    else
      match IndexOf(xs[1..], x)
      case None => None
      case Some(i) => Some(i + 1)
  }

  /** The position of the first header matching `name`, in header order. */
  function FirstMatchIndex(key: string -> string, headers: seq<string>, name: string): (r: Option<nat>)
    ensures r.Some? ==> IsFirstMatch(key, headers, name, r.value)
    ensures r.None? ==> NoMatch(key, headers, name)
  {
    var keys := seq(|headers|, i requires 0 <= i < |headers| => key(headers[i]));
    assert forall j :: 0 <= j < |headers| ==> keys[j] == key(headers[j]);
    IndexOf(keys, key(name))
  }

  /** What `col(df, name)` returns or raises, as a value. */
  function Col(key: string -> string, headers: seq<string>, name: string): (r: Result<string, PipelineError>)
    ensures r.Success? ==> exists i :: IsFirstMatch(key, headers, name, i) && headers[i] == r.value
    ensures r.Failure? ==> r.error == MissingColumn(name, headers) && NoMatch(key, headers, name)
  {
    match FirstMatchIndex(key, headers, name)
    case Some(i) => Success(headers[i])
    case None => Failure(MissingColumn(name, headers))
  }

  /** `Col` is determined by its contract: a first match is the answer, and
      no match is the error. */
  lemma ColIsFirstMatch(key: string -> string, headers: seq<string>, name: string, i: int)
    requires IsFirstMatch(key, headers, name, i)
    ensures Col(key, headers, name) == Success(headers[i])
  {
    var r := Col(key, headers, name);
    if r.Success? {
      var k :| IsFirstMatch(key, headers, name, k) && headers[k] == r.value;
      assert !(k < i) && !(i < k);
    }
  }

  /** `col(df, name)`: the first header, in header order, equal to `name` once
      both are stripped and lower-cased; otherwise the `KeyError` naming
      `name` and listing every header found. */
  method FindColumn(headers: seq<string>, name: string) returns (r: Result<string, PipelineError>)
    ensures r.Success? ==> exists i :: IsFirstMatch(HeaderKey, headers, name, i) && headers[i] == r.value
    ensures r.Failure? ==> r.error == MissingColumn(name, headers) && NoMatch(HeaderKey, headers, name)
    ensures r == Col(HeaderKey, headers, name)
  {
    var target := HeaderKey(name);
    var i := 0;
    while i < |headers|
      invariant 0 <= i <= |headers|
      invariant forall j :: 0 <= j < i ==> HeaderKey(headers[j]) != target
    {
      if HeaderKey(headers[i]) == target {
        assert IsFirstMatch(HeaderKey, headers, name, i);
        ColIsFirstMatch(HeaderKey, headers, name, i);
        return Success(headers[i]);
      }
      i := i + 1;
    }
    assert NoMatch(HeaderKey, headers, name);
    return Failure(MissingColumn(name, headers));
  }

  /** The header chosen for each required column. */
  datatype ColumnMap = ColumnMap(
    invoice: string,
    stockCode: string,
    description: string,
    quantity: string,
    invoiceDate: string,
    price: string,
    customerId: string,
    country: string)

  /** The required column names, in the order `main()` looks them up. */
  const Required: seq<string> :=
    ["Invoice", "StockCode", "Description", "Quantity", "InvoiceDate", "Price", "Customer ID", "Country"]

  /** The column of `cols` that stands for `Required[k]`. */
  function Chosen(cols: ColumnMap, k: nat): string
    requires k < 8
  {
    [cols.invoice, cols.stockCode, cols.description, cols.quantity,
     cols.invoiceDate, cols.price, cols.customerId, cols.country][k]
  }

  /** The eight lookup outcomes combined in lookup order: the first failure
      aborts, otherwise the found headers make up the mapping. */
  function Assemble(found: seq<Result<string, PipelineError>>): (r: Result<ColumnMap, PipelineError>)
    requires |found| == 8
    ensures r.Success? ==> forall k :: 0 <= k < 8 ==> found[k] == Success(Chosen(r.value, k))
    ensures r.Failure? ==>
      exists k :: 0 <= k < 8 && found[k] == Failure(r.error) && forall j :: 0 <= j < k ==> found[j].Success?
  {
    var invoice :- found[0];
    var stockCode :- found[1];
    var description :- found[2];
    var quantity :- found[3];
    var invoiceDate :- found[4];
    var price :- found[5];
    var customerId :- found[6];
    var country :- found[7];
    Success(ColumnMap(invoice, stockCode, description, quantity, invoiceDate, price, customerId, country))
  }

  /** The eight lookups for required names `names`, as a value. */
  function ResolveWith(key: string -> string, headers: seq<string>, names: seq<string>): Result<ColumnMap, PipelineError>
    requires |names| == 8
  {
    Assemble(seq(8, k requires 0 <= k < 8 => Col(key, headers, names[k])))
  }

  /** The column mapping `main()` ends up with, or the error it raises. */
  function ResolveSpec(headers: seq<string>): (r: Result<ColumnMap, PipelineError>)
    ensures r.Success? <==> forall k :: 0 <= k < 8 ==> !NoMatch(HeaderKey, headers, Required[k])
  {
    var r := ResolveWith(HeaderKey, headers, Required);
    if r.Success? then
      ResolveSuccess(HeaderKey, headers, Required);
      r
    else
      ResolveFailure(HeaderKey, headers, Required);
      r
  }

  /** The column mapping of `main()`: one `col` call per required name. */
  method ResolveColumns(headers: seq<string>) returns (r: Result<ColumnMap, PipelineError>)
    ensures r == ResolveSpec(headers)
  {
    var invoice :- FindColumn(headers, Required[0]);
    var stockCode :- FindColumn(headers, Required[1]);
    var description :- FindColumn(headers, Required[2]);
    var quantity :- FindColumn(headers, Required[3]);
    var invoiceDate :- FindColumn(headers, Required[4]);
    var price :- FindColumn(headers, Required[5]);
    var customerId :- FindColumn(headers, Required[6]);
    var country :- FindColumn(headers, Required[7]);
    r := Success(ColumnMap(invoice, stockCode, description, quantity, invoiceDate, price, customerId, country));
  }

  /** A successful resolution gives every required name its first matching
      header. */
  lemma ResolveSuccess(key: string -> string, headers: seq<string>, names: seq<string>)
    requires |names| == 8 && ResolveWith(key, headers, names).Success?
    ensures forall k :: 0 <= k < 8 ==>
      exists i :: IsFirstMatch(key, headers, names[k], i) && headers[i] == Chosen(ResolveWith(key, headers, names).value, k)
  {
    var found := seq(8, k requires 0 <= k < 8 => Col(key, headers, names[k]));
    assert forall k :: 0 <= k < 8 ==> found[k] == Col(key, headers, names[k]);
  }

  /** A failed resolution reports the first required name, in lookup order,
      that no header matches, together with every header found. */
  lemma ResolveFailure(key: string -> string, headers: seq<string>, names: seq<string>)
    requires |names| == 8 && ResolveWith(key, headers, names).Failure?
    ensures exists k ::
      && 0 <= k < 8
      && ResolveWith(key, headers, names).error == MissingColumn(names[k], headers)
      && NoMatch(key, headers, names[k])
      && forall j :: 0 <= j < k ==> !NoMatch(key, headers, names[j])
  {
    var found := seq(8, k requires 0 <= k < 8 => Col(key, headers, names[k]));
    var r := Assemble(found);
    var k :| 0 <= k < 8 && found[k] == Failure(r.error) && forall j :: 0 <= j < k ==> found[j].Success?;
    assert found[k] == Col(key, headers, names[k]);
    forall j | 0 <= j < k
      ensures !NoMatch(key, headers, names[j])
    {
      assert found[j] == Col(key, headers, names[j]);
    }
  }
}
