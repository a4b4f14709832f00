/**
 * Cleaning and normalisation of the sales rows, in the order `main()` applies
 * it: drop rows whose invoice date does not parse, drop rows whose quantity or
 * price is not numeric, drop rows with a zero quantity or a price that is not
 * positive, trim the text fields, normalise the customer id, and derive the
 * date parts, revenue and return flag.
 *
 * Each filtering step is a stage function over the whole frame, as the source
 * reassigns `df` to a filtered copy; `Classify` states the three filters row
 * by row and `StagesAgree` shows that the stages keep exactly the rows it
 * accepts, in their original order.
 */
module Cleaning {
  import opened Wrappers
  import opened Text
  import opened Records
  import opened Picks

  /** A row whose invoice date parsed. */
  datatype Timed = Timed(raw: RawRow, ts: Timestamp)

  /** A row whose invoice date, quantity and price all parsed. */
  datatype Parsed = Parsed(raw: RawRow, ts: Timestamp, quantity: int, price: real)

  /** Why a row is dropped, in the order the filters run. */
  datatype DropReason = MalformedTimestamp | MalformedNumeric | InvalidQuantityOrPrice

  /** Lines 52-53: parse the invoice date and keep the rows where it parsed. */
  function ParseTimestamps(rows: seq<RawRow>, p: Parsers): (r: seq<Timed>)
    ensures |r| <= |rows|
    ensures forall i :: 0 <= i < |r| ==> ParseCell(p.timestamp, r[i].raw.invoiceDate) == Some(r[i].ts)
  {
    if rows == [] then []
    else
      var rest := ParseTimestamps(rows[1..], p);
      match ParseCell(p.timestamp, rows[0].invoiceDate)
      case Some(ts) => [Timed(rows[0], ts)] + rest
      case None => rest
  }

  /** Lines 56-58: parse quantity and price and keep the rows where both parsed. */
  function ParseNumerics(rows: seq<Timed>, p: Parsers): (r: seq<Parsed>)
    ensures |r| <= |rows|
    ensures forall i :: 0 <= i < |r| ==>
      && ParseCell(p.integer, r[i].raw.quantity) == Some(r[i].quantity)
      && ParseCell(p.number, r[i].raw.price) == Some(r[i].price)
  {
    if rows == [] then []
    else
      var rest := ParseNumerics(rows[1..], p);
      var t := rows[0];
      match (ParseCell(p.integer, t.raw.quantity), ParseCell(p.number, t.raw.price))
      case (Some(q), Some(u)) => [Parsed(t.raw, t.ts, q, u)] + rest
      case _ => rest
  }

  /** Line 61: keep returns (negative quantities), drop zero quantities and
      prices that are not positive. */
  function DropInvalid(rows: seq<Parsed>): (r: seq<Parsed>)
    ensures |r| <= |rows|
    ensures forall i :: 0 <= i < |r| ==> r[i].quantity != 0 && r[i].price > 0.0
  {
    if rows == [] then []
    else
      var rest := DropInvalid(rows[1..]);
      if rows[0].quantity != 0 && rows[0].price > 0.0 then [rows[0]] + rest else rest
  }

  /** The three filters applied to one row, in the order the source runs
      them: the first one that rejects the row names the reason. */
  function Classify(row: RawRow, p: Parsers): (r: Result<Parsed, DropReason>)
    ensures r == Failure(MalformedTimestamp) <==> ParseCell(p.timestamp, row.invoiceDate).None?
    ensures r == Failure(MalformedNumeric) <==>
      && ParseCell(p.timestamp, row.invoiceDate).Some?
      && (ParseCell(p.integer, row.quantity).None? || ParseCell(p.number, row.price).None?)
    ensures r.Success? <==>
      && ParseCell(p.timestamp, row.invoiceDate).Some?
      && ParseCell(p.integer, row.quantity).Some?
      && ParseCell(p.number, row.price).Some?
      && ParseCell(p.integer, row.quantity).value != 0
      && ParseCell(p.number, row.price).value > 0.0
    ensures r.Success? ==>
      && r.value.raw == row
      && ParseCell(p.timestamp, row.invoiceDate) == Some(r.value.ts)
      && ParseCell(p.integer, row.quantity) == Some(r.value.quantity)
      && ParseCell(p.number, row.price) == Some(r.value.price)
  {
    match ParseCell(p.timestamp, row.invoiceDate)
    case None => Failure(MalformedTimestamp)
    case Some(ts) =>
      match (ParseCell(p.integer, row.quantity), ParseCell(p.number, row.price))
      case (Some(q), Some(u)) =>
        if q != 0 && u > 0.0 then Success(Parsed(row, ts, q, u)) else Failure(InvalidQuantityOrPrice)
      case _ => Failure(MalformedNumeric)
  }

  /** The rows `Classify` accepts, in their original order. */
  function Survivors(rows: seq<RawRow>, p: Parsers): (r: seq<Parsed>)
    ensures |r| <= |rows|
    ensures forall i :: 0 <= i < |r| ==> Classify(r[i].raw, p) == Success(r[i])
  {
    if rows == [] then []
    else
      var rest := Survivors(rows[1..], p);
      match Classify(rows[0], p)
      case Success(x) => [x] + rest
      case Failure(_) => rest
  }

  /** No row that passes all three filters is lost: each one reaches the
      cleaned frame, whatever its sign of quantity. */
  lemma {:induction false} SurvivorsKeepValidRows(rows: seq<RawRow>, p: Parsers, i: nat)
    requires i < |rows| && Classify(rows[i], p).Success?
    ensures Classify(rows[i], p).value in Survivors(rows, p)
  {
    if i > 0 {
      assert rows[1..][i - 1] == rows[i];
      SurvivorsKeepValidRows(rows[1..], p, i - 1);
    }
  }

  /** Returns survive cleaning: a row whose date and numbers parse, with a
      negative quantity and a positive price, is kept. */
  lemma ReturnsAreKept(rows: seq<RawRow>, p: Parsers, i: nat)
    requires i < |rows|
    requires ParseCell(p.timestamp, rows[i].invoiceDate).Some?
    requires ParseCell(p.integer, rows[i].quantity).Some? && ParseCell(p.integer, rows[i].quantity).value < 0
    requires ParseCell(p.number, rows[i].price).Some? && ParseCell(p.number, rows[i].price).value > 0.0
    ensures exists j :: 0 <= j < |Survivors(rows, p)| && Survivors(rows, p)[j].raw == rows[i] && Survivors(rows, p)[j].quantity < 0
  {
    SurvivorsKeepValidRows(rows, p, i);
  }

  lemma {:induction false} ParseNumericsPrefix(t: Timed, rest: seq<Timed>, p: Parsers)
    ensures ParseNumerics([t] + rest, p) ==
      match (ParseCell(p.integer, t.raw.quantity), ParseCell(p.number, t.raw.price))
      case (Some(q), Some(u)) => [Parsed(t.raw, t.ts, q, u)] + ParseNumerics(rest, p)
      case _ => ParseNumerics(rest, p)
  {
    assert ([t] + rest)[1..] == rest;
  }

  lemma {:induction false} DropInvalidPrefix(x: Parsed, rest: seq<Parsed>)
    ensures DropInvalid([x] + rest) ==
      if x.quantity != 0 && x.price > 0.0 then [x] + DropInvalid(rest) else DropInvalid(rest)
  {
    assert ([x] + rest)[1..] == rest;
  }

  /** The staged filtering of lines 52-61 keeps exactly the rows `Classify`
      accepts, in order: running the filters one after the other over the
      whole frame is the same as judging each row by the three tests in turn. */
  lemma {:induction false} StagesAgree(rows: seq<RawRow>, p: Parsers)
    ensures DropInvalid(ParseNumerics(ParseTimestamps(rows, p), p)) == Survivors(rows, p)
  {
    if rows != [] {
      StagesAgree(rows[1..], p);
      var row := rows[0];
      var rest := ParseTimestamps(rows[1..], p);
      match ParseCell(p.timestamp, row.invoiceDate)
      case None =>
      case Some(ts) =>
        var t := Timed(row, ts);
        ParseNumericsPrefix(t, rest, p);
        match (ParseCell(p.integer, row.quantity), ParseCell(p.number, row.price))
        case (Some(q), Some(u)) =>
          DropInvalidPrefix(Parsed(row, ts, q, u), ParseNumerics(rest, p));
        case _ =>
    }
  }

  /** Line 53 keeps exactly the rows whose invoice date parses, each once
      and in input order: the kept rows are the input rows at strictly
      increasing positions, and every row whose date parses is among them. */
  lemma {:induction false} ParseTimestampsPicks(rows: seq<RawRow>, p: Parsers) returns (idx: seq<nat>)
    ensures Increasing(idx, |rows|) && |idx| == |ParseTimestamps(rows, p)|
    ensures forall k :: 0 <= k < |idx| ==> ParseTimestamps(rows, p)[k].raw == rows[idx[k]]
    ensures forall i :: 0 <= i < |rows| && ParseCell(p.timestamp, rows[i].invoiceDate).Some? ==> i in idx
  {
    if rows == [] {
      return [];
    }
    var rest := ParseTimestampsPicks(rows[1..], p);
    idx := PickStep(rows, ParseTimestamps(rows, p), ParseTimestamps(rows[1..], p), rest,
      (row: RawRow) => ParseCell(p.timestamp, row.invoiceDate).Some?, (row: RawRow, t: Timed) => t.raw == row);
  }

  /** Line 58 keeps exactly the rows whose quantity and price both parse,
      each once and in input order, with their parsed timestamps. */
  lemma {:induction false} ParseNumericsPicks(rows: seq<Timed>, p: Parsers) returns (idx: seq<nat>)
    ensures Increasing(idx, |rows|) && |idx| == |ParseNumerics(rows, p)|
    ensures forall k :: 0 <= k < |idx| ==>
      ParseNumerics(rows, p)[k].raw == rows[idx[k]].raw && ParseNumerics(rows, p)[k].ts == rows[idx[k]].ts
    ensures forall i :: 0 <= i < |rows| && ParseCell(p.integer, rows[i].raw.quantity).Some? && ParseCell(p.number, rows[i].raw.price).Some? ==>
      i in idx
  {
    if rows == [] {
      return [];
    }
    var rest := ParseNumericsPicks(rows[1..], p);
    idx := PickStep(rows, ParseNumerics(rows, p), ParseNumerics(rows[1..], p), rest,
      (t: Timed) => ParseCell(p.integer, t.raw.quantity).Some? && ParseCell(p.number, t.raw.price).Some?,
      (t: Timed, x: Parsed) => x.raw == t.raw && x.ts == t.ts);
  }

  /** Line 61 keeps exactly the rows with a nonzero quantity and a positive
      price, returns included, each once and in input order. */
  lemma {:induction false} DropInvalidPicks(rows: seq<Parsed>) returns (idx: seq<nat>)
    ensures Increasing(idx, |rows|) && |idx| == |DropInvalid(rows)|
    ensures forall k :: 0 <= k < |idx| ==> DropInvalid(rows)[k] == rows[idx[k]]
    ensures forall i :: 0 <= i < |rows| && rows[i].quantity != 0 && rows[i].price > 0.0 ==> i in idx
  {
    if rows == [] {
      return [];
    }
    var rest := DropInvalidPicks(rows[1..]);
    idx := PickStep(rows, DropInvalid(rows), DropInvalid(rows[1..]), rest,
      (x: Parsed) => x.quantity != 0 && x.price > 0.0, (x: Parsed, y: Parsed) => y == x);
  }

  /** The surviving rows are exactly the rows `Classify` accepts, each once
      and in input order: survivor k is the accepted row at position
      `idx[k]`, the positions increase strictly, and every accepted row's
      position is among them. */
  lemma {:induction false} SurvivorsPicks(rows: seq<RawRow>, p: Parsers) returns (idx: seq<nat>)
    ensures Increasing(idx, |rows|) && |idx| == |Survivors(rows, p)|
    ensures forall k :: 0 <= k < |idx| ==> Classify(rows[idx[k]], p) == Success(Survivors(rows, p)[k])
    ensures forall i :: 0 <= i < |rows| && Classify(rows[i], p).Success? ==> i in idx
  {
    if rows == [] {
      return [];
    }
    var rest := SurvivorsPicks(rows[1..], p);
    idx := PickStep(rows, Survivors(rows, p), Survivors(rows[1..], p), rest,
      (row: RawRow) => Classify(row, p).Success?, (row: RawRow, x: Parsed) => Classify(row, p) == Success(x));
  }

  /** Lines 71-72: the customer id parsed as a number and cast to the
      nullable `Int64` type. A missing or non-numeric id becomes `<NA>`; a
      number that is not a whole value within the `Int64` range cannot be cast
      and aborts the run. */
  datatype CustomerCast = Guest | Cast(id: int) | Uncastable

  /** A number the `Int64` cast accepts: a whole value within range. */
  predicate IsInt64Value(v: real) {
    v.Floor as real == v && Int64Min <= v.Floor <= Int64Max
  }

  function CastCustomerId(c: Cell, number: string -> Option<real>): (r: CustomerCast)
    ensures r.Guest? <==> ParseCell(number, c).None?
    ensures r.Cast? ==> ParseCell(number, c) == Some(r.id as real) && Int64Min <= r.id <= Int64Max
    ensures r.Uncastable? <==> (ParseCell(number, c).Some? && !IsInt64Value(ParseCell(number, c).value))
  {
    match ParseCell(number, c)
    case None => Guest
    case Some(v) =>
      if IsInt64Value(v) then Cast(v.Floor) else Uncastable
  }

  lemma IntTextIsStripped(n: int)
    ensures IsStripped(IntText(n))
  {
    var s := IntText(n);
    if n < 0 {
      assert s == "-" + NatText(-n);
      assert s[|s| - 1] == NatText(-n)[|NatText(-n)| - 1];
    }
  }

  /** The renderings of a missing value that line 73 replaces. */
  predicate IsNullText(s: string) {
    s == "<NA>" || s == "nan" || s == "None"
  }

  /** A rendered id that line 73 keeps as it is: already stripped, not a
      null rendering, not the sentinel, and the decimal digits of an
      integer. */
  predicate IsKeptId(s: string) {
    s != [] && Strip(s) == s && !IsNullText(s) && s != "GUEST" && IsIntText(s)
  }

  /** The decimal rendering of an integer starts with a minus sign or a
      digit, so it is never one of the null renderings nor the sentinel. */
  lemma IntTextIsKept(n: int)
    ensures IsKeptId(IntText(n))
  {
    var s := IntText(n);
    assert Strip(s) == s by {
      IntTextIsStripped(n);
      StripStrippedIsIdentity(s);
    }
    assert IsIntText(s) by {
      IntTextRoundTrip(n);
    }
    assert s[0] == '-' || '0' <= s[0] <= '9';
    assert "<NA>"[0] == '<' && "nan"[0] == 'n' && "None"[0] == 'N' && "GUEST"[0] == 'G';
  }

  /** The null rendering of a missing id has no whitespace to strip. */
  lemma NullRenderingIsStripped()
    ensures Strip("<NA>") == "<NA>"
  {
    StripStrippedIsIdentity("<NA>");
  }

  /** Lines 72-73: the cast id rendered with `astype(str)`, stripped, and the
      null renderings replaced by the sentinel "GUEST". */
  function CustomerText(cast: CustomerCast): (s: string)
    requires !cast.Uncastable?
    ensures IsCustomerText(s)
    ensures s == "GUEST" <==> cast.Guest?
    ensures cast.Cast? ==> s == IntText(cast.id)
  {
    var rendered :=
      if cast.Guest? then (NullRenderingIsStripped(); Strip("<NA>"))
      else (IntTextIsKept(cast.id); Strip(IntText(cast.id)));
    if IsNullText(rendered) then "GUEST" else rendered
  }

  /** Two customers share a normalised id exactly when they share a cast:
      normalisation merges all guests and nothing else. */
  lemma CustomerTextInjective(a: CustomerCast, b: CustomerCast)
    requires !a.Uncastable? && !b.Uncastable?
    ensures CustomerText(a) == CustomerText(b) <==> a == b
  {
    if a.Cast? && b.Cast? {
      IntTextInjective(a.id, b.id);
    }
  }

  /** A float id such as 12345.0 becomes the text "12345". */
  lemma FloatIdBecomesIntegerText(p: Parsers)
    requires p.number("12345.0") == Some(12345.0)
    ensures CastCustomerId(Value("12345.0"), p.number) == Cast(12345)
    ensures CustomerText(CastCustomerId(Value("12345.0"), p.number)) == "12345"
  {
    assert NatText(1) == "1";
    assert NatText(12) == "12";
    assert NatText(123) == "123";
    assert NatText(1234) == "1234";
    assert NatText(12345) == "12345";
  }

  /** Lines 64-67 and 76-91: the cleaned record for one surviving row. */
  function Derive(x: Parsed, customer: string): (c: CleanRecord)
    ensures x.quantity != 0 && x.price > 0.0 && IsCustomerText(customer) ==> WellFormed(c)
    ensures c.invoiceDatetime == x.ts && c.quantity == x.quantity && c.unitPrice == x.price
    ensures c.customerId == customer
    ensures c.invoiceNo == Strip(AsText(x.raw.invoice)) && c.stockCode == Strip(AsText(x.raw.stockCode))
    ensures c.description == Strip(AsText(x.raw.description)) && c.country == Strip(AsText(x.raw.country))
  {
    var date := x.ts.date;
    var invoiceNo := Strip(AsText(x.raw.invoice));
    var stockCode := Strip(AsText(x.raw.stockCode));
    var description := Strip(AsText(x.raw.description));
    var country := Strip(AsText(x.raw.country));
    var c := CleanRecord(
      invoiceNo := invoiceNo,
      invoiceDatetime := x.ts,
      fullDate := date,
      year := date.year,
      month := date.month,
      monthName := MonthAbbrev(date.month),
      quarter := QuarterOf(date.month),
      customerId := customer,
      stockCode := stockCode,
      description := description,
      country := country,
      quantity := x.quantity,
      unitPrice := x.price,
      revenue := Revenue(x.quantity, x.price),
      isReturn := if x.quantity < 0 then 1 else 0);
    c
  }

  /** One row through lines 64-91: its derived record, or nothing when its
      customer id cannot be cast. */
  function CleanRow(x: Parsed, p: Parsers): (r: Option<CleanRecord>)
    ensures r.None? <==> CastCustomerId(x.raw.customerId, p.number).Uncastable?
    ensures r.Some? && x.quantity != 0 && x.price > 0.0 ==> WellFormed(r.value)
  {
    var cast := CastCustomerId(x.raw.customerId, p.number);
    if cast.Uncastable? then None else Some(Derive(x, CustomerText(cast)))
  }

  /** A column-wide operation that either succeeds on every row or fails as a
      whole: the results of `f`, in order, if none of them is missing. */
  function MapAll<A, B>(f: A -> Option<B>, xs: seq<A>): (r: Option<seq<B>>)
    ensures r.Some? <==> forall i :: 0 <= i < |xs| ==> f(xs[i]).Some?
    ensures r.Some? ==> |r.value| == |xs| && forall i :: 0 <= i < |xs| ==> f(xs[i]) == Some(r.value[i])
  {
    if xs == [] then Some([])
    else
      match (f(xs[0]), MapAll(f, xs[1..]))
      case (Some(y), Some(ys)) => Some([y] + ys)
      case _ => None
  }

  /** Lines 64-91 over the filtered frame. The cast of line 72 applies to the
      whole column, so a single uncastable id aborts the run; otherwise every
      row is kept, none is dropped or reordered, and each becomes its derived
      record. */
  function Standardize(rows: seq<Parsed>, p: Parsers): (r: Result<seq<CleanRecord>, PipelineError>)
    ensures r.Success? <==> forall i :: 0 <= i < |rows| ==> !CastCustomerId(rows[i].raw.customerId, p.number).Uncastable?
    ensures r.Failure? ==> r.error == UncastableCustomerId
    ensures r.Success? ==> |r.value| == |rows| && forall i :: 0 <= i < |rows| ==> CleanRow(rows[i], p) == Some(r.value[i])
  {
    var clean := x => CleanRow(x, p);
    assert forall i :: 0 <= i < |rows| ==> clean(rows[i]) == CleanRow(rows[i], p);
    match MapAll(clean, rows)
    case None => Failure(UncastableCustomerId)
    case Some(records) => Success(records)
  }

  /** Every record `Standardize` produces from rows that passed line 61 is
      well formed. */
  lemma StandardizeWellFormed(rows: seq<Parsed>, p: Parsers)
    requires forall i :: 0 <= i < |rows| ==> rows[i].quantity != 0 && rows[i].price > 0.0
    requires Standardize(rows, p).Success?
    ensures forall i :: 0 <= i < |rows| ==> WellFormed(Standardize(rows, p).value[i])
  {
    var records := Standardize(rows, p).value;
    forall i | 0 <= i < |rows|
      ensures WellFormed(records[i])
    {
      assert CleanRow(rows[i], p) == Some(records[i]);
    }
  }

  /** Lines 52-91: the cleaned frame of `main()`, or the error that aborts
      it; every record it produces is well formed. */
  function Clean(rows: seq<RawRow>, p: Parsers): (r: Result<seq<CleanRecord>, PipelineError>)
    ensures r.Failure? ==> r.error == UncastableCustomerId
    ensures r.Success? ==> |r.value| <= |rows| && forall i :: 0 <= i < |r.value| ==> WellFormed(r.value[i])
  {
    var survivors := Survivors(rows, p);
    var r := Standardize(survivors, p);
    if r.Success? then
      StandardizeWellFormed(survivors, p);
      r
    else r
  }

  /** Cleaning fails exactly when some row that passes all three filters
      has a customer id the `Int64` cast rejects; ids of dropped rows never
      matter. */
  lemma CleanSucceeds(rows: seq<RawRow>, p: Parsers)
    ensures Clean(rows, p).Success? <==>
      forall i :: 0 <= i < |rows| && Classify(rows[i], p).Success? ==>
        !CastCustomerId(rows[i].customerId, p.number).Uncastable?
  {
    var survivors := Survivors(rows, p);
    var idx := SurvivorsPicks(rows, p);
    if Clean(rows, p).Success? {
      forall i | 0 <= i < |rows| && Classify(rows[i], p).Success?
        ensures !CastCustomerId(rows[i].customerId, p.number).Uncastable?
      {
        var k :| 0 <= k < |idx| && idx[k] == i;
        assert survivors[k].raw == rows[i];
      }
    } else {
      var k :| 0 <= k < |survivors| && CastCustomerId(survivors[k].raw.customerId, p.number).Uncastable?;
      assert survivors[k].raw == rows[idx[k]];
    }
  }

  /** The cleaned records stand for the rows that pass all three filters,
      each once and in input order: record k is derived from the accepted
      row at position `idx[k]`, the positions increase strictly, and every
      accepted row has its record. */
  lemma CleanRecordsComeFromValidRows(rows: seq<RawRow>, p: Parsers) returns (idx: seq<nat>)
    requires Clean(rows, p).Success?
    ensures Increasing(idx, |rows|) && |idx| == |Clean(rows, p).value|
    ensures forall k :: 0 <= k < |idx| ==>
      && Classify(rows[idx[k]], p).Success?
      && CleanRow(Classify(rows[idx[k]], p).value, p) == Some(Clean(rows, p).value[k])
    ensures forall i :: 0 <= i < |rows| && Classify(rows[i], p).Success? ==> i in idx
  {
    idx := SurvivorsPicks(rows, p);
  }

  /** The return flag, the sign of the quantity and the sign of the revenue
      agree on every cleaned record, and revenue is never zero. */
  lemma ReturnFlagMatchesRevenue(c: CleanRecord)
    requires WellFormed(c)
    ensures c.isReturn == 1 <==> c.quantity < 0
    ensures c.isReturn == 1 <==> c.revenue < 0.0
    ensures c.isReturn == 0 <==> c.revenue > 0.0
  {
  }

  /** The quarter is the one whose months include the record's month. */
  lemma QuarterContainsMonth(c: CleanRecord)
    requires WellFormed(c)
    ensures 1 <= c.quarter <= 4 && 3 * (c.quarter - 1) < c.month <= 3 * c.quarter
    ensures c.month == c.invoiceDatetime.date.month && c.year == c.invoiceDatetime.date.year
  {
  }
}
