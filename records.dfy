/**
 * The values that flow through the warehouse build: raw cells and rows as the
 * CSV reader hands them over, parsed timestamps, cleaned records, dimension
 * rows and the errors that abort a run.
 */
module Records {
  import opened Wrappers
  import Text

  type Month = m: int | 1 <= m <= 12 witness 1
  type Day = d: int | 1 <= d <= 31 witness 1
  type Hour = h: int | 0 <= h < 24
  type Minute = m: int | 0 <= m < 60
  type Quarter = q: int | 1 <= q <= 4 witness 1

  /** A calendar day: what `strftime("%Y-%m-%d")` renders as `full_date`. */
  datatype Date = Date(year: int, month: Month, day: Day)

  /** A parsed invoice timestamp (a non-null `datetime64` value). */
  datatype Timestamp = Timestamp(date: Date, hour: Hour, minute: Minute, second: Minute)

  /** One cell of the input frame: missing (`NaN`) or the text read from the file. */
  datatype Cell = Blank | Value(text: string)

  /** One input row, its cells taken from the eight required columns. */
  datatype RawRow = RawRow(
    invoice: Cell,
    stockCode: Cell,
    description: Cell,
    quantity: Cell,
    invoiceDate: Cell,
    price: Cell,
    customerId: Cell,
    country: Cell)

  /** The parsers the build borrows from its dataframe library, as partial
      functions: `to_datetime(errors="coerce")` and `to_numeric(errors="coerce")`,
      the latter once for integral quantities and once for decimal values.
      `None` stands for the `NaT`/`NaN` a failed parse leaves behind. */
  datatype Parsers = Parsers(
    timestamp: string -> Option<Timestamp>,
    integer: string -> Option<int>,
    number: string -> Option<real>)

  /** A parser applied to one cell; a missing cell never parses. */
  function ParseCell<T>(parse: string -> Option<T>, c: Cell): Option<T> {
    match c
    case Blank => None
    case Value(s) => parse(s)
  }

  /** `astype(str)`: a missing cell becomes the text "nan", so after the
      conversion it cannot be told apart from a cell holding "nan". */
  function AsText(c: Cell): (r: string)
    ensures c.Value? ==> r == c.text
    ensures r == "nan" <==> c.Blank? || c == Value("nan")
  {
    match c
    case Blank => "nan"
    case Value(s) => s
  }

  /** `strftime("%b")` in the C locale. */
  function MonthAbbrev(m: Month): (name: string)
    ensures |name| == 3
  {
    ["Jan", "Feb", "Mar", "Apr", "May", "Jun", "Jul", "Aug", "Sep", "Oct", "Nov", "Dec"][m - 1]
  }

  /** `(month - 1) // 3 + 1`: the quarter whose three months contain `m`. */
  function QuarterOf(m: Month): (q: Quarter)
    ensures 3 * (q - 1) < m <= 3 * q
  {
    (m - 1) / 3 + 1
  }

  /** Line 90: `quantity * unit_price`. At a positive price revenue has the
      sign of the quantity: negative for a return, never zero for a sale. */
  function Revenue(quantity: int, unitPrice: real): (r: real)
    ensures unitPrice > 0.0 ==> (r < 0.0 <==> quantity < 0) && (r > 0.0 <==> quantity > 0)
  {
    var q := quantity as real;
    assert unitPrice > 0.0 && quantity < 0 ==> q * unitPrice < 0.0;
    assert unitPrice > 0.0 && quantity > 0 ==> q * unitPrice >= unitPrice by {
      if unitPrice > 0.0 && quantity > 0 {
        assert q >= 1.0;
      }
    }
    q * unitPrice
  }

  /** Range of the nullable `Int64` type the customer ids are cast to. */
  const Int64Min: int := -0x8000_0000_0000_0000
  const Int64Max: int := 0x7FFF_FFFF_FFFF_FFFF

  /** A customer id as stored in `customer_id`: the sentinel "GUEST" or an
      integer rendered in decimal. */
  ghost predicate IsCustomerText(s: string) {
    s == "GUEST" || exists n :: s == Text.IntText(n)
  }

  /** One row of the cleaned frame with its derived columns. */
  datatype CleanRecord = CleanRecord(
    invoiceNo: string,
    invoiceDatetime: Timestamp,
    fullDate: Date,
    year: int,
    month: Month,
    monthName: string,
    quarter: Quarter,
    customerId: string,
    stockCode: string,
    description: string,
    country: string,
    quantity: int,
    unitPrice: real,
    revenue: real,
    isReturn: int)

  /** What every cleaned record satisfies: a nonzero quantity, a positive
      price, the date parts taken from its one timestamp, the revenue and
      return flag derived from quantity and price, trimmed text fields and a
      normalised customer id. */
  ghost predicate WellFormed(c: CleanRecord) {
    && c.quantity != 0
    && c.unitPrice > 0.0
    && c.fullDate == c.invoiceDatetime.date
    && c.year == c.fullDate.year
    && c.month == c.fullDate.month
    && c.monthName == MonthAbbrev(c.month)
    && c.quarter == QuarterOf(c.month)
    && c.revenue == Revenue(c.quantity, c.unitPrice)
    && c.isReturn == (if c.quantity < 0 then 1 else 0)
    && Text.IsStripped(c.invoiceNo)
    && Text.IsStripped(c.stockCode)
    && Text.IsStripped(c.description)
    && Text.IsStripped(c.country)
    && IsCustomerText(c.customerId)
  }

  /** Natural key of `dim_product`. */
  type ProductKey = (string, string)

  /** A row of `dim_date`: the day and its denormalised attributes. */
  datatype DateRow = DateRow(fullDate: Date, year: int, month: Month, monthName: string, quarter: Quarter)

  /** The errors that abort a run. */
  datatype PipelineError =
    | MissingColumn(name: string, found: seq<string>)
    | UncastableCustomerId
}
