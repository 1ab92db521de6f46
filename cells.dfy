/** Cell decoding (`cell_to_string`, `get_cell`) and the header columns of `read_columns`. */
module Cells {
  import opened Text
  import ColumnCode

  const I64_MIN: int := -0x8000_0000_0000_0000
  const I64_MAX: int := 0x7FFF_FFFF_FFFF_FFFF

  type I64 = i: int | I64_MIN <= i <= I64_MAX

  /** Rust's `Display` of a double that is not a whole number (the shortest text that reads
      back as the same double). It is library code, so the caller supplies it. */
  type FloatFormat = real -> string

  /** A cell value as the spreadsheet reader hands it over. Date-times and error markers
      carry the text the library's own formatting gives them. */
  datatype Cell =
    | Str(s: string)
    | Float(f: real)
    | Int(i: I64)
    | Bool(b: bool)
    | DateTime(shown: string)
    | DateTimeIso(iso: string)
    | DurationIso(duration: string)
    | Error(shown: string)
    | Empty

  predicate IsWhole(x: real) { x == x.Floor as real }

  /** Rust's `f as i64` on a whole double: values outside the `i64` range saturate. */
  function SaturateI64(n: int): (r: I64)
    ensures I64_MIN <= n <= I64_MAX ==> r == n
  {
    if n < I64_MIN then I64_MIN else if n > I64_MAX then I64_MAX else n
  }

  /** The number rendering as written: a whole number goes through `as i64` and prints
      without a decimal point, any other number through `Display`. */
  function RenderNumberAsWritten(x: real, fmt: FloatFormat): string
  {
    if IsWhole(x) then IntToString(SaturateI64(x.Floor)) else fmt(x)
  }

  /** As written, a whole number at or beyond 2^63 (a twenty-digit identifier stored as a
      number, say) is printed as i64::MAX, text that reads back as a different number. */
  lemma SaturationChangesLargeWholeNumbers(fmt: FloatFormat)
    ensures var x := 10_000_000_000_000_000_000.0;
            ParseFloat(RenderNumberAsWritten(x, fmt)) == Some(I64_MAX as real)
            && ParseFloat(RenderNumberAsWritten(x, fmt)) != Some(x)
  {
    var x := 10_000_000_000_000_000_000.0;
    assert x.Floor == 10_000_000_000_000_000_000;
    IntToStringReadsBack(I64_MAX);
  }

  /** The intended rendering: a whole number in full without a decimal point (so phone
      numbers and identifiers do not gain a trailing ".0"), any other number through
      `Display`. */
  function RenderNumber(x: real, fmt: FloatFormat): (s: string)
    ensures IsWhole(x) ==> ParseFloat(s) == Some(x) && '.' !in s
    ensures !IsWhole(x) ==> s == fmt(x)
  {
    if IsWhole(x) then
      IntToStringReadsBack(x.Floor);
      IntToStringHasNoPoint(x.Floor);
      IntToString(x.Floor)
    else fmt(x)
  }

  /** Inside the `i64` range the written and the intended renderings agree. */
  lemma RenderingsAgreeInRange(x: real, fmt: FloatFormat)
    requires I64_MIN as real <= x <= I64_MAX as real
    ensures RenderNumberAsWritten(x, fmt) == RenderNumber(x, fmt)
  {
  }

  /** `cell_to_string`: text and ISO text verbatim, numbers in decimal, booleans as
      "true"/"false", the empty cell as "". */
  function CellToString(cell: Cell, fmt: FloatFormat): (s: string)
    ensures cell.Str? ==> s == cell.s
    ensures cell.Empty? ==> s == ""
    ensures cell.Int? ==> ParseFloat(s) == Some(cell.i as real) && '.' !in s
    ensures cell.Float? && IsWhole(cell.f) ==> ParseFloat(s) == Some(cell.f) && '.' !in s
    ensures cell.Float? && !IsWhole(cell.f) ==> s == fmt(cell.f)
  {
    match cell
    case Str(text) => text
    case Float(f) => RenderNumber(f, fmt)
    case Int(i) =>
      IntToStringReadsBack(i);
      IntToStringHasNoPoint(i);
      IntToString(i)
    case Bool(b) => if b then "true" else "false"
    case DateTime(shown) => shown
    case DateTimeIso(iso) => iso
    case DurationIso(duration) => duration
    case Error(shown) => shown
    case Empty => ""
  }

  /** `get_cell`: the decoded cell at `index`, or "" when the row is shorter. */
  function GetCell(row: seq<Cell>, index: nat, fmt: FloatFormat): (s: string)
    ensures index >= |row| ==> s == ""
    ensures index < |row| ==> s == CellToString(row[index], fmt)
  {
    if index < |row| then CellToString(row[index], fmt) else ""
  }

  /** One entry of the header description: position, letter code and title. */
  datatype ColumnInfo = ColumnInfo(index: nat, code: string, title: string)

  /** The column list `read_columns` builds from the first row of the sheet. */
  method ReadHeader(header: seq<Cell>, fmt: FloatFormat) returns (columns: seq<ColumnInfo>)
    ensures |columns| == |header|
    ensures forall i :: 0 <= i < |columns| ==>
      columns[i].index == i && columns[i].code == ColumnCode.Code(i)
      && columns[i].title == CellToString(header[i], fmt)
  {
    columns := [];
    for i := 0 to |header|
      invariant |columns| == i
      invariant forall j :: 0 <= j < i ==>
        columns[j] == ColumnInfo(j, ColumnCode.Code(j), CellToString(header[j], fmt))
    {
      var code := ColumnCode.IndexToColumnCode(i);
      columns := columns + [ColumnInfo(i, code, CellToString(header[i], fmt))];
    }
  }

  /** The header columns have pairwise distinct letter codes. */
  lemma HeaderCodesDistinct(columns: seq<ColumnInfo>, i: nat, j: nat)
    requires forall k :: 0 <= k < |columns| ==> columns[k].code == ColumnCode.Code(k)
    requires i < j < |columns|
    ensures columns[i].code != columns[j].code
  {
    if columns[i].code == columns[j].code {
      ColumnCode.CodeInjective(i, j);
    }
  }
}
