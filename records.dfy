/** The converted order record, the mapping table, and the row converter of
    `read_and_convert_with_mapping` (every data row through the mapping table, empty
    recipients dropped). */
module Records {
  import opened Text
  import opened Cells
  import opened Operations

  /** The canonical output record: seven text fields and a group id (0 = not in a group). */
  datatype ConvertedRow = ConvertedRow(
    recipientName: string,
    recipientPhone: string,
    deliveryAddress: string,
    productName: string,
    productSpec: string,
    quantity: string,
    remarks: string,
    groupId: nat)

  /** The identity of a recipient: name, phone and address. */
  datatype Key = Key(name: string, phone: string, address: string)

  function KeyOf(r: ConvertedRow): Key
  {
    Key(r.recipientName, r.recipientPhone, r.deliveryAddress)
  }

  /** A record is kept only if its name, phone or address is non-empty. */
  predicate HasIdentity(r: ConvertedRow)
  {
    r.recipientName != "" || r.recipientPhone != "" || r.deliveryAddress != ""
  }

  /** Which source columns feed a field, and how they are combined. */
  datatype ColumnMapping = ColumnMapping(sourceIndices: seq<nat>, operation: string)

  /** Output field name to mapping, as the user configures it; names that are not fields
      may occur and are ignored. */
  type MappingTable = map<string, ColumnMapping>

  datatype Field = RecipientName | RecipientPhone | DeliveryAddress | ProductName | ProductSpec | Quantity | Remarks

  function FieldName(f: Field): string
  {
    match f
    case RecipientName => "recipient_name"
    case RecipientPhone => "recipient_phone"
    case DeliveryAddress => "delivery_address"
    case ProductName => "product_name"
    case ProductSpec => "product_spec"
    case Quantity => "quantity"
    case Remarks => "remarks"
  }

  function Get(r: ConvertedRow, f: Field): string
  {
    match f
    case RecipientName => r.recipientName
    case RecipientPhone => r.recipientPhone
    case DeliveryAddress => r.deliveryAddress
    case ProductName => r.productName
    case ProductSpec => r.productSpec
    case Quantity => r.quantity
    case Remarks => r.remarks
  }

  /** Every field empty except the quantity, which is "1"; no group. */
  const DefaultRow: ConvertedRow := ConvertedRow("", "", "", "", "", "1", "", 0)

  /** The decoded values at the given column indices, in the order the mapping lists them. */
  function Gather(cells: seq<Cell>, indices: seq<nat>, fmt: FloatFormat): (values: seq<string>)
    ensures |values| == |indices|
    ensures forall i :: 0 <= i < |indices| ==> values[i] == GetCell(cells, indices[i], fmt)
  {
    if indices == [] then []
    else [GetCell(cells, indices[0], fmt)] + Gather(cells, indices[1..], fmt)
  }

  function MappedValue(cells: seq<Cell>, mapping: ColumnMapping, fmt: FloatFormat): string
  {
    ApplyOperation(Gather(cells, mapping.sourceIndices, fmt), mapping.operation, fmt)
  }

  /** A field's value: what its mapping computes, or its default when it has none. */
  function FieldValue(cells: seq<Cell>, table: MappingTable, f: Field, fmt: FloatFormat): string
  {
    if FieldName(f) in table then MappedValue(cells, table[FieldName(f)], fmt) else Get(DefaultRow, f)
  }

  /** The record one data row converts to. */
  function ConvertRow(cells: seq<Cell>, table: MappingTable, fmt: FloatFormat): ConvertedRow
  {
    ConvertedRow(
      FieldValue(cells, table, RecipientName, fmt),
      FieldValue(cells, table, RecipientPhone, fmt),
      FieldValue(cells, table, DeliveryAddress, fmt),
      FieldValue(cells, table, ProductName, fmt),
      FieldValue(cells, table, ProductSpec, fmt),
      FieldValue(cells, table, Quantity, fmt),
      FieldValue(cells, table, Remarks, fmt),
      0)
  }

  lemma RowsEqualByFields(a: ConvertedRow, b: ConvertedRow)
    requires forall f :: Get(a, f) == Get(b, f)
    requires a.groupId == b.groupId
    ensures a == b
  {
    assert Get(a, RecipientName) == Get(b, RecipientName);
    assert Get(a, RecipientPhone) == Get(b, RecipientPhone);
    assert Get(a, DeliveryAddress) == Get(b, DeliveryAddress);
    assert Get(a, ProductName) == Get(b, ProductName);
    assert Get(a, ProductSpec) == Get(b, ProductSpec);
    assert Get(a, Quantity) == Get(b, Quantity);
    assert Get(a, Remarks) == Get(b, Remarks);
  }

  /** The field a table entry's name designates, if any (`match field.as_str()`). */
  function FieldOf(name: string): (f: Option<Field>)
    ensures f.Some? ==> FieldName(f.value) == name
    ensures f.None? ==> forall g :: FieldName(g) != name
  {
    if name == "recipient_name" then Some(RecipientName)
    else if name == "recipient_phone" then Some(RecipientPhone)
    else if name == "delivery_address" then Some(DeliveryAddress)
    else if name == "product_name" then Some(ProductName)
    else if name == "product_spec" then Some(ProductSpec)
    else if name == "quantity" then Some(Quantity)
    else if name == "remarks" then Some(Remarks)
    else None
  }

  /** `r` with field `f` replaced by `v`. */
  function Set(r: ConvertedRow, f: Field, v: string): (r': ConvertedRow)
    ensures forall g :: Get(r', g) == if g == f then v else Get(r, g)
    ensures r'.groupId == r.groupId
  {
    match f
    case RecipientName => r.(recipientName := v)
    case RecipientPhone => r.(recipientPhone := v)
    case DeliveryAddress => r.(deliveryAddress := v)
    case ProductName => r.(productName := v)
    case ProductSpec => r.(productSpec := v)
    case Quantity => r.(quantity := v)
    case Remarks => r.(remarks := v)
  }

  /** The value field `f` holds once the entries outside `pending` have been applied. */
  function PartialValue(cells: seq<Cell>, table: MappingTable, pending: set<string>, f: Field, fmt: FloatFormat): string
  {
    if FieldName(f) in table && FieldName(f) !in pending
    then MappedValue(cells, table[FieldName(f)], fmt) else Get(DefaultRow, f)
  }

  /** Applying the entry `field` to a row built from the entries outside `pending` gives the
      row built from the entries outside `pending - {field}`. */
  lemma PendingStep(cells: seq<Cell>, table: MappingTable, pending: set<string>, field: string,
                    before: ConvertedRow, after: ConvertedRow, fmt: FloatFormat)
    requires field in pending && pending <= table.Keys
    requires forall f :: Get(before, f) == PartialValue(cells, table, pending, f, fmt)
    requires forall f :: Get(after, f) == if FieldName(f) == field then MappedValue(cells, table[field], fmt) else Get(before, f)
    ensures forall f :: Get(after, f) == PartialValue(cells, table, pending - {field}, f, fmt)
  {
  }

  /** The mapping loop for one row: starts from the defaults and, for each entry of the
      table in whatever order the table yields them, computes the entry's value and stores
      it in the field the entry names, if any. */
  method BuildRow(cells: seq<Cell>, table: MappingTable, fmt: FloatFormat) returns (converted: ConvertedRow)
    ensures converted == ConvertRow(cells, table, fmt)
  {
    converted := DefaultRow;
    var pending := table.Keys;
    while pending != {}
      invariant pending <= table.Keys
      invariant converted.groupId == 0
      invariant forall f :: Get(converted, f) == PartialValue(cells, table, pending, f, fmt)
      decreases pending
    {
      var field :| field in pending;
      var mapping := table[field];
      var values := Gather(cells, mapping.sourceIndices, fmt);
      var result := ApplyOperation(values, mapping.operation, fmt);
      ghost var before := converted;
      match FieldOf(field) {
        case Some(f) => converted := Set(converted, f, result);
        case None =>
      }
      PendingStep(cells, table, pending, field, before, converted, fmt);
      pending := pending - {field};
    }
    assert forall f :: Get(converted, f) == FieldValue(cells, table, f, fmt);
    RowsEqualByFields(converted, ConvertRow(cells, table, fmt));
  }

  /** A field the table does not map keeps its default: "1" for the quantity, "" otherwise. */
  lemma UnmappedFieldsKeepDefaults(cells: seq<Cell>, table: MappingTable, f: Field, fmt: FloatFormat)
    requires FieldName(f) !in table
    ensures Get(ConvertRow(cells, table, fmt), f) == if f == Quantity then "1" else ""
  {
    match f
    case RecipientName =>
    case RecipientPhone =>
    case DeliveryAddress =>
    case ProductName =>
    case ProductSpec =>
    case Quantity =>
    case Remarks =>
  }

  /** An entry whose name is not a field changes nothing. */
  lemma UnknownNamesIgnored(cells: seq<Cell>, table: MappingTable, name: string, mapping: ColumnMapping, fmt: FloatFormat)
    requires forall f :: FieldName(f) != name
    ensures ConvertRow(cells, table[name := mapping], fmt) == ConvertRow(cells, table, fmt)
  {
    var table' := table[name := mapping];
    forall f ensures FieldValue(cells, table', f, fmt) == FieldValue(cells, table, f, fmt) {
      assert FieldName(f) != name;
    }
  }

  /** The conversions of the data rows, that is of every row after the header (row 0). */
  function DataRows(sheet: seq<seq<Cell>>, table: MappingTable, fmt: FloatFormat): (rows: seq<ConvertedRow>)
    ensures |rows| == if sheet == [] then 0 else |sheet| - 1
    ensures forall i :: 1 <= i < |sheet| ==> rows[i - 1] == ConvertRow(sheet[i], table, fmt)
  {
    if |sheet| <= 1 then []
    else seq(|sheet| - 1, i requires 0 <= i < |sheet| - 1 => ConvertRow(sheet[i + 1], table, fmt))
  }

  /** The rows that have an identity, in their order. */
  function KeepIdentified(rows: seq<ConvertedRow>): seq<ConvertedRow>
  {
    if rows == [] then []
    else
      var last := rows[|rows| - 1];
      KeepIdentified(rows[..|rows| - 1]) + if HasIdentity(last) then [last] else []
  }

  /** The records the converter emits, in source row order. */
  function Records(sheet: seq<seq<Cell>>, table: MappingTable, fmt: FloatFormat): seq<ConvertedRow>
  {
    KeepIdentified(DataRows(sheet, table, fmt))
  }

  /** The row loop: skips row 0, converts every other row and appends it unless its name,
      phone and address are all empty. */
  method ConvertRows(sheet: seq<seq<Cell>>, table: MappingTable, fmt: FloatFormat) returns (rows: seq<ConvertedRow>)
    ensures rows == Records(sheet, table, fmt)
  {
    ghost var converted := DataRows(sheet, table, fmt);
    rows := [];
    for i := 0 to |sheet|
      invariant rows == KeepIdentified(converted[..if i == 0 then 0 else i - 1])
    {
      if i == 0 {
        continue;
      }
      var row := BuildRow(sheet[i], table, fmt);
      assert converted[..i][..i - 1] == converted[..i - 1];
      assert row == converted[i - 1];
      if row.recipientName == "" && row.recipientPhone == "" && row.deliveryAddress == "" {
        continue;
      }
      rows := rows + [row];
    }
    assert converted[..if |sheet| == 0 then 0 else |sheet| - 1] == converted;
  }

  /** Filtering keeps exactly the rows that have an identity, in their order. */
  lemma {:induction false} KeepIdentifiedExact(rows: seq<ConvertedRow>)
    ensures |KeepIdentified(rows)| <= |rows|
    ensures forall r :: r in KeepIdentified(rows) <==> r in rows && HasIdentity(r)
  {
    if rows != [] {
      KeepIdentifiedExact(rows[..|rows| - 1]);
      assert rows == rows[..|rows| - 1] + [rows[|rows| - 1]];
    }
  }

  /** Every record emitted has an identity, no group, and is the conversion of a data row
      (never of the header); every data row whose conversion has an identity is emitted. */
  lemma RecordsSoundAndComplete(sheet: seq<seq<Cell>>, table: MappingTable, fmt: FloatFormat)
    ensures |Records(sheet, table, fmt)| <= if sheet == [] then 0 else |sheet| - 1
    ensures forall r :: r in Records(sheet, table, fmt) ==>
      HasIdentity(r) && r.groupId == 0 && exists i :: 1 <= i < |sheet| && r == ConvertRow(sheet[i], table, fmt)
    ensures forall i :: 1 <= i < |sheet| && HasIdentity(ConvertRow(sheet[i], table, fmt)) ==>
      ConvertRow(sheet[i], table, fmt) in Records(sheet, table, fmt)
  {
    var rows := DataRows(sheet, table, fmt);
    KeepIdentifiedExact(rows);
    forall r | r in Records(sheet, table, fmt)
      ensures r.groupId == 0 && exists i :: 1 <= i < |sheet| && r == ConvertRow(sheet[i], table, fmt)
    {
      var j :| 0 <= j < |rows| && rows[j] == r;
      assert r == ConvertRow(sheet[j + 1], table, fmt);
    }
    forall i | 1 <= i < |sheet| && HasIdentity(ConvertRow(sheet[i], table, fmt))
      ensures ConvertRow(sheet[i], table, fmt) in Records(sheet, table, fmt)
    {
      assert rows[i - 1] == ConvertRow(sheet[i], table, fmt);
    }
  }

  /** Whatever the header row holds, it does not affect the records. */
  lemma HeaderIgnored(sheet: seq<seq<Cell>>, header: seq<Cell>, table: MappingTable, fmt: FloatFormat)
    requires sheet != []
    ensures Records(sheet[0 := header], table, fmt) == Records(sheet, table, fmt)
  {
    assert DataRows(sheet[0 := header], table, fmt) == DataRows(sheet, table, fmt);
  }
}
