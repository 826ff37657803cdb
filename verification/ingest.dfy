/** `processExcelData`: the rows of the first worksheet turned into commission
    records. The first row is the header; every later row is mapped through a
    fixed column layout and kept only when one of its two commission amounts
    is positive. */
module Ingest {
  import opened Wrappers
  import opened JsText
  import opened Cells
  import opened ExcelDate

  /** One row of the grid: absent (`undefined`) or a list of cells. */
  datatype RawRow = Absent | Row(cells: seq<Cell>)

  /** One commission record, as it is handed to the database. */
  datatype CommissionRecord = CommissionRecord(
    id: string,
    orderDate: string,
    courseName: string,
    customerPayment: real,
    affiliateCode: string,
    affiliate10Recipient: string,
    affiliate10Amount: real,
    invitorCode: string,
    invitor15Recipient: string,
    invitor15Amount: real,
    orderNo: string)

  // The column layout of the worksheet (0-based).
  const DateColumn: nat := 0
  const CourseColumn: nat := 1
  const PaymentColumn: nat := 6
  const AffiliateCodeColumn: nat := 8
  const AffiliateRecipientColumn: nat := 9
  const InvitorCodeColumn: nat := 10
  const InvitorRecipientColumn: nat := 11
  const AffiliateAmountColumn: nat := 12
  const InvitorAmountColumn: nat := 13
  const OrderNoColumn: nat := 16

  /** The message of the error thrown for a grid without data rows. */
  const InvalidExcelData := "Invalid Excel data"

  /** `record_${Date.now()}_${index}`; both numbers stay below 10^21, so
      they print as plain decimals. */
  function RecordId(now: nat, index: nat): string
  {
    "record_" + Dec(now) + "_" + Dec(index)
  }

  /** `ORDER-${index + 1}`. */
  function DefaultOrderNo(index: nat): string
  {
    "ORDER-" + Dec(index + 1)
  }

  /** The record built from the cells of data row `index` (0-based, header
      not counted) when the clock reads `now`. Building it throws exactly
      when the date conversion does. */
  function NormalizeRow(host: Host, now: nat, cells: seq<Cell>, index: nat): (r: Result<CommissionRecord, DateError>)
    ensures r.Failure? <==> ConvertExcelDate(host, CellAt(cells, DateColumn)).Failure?
  {
    match ConvertExcelDate(host, CellAt(cells, DateColumn))
    case Failure(e) => Failure(e)
    case Success(orderDate) =>
      var orderCell := CellAt(cells, OrderNoColumn);
      Success(CommissionRecord(
        id := RecordId(now, index),
        orderDate := orderDate,
        courseName := TextOr(host, CellAt(cells, CourseColumn)),
        customerPayment := AmountOr(host, CellAt(cells, PaymentColumn)),
        affiliateCode := TextOr(host, CellAt(cells, AffiliateCodeColumn)),
        affiliate10Recipient := TextOr(host, CellAt(cells, AffiliateRecipientColumn)),
        affiliate10Amount := AmountOr(host, CellAt(cells, AffiliateAmountColumn)),
        invitorCode := TextOr(host, CellAt(cells, InvitorCodeColumn)),
        invitor15Recipient := TextOr(host, CellAt(cells, InvitorRecipientColumn)),
        invitor15Amount := AmountOr(host, CellAt(cells, InvitorAmountColumn)),
        orderNo := if Truthy(orderCell) then ToJsString(host, orderCell) else DefaultOrderNo(index)))
  }

  /** The inclusion rule: at least one commission amount is positive. */
  predicate HasCommission(r: CommissionRecord)
  {
    r.affiliate10Amount > 0.0 || r.invitor15Amount > 0.0
  }

  /** The date cell converts without throwing: it is not a serial beyond
      the last valid time value. */
  predicate DateConverts(c: Cell)
  {
    !(IsSerial(c) && SerialOutOfRange(c.value))
  }

  /** A data row yields a record: it is present and non-empty, its date
      converts, and one of its two commission cells reads as a positive
      number. The verdict depends neither on the clock nor on the row's
      position. */
  predicate Kept(host: Host, row: RawRow)
  {
    && row.Row? && |row.cells| > 0
    && DateConverts(CellAt(row.cells, DateColumn))
    && (AmountOr(host, CellAt(row.cells, AffiliateAmountColumn)) > 0.0
        || AmountOr(host, CellAt(row.cells, InvitorAmountColumn)) > 0.0)
  }

  /** The record a kept row yields. */
  function RecordFor(host: Host, clock: nat -> nat, row: RawRow, index: nat): CommissionRecord
    requires Kept(host, row)
  {
    NormalizeRow(host, clock(index), row.cells, index).value
  }

  /** What one pass of the `forEach` body pushes for data row `index`:
      nothing for an empty row, nothing when the mapping throws (the
      exception is caught and logged), nothing when both amounts are not
      positive, and the record otherwise. This is exactly the record of a
      kept row. */
  function Emit(host: Host, clock: nat -> nat, row: RawRow, index: nat): (r: seq<CommissionRecord>)
    ensures r == if Kept(host, row) then [RecordFor(host, clock, row, index)] else []
  {
    if row.Absent? || |row.cells| == 0 then []
    else
      match NormalizeRow(host, clock(index), row.cells, index)
      case Failure(_) => []
      case Success(r) => if HasCommission(r) then [r] else []
  }

  /** The records the data rows `rows` yield, in row order. There are no
      more of them than rows, and each has a positive commission. */
  function Records(host: Host, clock: nat -> nat, rows: seq<RawRow>): (out: seq<CommissionRecord>)
    ensures |out| <= |rows|
    ensures forall r :: r in out ==> HasCommission(r)
    decreases |rows|
  {
    if rows == [] then []
    else Records(host, clock, rows[..|rows| - 1]) + Emit(host, clock, rows[|rows| - 1], |rows| - 1)
  }

  /** The positions of the kept rows, in increasing order. */
  function KeptIndices(host: Host, rows: seq<RawRow>): (idx: seq<nat>)
    ensures |idx| <= |rows|
    decreases |rows|
  {
    if rows == [] then []
    else KeptIndices(host, rows[..|rows| - 1]) + (if Kept(host, rows[|rows| - 1]) then [|rows| - 1] else [])
  }

  /** `idx` lists positions of kept rows of `rows` in increasing order, and
      every kept row is among them. */
  predicate ExactlyKept(host: Host, rows: seq<RawRow>, idx: seq<nat>)
  {
    && (forall k :: 0 <= k < |idx| ==> idx[k] < |rows| && Kept(host, rows[idx[k]]))
    && (forall i :: 0 <= i < |rows| && Kept(host, rows[i]) ==> i in idx)
    && (forall j, k :: 0 <= j < k < |idx| ==> idx[j] < idx[k])
  }

  /** The kept positions are increasing, each names a kept row, and every
      kept row is among them. */
  lemma {:induction false} KeptIndicesExact(host: Host, rows: seq<RawRow>)
    ensures ExactlyKept(host, rows, KeptIndices(host, rows))
    decreases |rows|
  {
    if rows != [] {
      var last := |rows| - 1;
      var prefix := rows[..last];
      var rest := KeptIndices(host, prefix);
      var tail: seq<nat> := if Kept(host, rows[last]) then [last] else [];
      KeptIndicesExact(host, prefix);
      assert ExactlyKept(host, prefix, rest);
      assert KeptIndices(host, rows) == rest + tail;
      forall k | 0 <= k < |rest|
        ensures rest[k] < last && rows[rest[k]] == prefix[rest[k]]
      {
      }
      forall i | 0 <= i < last
        ensures rows[i] == prefix[i]
      {
      }
    }
  }

  /** The output is the kept rows' records, one each, in row order: the
      k-th record is the record of the k-th kept row. */
  predicate RecordsMatchKeptRows(host: Host, clock: nat -> nat, rows: seq<RawRow>)
  {
    var out := Records(host, clock, rows);
    var idx := KeptIndices(host, rows);
    && |out| == |idx|
    && forall k :: 0 <= k < |idx| ==>
         && idx[k] < |rows| && Kept(host, rows[idx[k]])
         && out[k] == RecordFor(host, clock, rows[idx[k]], idx[k])
  }

  /** `RecordsMatchKeptRows` holds for every list of data rows. */
  lemma {:induction false} RecordsAreKeptRows(host: Host, clock: nat -> nat, rows: seq<RawRow>)
    ensures RecordsMatchKeptRows(host, clock, rows)
    decreases |rows|
  {
    if rows != [] {
      RecordsAreKeptRows(host, clock, rows[..|rows| - 1]);
      RecordsMatchStep(host, clock, rows);
    }
  }

  /** Adding one row at the end keeps `RecordsMatchKeptRows`. */
  lemma RecordsMatchStep(host: Host, clock: nat -> nat, rows: seq<RawRow>)
    requires rows != [] && RecordsMatchKeptRows(host, clock, rows[..|rows| - 1])
    ensures RecordsMatchKeptRows(host, clock, rows)
  {
    var last := |rows| - 1;
    var prefix := rows[..last];
    var out := Records(host, clock, rows);
    var idx := KeptIndices(host, rows);
    var earlier := Records(host, clock, prefix);
    var rest := KeptIndices(host, prefix);
    assert out == earlier + Emit(host, clock, rows[last], last);
    assert idx == rest + (if Kept(host, rows[last]) then [last] else []);
    forall k | 0 <= k < |rest|
      ensures rest[k] < |rows| && Kept(host, rows[rest[k]])
      ensures out[k] == RecordFor(host, clock, rows[rest[k]], rest[k])
    {
      assert rows[rest[k]] == prefix[rest[k]];
      assert out[k] == earlier[k];
    }
  }

  /** Every kept row's record is in the output. */
  lemma KeptRowIsEmitted(host: Host, clock: nat -> nat, rows: seq<RawRow>, i: nat)
    requires i < |rows| && Kept(host, rows[i])
    ensures RecordFor(host, clock, rows[i], i) in Records(host, clock, rows)
  {
    RecordsAreKeptRows(host, clock, rows);
    KeptIndicesExact(host, rows);
    var idx := KeptIndices(host, rows);
    var k :| 0 <= k < |idx| && idx[k] == i;
    assert Records(host, clock, rows)[k] == RecordFor(host, clock, rows[i], i);
  }

  /** A record id names the row it came from, whatever the clock read. */
  lemma RecordIdNamesRow(t1: nat, i1: nat, t2: nat, i2: nat)
    requires RecordId(t1, i1) == RecordId(t2, i2)
    ensures i1 == i2
  {
    assert '_' !in Dec(i1) && '_' !in Dec(i2) by {
      assert !IsDigit('_');
    }
    SuffixAfterLastSeparator("record_" + Dec(t1), Dec(i1), "record_" + Dec(t2), Dec(i2), '_');
    DecInjective(i1, i2);
  }

  /** Two strings ending in a separator and a separator-free tail have the same tail. */
  lemma SuffixAfterLastSeparator(a: string, b: string, c: string, d: string, sep: char)
    requires sep !in b && sep !in d
    requires a + [sep] + b == c + [sep] + d
    ensures b == d
  {
    var s := a + [sep] + b;
    assert s[|s| - |b| - 1] == sep;
    assert s[|s| - |d| - 1] == sep;
    assert b == s[|s| - |b|..];
    assert d == s[|s| - |d|..];
  }

  /** The records of one call have pairwise distinct ids. */
  lemma RecordIdsDistinct(host: Host, clock: nat -> nat, rows: seq<RawRow>)
    ensures var out := Records(host, clock, rows);
      forall j, k :: 0 <= j < k < |out| ==> out[j].id != out[k].id
  {
    RecordsAreKeptRows(host, clock, rows);
    KeptIndicesExact(host, rows);
    var out := Records(host, clock, rows);
    var idx := KeptIndices(host, rows);
    forall j, k | 0 <= j < k < |out|
      ensures out[j].id != out[k].id
    {
      if out[j].id == out[k].id {
        RecordIdNamesRow(clock(idx[j]), idx[j], clock(idx[k]), idx[k]);
      }
    }
  }

  /** How each field of a converted row reads its column: text columns take
      the cell's text and '' for a falsy cell, amount columns the parsed
      number and 0 for NaN, the order number falls back to `ORDER-<index+1>`,
      and the id carries the clock reading and the row index. A row converts
      whenever its date cell does. */
  lemma ColumnMapping(host: Host, now: nat, cells: seq<Cell>, index: nat)
    requires DateConverts(CellAt(cells, DateColumn))
    ensures NormalizeRow(host, now, cells, index).Success?
    ensures var r := NormalizeRow(host, now, cells, index).value;
      && r.id == "record_" + Dec(now) + "_" + Dec(index)
      && r.orderDate == ConvertExcelDate(host, CellAt(cells, 0)).value
      && TextColumn(host, cells, 1, r.courseName)
      && TextColumn(host, cells, 8, r.affiliateCode)
      && TextColumn(host, cells, 9, r.affiliate10Recipient)
      && TextColumn(host, cells, 10, r.invitorCode)
      && TextColumn(host, cells, 11, r.invitor15Recipient)
      && AmountColumn(host, cells, 6, r.customerPayment)
      && AmountColumn(host, cells, 12, r.affiliate10Amount)
      && AmountColumn(host, cells, 13, r.invitor15Amount)
      && (!Truthy(CellAt(cells, 16)) ==> r.orderNo == "ORDER-" + Dec(index + 1))
      && (Truthy(CellAt(cells, 16)) ==> r.orderNo == ToJsString(host, CellAt(cells, 16)))
  {
  }

  /** `text` is what `row[k] || ''` gives: '' for a falsy cell, the cell's
      string form for a truthy one, so a string cell's own text. */
  predicate TextColumn(host: Host, cells: seq<Cell>, k: nat, text: string)
  {
    var c := CellAt(cells, k);
    && (!Truthy(c) ==> text == "")
    && (Truthy(c) ==> text == ToJsString(host, c))
    && (c.Str? ==> text == c.text)
  }

  /** `x` is what `parseFloat(row[k]) || 0` gives: the parsed number, and 0
      where parsing gives NaN. */
  predicate AmountColumn(host: Host, cells: seq<Cell>, k: nat, x: real)
  {
    var p := ParseFloat(host, CellAt(cells, k));
    && (p.Some? ==> x == p.value)
    && (p.None? ==> x == 0.0)
  }

  /** Taking one more row appends that row's output. */
  lemma RecordsOneMore(host: Host, clock: nat -> nat, rows: seq<RawRow>, index: nat)
    requires index < |rows|
    ensures Records(host, clock, rows[..index + 1]) == Records(host, clock, rows[..index]) + Emit(host, clock, rows[index], index)
  {
    assert rows[..index + 1][..index] == rows[..index];
  }

  /** The `forEach` callback for data row `index`: what it pushes onto
      `processedData`, which is the record of a kept row and nothing for
      any other row. `Date.now()` reads `clock(index)`. */
  method ProcessRow(host: Host, clock: nat -> nat, row: RawRow, index: nat) returns (pushed: seq<CommissionRecord>)
    ensures pushed == if Kept(host, row) then [RecordFor(host, clock, row, index)] else []
  {
    pushed := [];
    if row.Row? && |row.cells| != 0 {
      var normalized := NormalizeRow(host, clock(index), row.cells, index);
      if normalized.Success? && HasCommission(normalized.value) {
        pushed := [normalized.value];
      }
    }
  }

  /** `processExcelData(rawData)`: throws for an absent grid or one with
      fewer than two rows; otherwise the records of the rows after the
      header. */
  method ProcessExcelData(host: Host, clock: nat -> nat, rawData: Option<seq<RawRow>>)
    returns (result: Result<seq<CommissionRecord>, string>)
    ensures result.Failure? <==> rawData.None? || |rawData.value| < 2
    ensures result.Failure? ==> result.error == InvalidExcelData
    ensures result.Success? ==> result.value == Records(host, clock, rawData.value[1..])
    ensures result.Success? ==> |result.value| <= |rawData.value| - 1
  {
    if rawData.None? || |rawData.value| < 2 {
      return Failure(InvalidExcelData);
    }
    var rows := rawData.value[1..];
    var processedData: seq<CommissionRecord> := [];
    var index: nat := 0;
    while index < |rows|
      invariant index <= |rows|
      invariant processedData == Records(host, clock, rows[..index])
    {
      var pushed := ProcessRow(host, clock, rows[index], index);
      processedData := processedData + pushed;
      RecordsOneMore(host, clock, rows, index);
      index := index + 1;
    }
    assert rows[..index] == rows;
    return Success(processedData);
  }
}
