/** `convertExcelDate`: a raw cell of the order-date column turned into the
    date text stored with the record. Spreadsheet serial numbers become the
    UTC calendar date printed by `toISOString`; slash-delimited text with
    three parts is reordered to year-month-day; anything else is kept as its
    trimmed text. */
module ExcelDate {
  import opened Wrappers
  import opened JsText
  import opened Cells
  import opened Calendar

  /** Numbers above this are read as spreadsheet serial day counts. */
  const SerialThreshold: real := 40000.0

  /** The serial number of 1970-01-01 in the spreadsheet's 1900 date system. */
  const UnixEpochSerial: int := 25569

  /** ECMAScript time values are limited to 8.64e15 milliseconds either side
      of 1970-01-01, that is 1e8 days. */
  const MaxTimeDays: int := 100000000

  /** `toISOString` on a time value outside that range throws a RangeError. */
  datatype DateError = InvalidTimeValue

  /** The year as `toISOString` prints it: four digits, or a sign and six
      digits beyond year 9999. */
  function IsoYear(y: nat): string
  {
    if y <= 9999 then PadStart(Dec(y), 4, '0') else "+" + PadStart(Dec(y), 6, '0')
  }

  /** The date part of `toISOString`. */
  function IsoDate(d: Date): string
  {
    IsoYear(d.year) + "-" + PadStart(Dec(d.month), 2, '0') + "-" + PadStart(Dec(d.day), 2, '0')
  }

  /** Text of the shape `YYYY-MM-DD`. */
  predicate IsIsoDateText(s: string)
  {
    |s| == 10 && s[4] == '-' && s[7] == '-'
    && AllDigits(s[..4]) && AllDigits(s[5..7]) && AllDigits(s[8..])
  }

  /** The year, month and day that `YYYY-MM-DD` text spells. */
  function ParseIsoDate(s: string): Date
    requires IsIsoDateText(s)
  {
    Date(DigitsValue(s[..4]), DigitsValue(s[5..7]), DigitsValue(s[8..]))
  }

  /** Up to year 9999 the printed date has the `YYYY-MM-DD` shape and reads
      back as the same date. */
  lemma IsoDateRoundTrip(d: Date)
    requires ValidDate(d) && d.year <= 9999
    ensures IsIsoDateText(IsoDate(d))
    ensures ParseIsoDate(IsoDate(d)) == d
  {
    ValidDateBounds(d);
    IsoDateFieldsRoundTrip(d);
  }

  /** The same, for any year, month and day of at most four, two and two digits. */
  lemma IsoDateFieldsRoundTrip(d: Date)
    requires d.year <= 9999 && d.month <= 99 && d.day <= 99
    ensures IsIsoDateText(IsoDate(d))
    ensures ParseIsoDate(IsoDate(d)) == d
  {
    var y := IsoYear(d.year);
    var m := PadStart(Dec(d.month), 2, '0');
    var dd := PadStart(Dec(d.day), 2, '0');
    PaddedYear(d.year);
    PaddedTwoDigits(d.month);
    PaddedTwoDigits(d.day);
    DashedFields(IsoDate(d), y, m, dd, d);
  }

  /** `s` is `w` decimal digits that read as `n`. */
  predicate DigitField(s: string, w: nat, n: nat)
  {
    |s| == w && AllDigits(s) && DigitsValue(s) == n
  }

  /** A year up to 9999 prints as four digits that read back as the year. */
  lemma PaddedYear(y: nat)
    requires y <= 9999
    ensures DigitField(IsoYear(y), 4, y)
  {
    assert IsoYear(y) == PadStart(Dec(y), 4, '0');
    assert Pow10(4) == 10000;
    PaddedNumeral(y, 4);
  }

  /** A month or day up to 99 prints as two digits that read back as itself. */
  lemma PaddedTwoDigits(n: nat)
    requires n <= 99
    ensures DigitField(PadStart(Dec(n), 2, '0'), 2, n)
  {
    assert Pow10(2) == 100;
    PaddedNumeral(n, 2);
  }

  /** Four, two and two digits joined by dashes are `YYYY-MM-DD` text that
      reads back as the date they spell. */
  lemma DashedFields(s: string, y: string, m: string, dd: string, d: Date)
    requires DigitField(y, 4, d.year) && DigitField(m, 2, d.month) && DigitField(dd, 2, d.day)
    requires s == y + "-" + m + "-" + dd
    ensures IsIsoDateText(s)
    ensures ParseIsoDate(s) == d
  {
    assert s[..4] == y && s[5..7] == m && s[8..] == dd;
    assert IsIsoDateText(s);
    assert ParseIsoDate(s) == Date(DigitsValue(s[..4]), DigitsValue(s[5..7]), DigitsValue(s[8..]));
  }

  /** A number below `10^w` padded with zeros to width `w` is `w` digits that
      read back as the number. */
  lemma PaddedNumeral(n: nat, w: nat)
    requires 1 <= w && n < Pow10(w)
    ensures DigitField(PadStart(Dec(n), w, '0'), w, n)
  {
    DecLength(n, w);
    PaddedValue(Dec(n), w);
    DecRoundTrip(n);
  }

  /** A number cell above the threshold. */
  predicate IsSerial(c: Cell)
  {
    c.Num? && c.value > SerialThreshold
  }

  /** The serial lies beyond the last valid time value. */
  predicate SerialOutOfRange(v: real)
  {
    v - UnixEpochSerial as real > MaxTimeDays as real
  }

  /** Whole days from 1970-01-01 to the instant a serial stands for. */
  function SerialDays(v: real): nat
    requires v > SerialThreshold
  {
    v.Floor - UnixEpochSerial
  }

  /** `new Date((v - 25569) * 86400 * 1000).toISOString().split('T')[0]`. */
  function SerialToIso(v: real): Result<string, DateError>
    requires v > SerialThreshold
  {
    if SerialOutOfRange(v) then Failure(InvalidTimeValue)
    else Success(IsoDate(CivilFromDays(SerialDays(v))))
  }

  /** `Number(month) > 12`: the first part reads as a day. NaN compares false. */
  predicate FirstPartIsDay(host: Host, first: string)
  {
    match host.toNumber(first)
    case Some(x) => x > 12.0
    case None => false
  }

  /** The three slash parts reordered as year, zero-padded month, zero-padded
      day; the first two are month and day unless the first reads above 12. */
  function SlashDate(host: Host, parts: seq<string>): string
    requires |parts| == 3
  {
    var month := if FirstPartIsDay(host, parts[0]) then parts[1] else parts[0];
    var day := if FirstPartIsDay(host, parts[0]) then parts[0] else parts[1];
    parts[2] + "-" + PadStart(month, 2, '0') + "-" + PadStart(day, 2, '0')
  }

  /** The text of a non-serial cell after `String(...).trim()`. */
  function DateText(host: Host, c: Cell): string
  {
    Trim(ToJsString(host, c))
  }

  /** `convertExcelDate(dateInput)`. It throws only for a serial beyond the
      time range; a falsy cell gives the empty string. */
  function ConvertExcelDate(host: Host, c: Cell): (r: Result<string, DateError>)
    ensures r.Failure? <==> IsSerial(c) && SerialOutOfRange(c.value)
    ensures !Truthy(c) ==> r == Success("")
  {
    if !Truthy(c) then Success("")
    else if IsSerial(c) then SerialToIso(c.value)
    else
      var dateStr := DateText(host, c);
      var parts := Split(dateStr, '/');
      if '/' in dateStr && |parts| == 3 then Success(SlashDate(host, parts))
      else Success(dateStr)
  }

  /** Text with exactly three slash parts becomes year-month-day, the month
      and day swapped exactly when the first part reads above 12. */
  lemma SlashDateRule(host: Host, c: Cell, parts: seq<string>)
    requires Truthy(c) && !IsSerial(c)
    requires parts == Split(DateText(host, c), '/') && |parts| == 3
    ensures FirstPartIsDay(host, parts[0]) ==>
      ConvertExcelDate(host, c) == Success(parts[2] + "-" + PadStart(parts[1], 2, '0') + "-" + PadStart(parts[0], 2, '0'))
    ensures !FirstPartIsDay(host, parts[0]) ==>
      ConvertExcelDate(host, c) == Success(parts[2] + "-" + PadStart(parts[0], 2, '0') + "-" + PadStart(parts[1], 2, '0'))
  {
    var s := DateText(host, c);
    assert multiset(s)['/'] == 2;
    assert '/' in s by {
      assert '/' in multiset(s);
    }
    assert ConvertExcelDate(host, c) == Success(SlashDate(host, parts));
  }

  /** Any other non-serial text comes back trimmed and otherwise unchanged. */
  lemma OtherTextRule(host: Host, c: Cell)
    requires Truthy(c) && !IsSerial(c)
    requires |Split(DateText(host, c), '/')| != 3
    ensures ConvertExcelDate(host, c) == Success(DateText(host, c))
  {
  }

  /** Text without a slash, and in particular the string form of a number
      at or below the threshold that holds none, comes back trimmed. */
  lemma NoSlashRule(host: Host, c: Cell)
    requires Truthy(c) && !IsSerial(c)
    requires '/' !in DateText(host, c)
    ensures ConvertExcelDate(host, c) == Success(DateText(host, c))
  {
    var s := DateText(host, c);
    assert multiset(s)['/'] == 0;
    assert |Split(s, '/')| == 1;
  }

  /** A non-zero number at or below the threshold comes back as its trimmed
      `String()` form, on a host whose number printing never writes a `/`. */
  lemma SmallNumberRule(host: Host, v: real)
    requires SlashFreeNumerals(host)
    requires v != 0.0 && v <= SerialThreshold
    ensures ConvertExcelDate(host, Num(v)) == Success(Trim(host.numberToString(v)))
  {
    var s := host.numberToString(v);
    var r := Trim(s);
    var i: nat, j: nat :| TrimmedSlice(s, r, i, j);
    assert '/' !in r by {
      forall k | 0 <= k < |r|
        ensures r[k] != '/'
      {
        assert r[k] == s[i + k];
      }
    }
    NoSlashRule(host, Num(v));
  }

  /** A serial inside the time range prints, up to year 9999, as
      `YYYY-MM-DD` text naming the calendar date `floor(v) - 25569` days
      after 1970-01-01. */
  lemma SerialRule(host: Host, v: real)
    requires v > SerialThreshold && !SerialOutOfRange(v)
    requires CivilFromDays(SerialDays(v)).year <= 9999
    ensures ConvertExcelDate(host, Num(v)).Success?
    ensures IsIsoDateText(ConvertExcelDate(host, Num(v)).value)
    ensures ValidDate(ParseIsoDate(ConvertExcelDate(host, Num(v)).value))
    ensures DaysFromCivil(ParseIsoDate(ConvertExcelDate(host, Num(v)).value)) == v.Floor - UnixEpochSerial
  {
    var d := CivilFromDays(SerialDays(v));
    assert ConvertExcelDate(host, Num(v)) == Success(IsoDate(d)) by {
      assert Truthy(Num(v)) && IsSerial(Num(v));
    }
    IsoDateRoundTrip(d);
  }

  /** `M/D/YYYY` text for a date from 1970 to 9999 converts to the same
      `YYYY-MM-DD` text a serial for that date prints. */
  lemma MonthFirstText(host: Host, d: Date)
    requires ValidDate(d) && d.year <= 9999
    requires host.toNumber(Dec(d.month)) == Some(d.month as real)
    ensures ConvertExcelDate(host, Str(Dec(d.month) + "/" + Dec(d.day) + "/" + Dec(d.year)))
         == Success(IsoDate(d))
  {
    ValidDateBounds(d);
    var parts := [Dec(d.month), Dec(d.day), Dec(d.year)];
    DigitSlashText(host, parts[0], parts[1], parts[2]);
    assert !FirstPartIsDay(host, parts[0]);
    FourDigitYear(d.year);
    assert SlashDate(host, parts) == IsoDate(d) by {
      assert IsoYear(d.year) == Dec(d.year);
    }
  }

  /** `D/M/YYYY` text whose day is above 12 converts to the same text. */
  lemma DayFirstText(host: Host, d: Date)
    requires ValidDate(d) && d.year <= 9999 && d.day > 12
    requires host.toNumber(Dec(d.day)) == Some(d.day as real)
    ensures ConvertExcelDate(host, Str(Dec(d.day) + "/" + Dec(d.month) + "/" + Dec(d.year)))
         == Success(IsoDate(d))
  {
    ValidDateBounds(d);
    var parts := [Dec(d.day), Dec(d.month), Dec(d.year)];
    DigitSlashText(host, parts[0], parts[1], parts[2]);
    assert FirstPartIsDay(host, parts[0]);
    FourDigitYear(d.year);
    assert SlashDate(host, parts) == IsoDate(d) by {
      assert IsoYear(d.year) == Dec(d.year);
    }
  }

  /** A year from 1000 to 9999 needs no padding. */
  lemma FourDigitYear(y: nat)
    requires 1000 <= y <= 9999
    ensures PadStart(Dec(y), 4, '0') == Dec(y)
  {
    assert Pow10(4) == 10000 && Pow10(3) == 1000;
    DecLength(y, 4);
    DecLengthAtLeast(y, 4);
  }

  /** Three digit strings joined by slashes go through the slash rule. */
  lemma DigitSlashText(host: Host, a: string, b: string, c: string)
    requires a != [] && c != [] && AllDigits(a) && AllDigits(b) && AllDigits(c)
    ensures ConvertExcelDate(host, Str(a + "/" + b + "/" + c)) == Success(SlashDate(host, [a, b, c]))
  {
    var text := a + "/" + b + "/" + c;
    SplitDigitText(a, b, c);
    TrimDigitText(a, b, c);
    assert '/' in text by {
      assert text[|a|] == '/';
    }
    var c0 := Str(text);
    assert Truthy(c0) && !IsSerial(c0);
    assert Trim(ToJsString(host, c0)) == text;
    assert |Split(text, '/')| == 3;
  }

  lemma SplitDigitText(a: string, b: string, c: string)
    requires AllDigits(a) && AllDigits(b) && AllDigits(c)
    ensures Split(a + "/" + b + "/" + c, '/') == [a, b, c]
  {
    var parts := [a, b, c];
    assert '/' !in a && '/' !in b && '/' !in c by {
      assert !IsDigit('/');
    }
    assert [b, c][1..] == [c];
    assert Join([b, c], '/') == b + "/" + c;
    assert parts[1..] == [b, c];
    assert Join(parts, '/') == a + "/" + (b + "/" + c);
    assert a + "/" + (b + "/" + c) == a + "/" + b + "/" + c;
    SplitJoin(parts, '/');
  }

  lemma TrimDigitText(a: string, b: string, c: string)
    requires a != [] && c != [] && AllDigits(a) && AllDigits(c)
    ensures Trim(a + "/" + b + "/" + c) == a + "/" + b + "/" + c
  {
    var text := a + "/" + b + "/" + c;
    assert text[0] == a[0] && text[|text| - 1] == c[|c| - 1];
    assert IsDigit(a[0]) && IsDigit(c[|c| - 1]);
    assert !IsWhitespace(text[0]) && !IsWhitespace(text[|text| - 1]);
  }
}
