/** Spreadsheet cells as the workbook reader hands them to the engine, and the
    JavaScript conversions the engine applies to them. */
module Cells {
  import opened Wrappers

  /** One cell of the 2-D grid: a number, a string, a boolean, or nothing
      (a hole or a cell past the end of its row reads as `undefined`). */
  datatype Cell = Empty | Num(value: real) | Str(text: string) | Bool(flag: bool)

  /** The runtime's own conversions, which the model takes as given:
      `parseFloat(s)` and `Number(s)` on a string (`None` stands for NaN; the
      two differ, e.g. on "12abc" and on ""), and `String(x)` on a finite
      number. */
  datatype Host = Host(
    parseFloat: string -> Option<real>,
    toNumber: string -> Option<real>,
    numberToString: real -> string)

  /** `String(x)` never writes a `/`: its output is a sign, digits, a point,
      an exponent, `Infinity` or `NaN`. */
  ghost predicate SlashFreeNumerals(host: Host)
  {
    forall v: real :: '/' !in host.numberToString(v)
  }

  /** JavaScript truthiness of a cell: `undefined`, `0`, `""` and `false` are falsy. */
  predicate Truthy(c: Cell)
  {
    match c
    case Empty => false
    case Num(v) => v != 0.0
    case Str(s) => s != ""
    case Bool(b) => b
  }

  /** `String(c)`. */
  function ToJsString(host: Host, c: Cell): string
  {
    match c
    case Empty => "undefined"
    case Num(v) => host.numberToString(v)
    case Str(s) => s
    case Bool(b) => if b then "true" else "false"
  }

  /** `parseFloat(c)`: a number reads back as itself (the runtime's numerals
      round-trip), `undefined` and booleans give NaN, strings go to the
      runtime's parser. */
  function ParseFloat(host: Host, c: Cell): Option<real>
  {
    match c
    case Empty => None
    case Num(v) => Some(v)
    case Str(s) => host.parseFloat(s)
    case Bool(_) => None
  }

  /** `row[k]`: the k-th cell, `undefined` past the end of the row. */
  function CellAt(cells: seq<Cell>, k: nat): (c: Cell)
    ensures k >= |cells| ==> c == Empty
    ensures k < |cells| ==> c == cells[k]
  {
    if k < |cells| then cells[k] else Empty
  }

  /** `cell || ''` for a text column: the cell's string form when it is
      truthy, the empty string otherwise. */
  function TextOr(host: Host, c: Cell): (s: string)
    ensures !Truthy(c) ==> s == ""
    ensures c.Str? ==> s == c.text
  {
    if Truthy(c) then ToJsString(host, c) else ""
  }

  /** `parseFloat(cell) || 0`: the parsed number, and 0 where it is NaN. */
  function AmountOr(host: Host, c: Cell): (x: real)
    ensures ParseFloat(host, c).None? ==> x == 0.0
    ensures ParseFloat(host, c).Some? ==> x == ParseFloat(host, c).value
    ensures c.Empty? || c.Bool? ==> x == 0.0
    ensures c.Num? ==> x == c.value
  {
    ParseFloat(host, c).GetOr(0.0)
  }
}
