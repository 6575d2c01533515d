/** Parsed spreadsheet rows. The CSV text is turned into rows by a parser that
    is not part of this model; each row is a JavaScript object whose keys are
    the header cells, in header order, and whose values are strings. A key the
    row lacks reads as `undefined`. */
module Sheet {
  import opened Text
  import opened Optional

  /** One parsed row: the keys in insertion order and the cell of each key. */
  datatype Row = Row(keys: seq<string>, cells: map<string, string>)

  /** A row as JavaScript builds one: every key once, and exactly the keys
      that have a cell. */
  predicate WellFormed(r: Row) {
    && (forall i, j :: 0 <= i < j < |r.keys| ==> r.keys[i] != r.keys[j])
    && r.cells.Keys == set k | k in r.keys
  }

  /** `row[key]`: the cell, or `None` for `undefined`. */
  function Get(r: Row, key: string): (v: Option<string>)
    ensures v.Some? <==> key in r.cells
    ensures v.Some? ==> v.value == r.cells[key]
  {
    if key in r.cells then Some(r.cells[key]) else None
  }

  /** `value || fallback` on a string cell: both `undefined` and the empty
      string are falsy and give way to the fallback. */
  function Or(v: Option<string>, fallback: string): (s: string)
    ensures s == fallback <==> v.None? || v.value == "" || v.value == fallback
    ensures s != fallback ==> v == Some(s)
  {
    match v
    case Some(x) => if x != "" then x else fallback
    case None => fallback
  }

  /** `value ?? fallback`: only `undefined` gives way; an empty string is kept. */
  function Coalesce(v: Option<string>, fallback: string): (s: string)
    ensures v.Some? ==> s == v.value
    ensures v.None? ==> s == fallback
  {
    match v
    case Some(x) => x
    case None => fallback
  }

  /** `Object.values(row).every((v) => !v)`: every cell is the empty string
      (trivially so for a row without cells). */
  predicate AllFalsy(r: Row) {
    forall k :: k in r.cells ==> r.cells[k] == ""
  }

  /** `rows[i][key] === value`. */
  predicate HasCell(r: Row, key: string, value: string) {
    key in r.cells && r.cells[key] == value
  }

  /** `rows.findIndex((row) => row[key] === value)`, with `None` for -1: the
      first row whose cell under `key` is exactly `value`. */
  function FirstWith(rows: seq<Row>, key: string, value: string): (r: Option<nat>)
    ensures r.Some? ==> r.value < |rows| && HasCell(rows[r.value], key, value)
    ensures r.Some? ==> forall j :: 0 <= j < r.value ==> !HasCell(rows[j], key, value)
    ensures r.None? ==> forall j :: 0 <= j < |rows| ==> !HasCell(rows[j], key, value)
    decreases |rows|
  {
    if |rows| == 0 then None
    else if HasCell(rows[0], key, value) then Some(0)
    else
      match FirstWith(rows[1..], key, value)
      case Some(i) => Some(i + 1)
      case None => None
  }

  /** `Number(pageSizeInput) || 1`, the page size every table hands to the
      grid: 0 and NaN become 1, every other value, negative ones included,
      passes through. */
  function PageSize(input: Num): (size: int)
    ensures input.Finite? && input.value != 0 ==> size == input.value
    ensures input.NaN? || input == Finite(0) ==> size == 1
    ensures size != 0
    ensures size < 1 <==> input.Finite? && input.value < 0
  {
    match input
    case Finite(n) => if n != 0 then n else 1
    case NaN => 1
  }
}
