/** The date filter of the all-data table: with a start or an end date
    picked, keep the rows whose "Date" lies within the bounds, inclusive, and
    keep every row without a date or with a date that does not parse.

    Dates are instants on a line (`int`). Turning a cell into an instant is
    the `parse` parameter; `None` is JavaScript's Invalid Date, which is
    neither before nor after anything. */
module AllDataFilter {
  import opened Sheet
  import opened Optional
  import opened Seqs

  /** `isBefore(rowDate, start)` / `isAfter(rowDate, end)` on an instant that
      may be invalid. */
  predicate Excluded(t: Option<int>, start: Option<int>, end: Option<int>) {
    && t.Some?
    && ((start.Some? && t.value < start.value) || (end.Some? && t.value > end.value))
  }

  /** The callback given to `data.filter`. */
  predicate Keep(row: Row, start: Option<int>, end: Option<int>, parse: string -> Option<int>) {
    match Get(row, "Date")
    case None => true
    case Some(d) => d == "" || !Excluded(parse(d), start, end)
  }

  /** `filteredData`. */
  function FilteredData(data: seq<Row>, start: Option<int>, end: Option<int>, parse: string -> Option<int>)
    : (rows: seq<Row>)
    ensures start.None? && end.None? ==> rows == data
    ensures |rows| <= |data|
    ensures forall i :: 0 <= i < |rows| ==> rows[i] in data
    ensures forall i :: 0 <= i < |data| && Get(data[i], "Date") in {None, Some("")} ==> data[i] in rows
    ensures forall i ::
      (0 <= i < |data| && "Date" in data[i].cells && data[i].cells["Date"] != ""
       && parse(data[i].cells["Date"]).None?) ==> data[i] in rows
  {
    if start.None? && end.None? then data
    else Filter(data, row => Keep(row, start, end, parse))
  }

  /** The result keeps the data's order. */
  lemma FilteredIsSubsequence(data: seq<Row>, start: Option<int>, end: Option<int>, parse: string -> Option<int>)
    ensures IsSubsequence(FilteredData(data, start, end, parse), data)
  {
    if start.Some? || end.Some? {
      FilterIsSubsequence(data, row => Keep(row, start, end, parse));
    } else {
      FilterAll(data, row => true);
      FilterIsSubsequence(data, row => true);
    }
  }

  /** Both bounds are inclusive: a row with a valid date is kept exactly when
      the date lies between the bounds that are set. */
  lemma InclusiveBounds(data: seq<Row>, start: Option<int>, end: Option<int>, parse: string -> Option<int>, i: nat)
    requires i < |data| && "Date" in data[i].cells && data[i].cells["Date"] != ""
    requires parse(data[i].cells["Date"]).Some?
    ensures var t := parse(data[i].cells["Date"]).value;
      data[i] in FilteredData(data, start, end, parse) <==>
        (start.None? || start.value <= t) && (end.None? || t <= end.value)
  {
    var t := parse(data[i].cells["Date"]).value;
    var rows := FilteredData(data, start, end, parse);
    if start.Some? || end.Some? {
      if data[i] in rows {
        var j :| 0 <= j < |rows| && rows[j] == data[i];
        assert Keep(rows[j], start, end, parse);
      }
    }
  }
}
