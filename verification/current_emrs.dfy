/** The current-EMRs table: `mapEmployeeDataRaw` renames the sheet's unnamed
    columns, the table filters the records by EMR name, and `StatusBox` shows
    a yes/no dot for the check-box columns. */
module CurrentEmrs {
  import opened Text
  import opened Sheet
  import opened Optional
  import opened Seqs

  /** The record keys, in the order the record literal lists them. */
  const RecordKeys: seq<string> :=
    ["EMR", "Start Date", "Training Reminder Date", "4 Weeks",
     "Reminder Sent?", "Reinstatee?", "LOA?", "Notes"]

  /** The sheet column each record key is read from. */
  const SourceKeys: seq<string> := ["", "_1", "_2", "_3", "_4", "_5", "_6", "_7"]

  /** One EMR record: every record key holds `row[source] ?? ""`. */
  function EmrRecord(row: Row): (r: Row)
    ensures r.keys == RecordKeys
    ensures forall i :: 0 <= i < |RecordKeys| ==>
      RecordKeys[i] in r.cells && r.cells[RecordKeys[i]] == Coalesce(Get(row, SourceKeys[i]), "")
  {
    var cells := map[
      "EMR" := Coalesce(Get(row, ""), ""),
      "Start Date" := Coalesce(Get(row, "_1"), ""),
      "Training Reminder Date" := Coalesce(Get(row, "_2"), ""),
      "4 Weeks" := Coalesce(Get(row, "_3"), ""),
      "Reminder Sent?" := Coalesce(Get(row, "_4"), ""),
      "Reinstatee?" := Coalesce(Get(row, "_5"), ""),
      "LOA?" := Coalesce(Get(row, "_6"), ""),
      "Notes" := Coalesce(Get(row, "_7"), "")];
    Row(RecordKeys, cells)
  }

  /** Every record is a well-formed row: eight distinct keys, each with a
      cell. */
  lemma RecordWellFormed(row: Row)
    ensures WellFormed(EmrRecord(row))
  {
    RecordKeysDistinct();
    assert EmrRecord(row).cells.Keys == set k | k in RecordKeys by {
      RecordKeySet(row);
    }
  }

  /** The eight record keys are pairwise different. */
  lemma RecordKeysDistinct()
    ensures forall i, j :: 0 <= i < j < |RecordKeys| ==> RecordKeys[i] != RecordKeys[j]
  {
    var lengths := [3, 10, 22, 7, 14, 11, 4, 5];
    assert forall i :: 0 <= i < |RecordKeys| ==> |RecordKeys[i]| == lengths[i];
  }

  const KeySet: set<string> :=
    {"EMR", "Start Date", "Training Reminder Date", "4 Weeks",
     "Reminder Sent?", "Reinstatee?", "LOA?", "Notes"}

  lemma RecordKeySet(row: Row)
    ensures EmrRecord(row).cells.Keys == set k | k in RecordKeys
  {
    RecordMapKeys(
      Coalesce(Get(row, ""), ""), Coalesce(Get(row, "_1"), ""), Coalesce(Get(row, "_2"), ""),
      Coalesce(Get(row, "_3"), ""), Coalesce(Get(row, "_4"), ""), Coalesce(Get(row, "_5"), ""),
      Coalesce(Get(row, "_6"), ""), Coalesce(Get(row, "_7"), ""));
    KeySetListsKeys();
  }

  /** The record literal has exactly the eight record keys, whatever the
      values. */
  lemma RecordMapKeys(a: string, b: string, c: string, d: string, e: string, f: string, g: string, h: string)
    ensures map["EMR" := a, "Start Date" := b, "Training Reminder Date" := c, "4 Weeks" := d,
                "Reminder Sent?" := e, "Reinstatee?" := f, "LOA?" := g, "Notes" := h].Keys == KeySet
  {
  }

  lemma KeySetListsKeys()
    ensures (set k | k in RecordKeys) == KeySet
  {
    assert forall k :: k in KeySet ==> k in RecordKeys;
  }

  /** `fetchCurrentEMRs` once the sheet is parsed: `rawData.slice(2)`, every
      row after the first two. */
  function FetchCurrentEmrs(rows: seq<Row>): (data: seq<Row>)
    ensures |data| == if |rows| <= 2 then 0 else |rows| - 2
    ensures forall i :: 0 <= i < |data| ==> data[i] == rows[i + 2]
  {
    if |rows| <= 2 then [] else rows[2..]
  }

  /** `rawData.slice(1).map(...)`: one record per row after the first, in
      order. */
  function MapEmployeeDataRaw(raw: seq<Row>): (records: seq<Row>)
    ensures |records| == if |raw| == 0 then 0 else |raw| - 1
    ensures forall i :: 0 <= i < |records| ==> records[i] == EmrRecord(raw[i + 1])
  {
    if |raw| == 0 then [] else seq(|raw| - 1, i requires 0 <= i < |raw| - 1 => EmrRecord(raw[i + 1]))
  }

  /** `(row["EMR"] || "").toLowerCase().includes(nameFilter.toLowerCase())`. */
  predicate EmrMatches(record: Row, nameFilter: string) {
    Contains(Lower(Or(Get(record, "EMR"), "")), Lower(nameFilter))
  }

  /** `tableRows`: the records whose EMR name contains the filter text. */
  function TableRows(data: seq<Row>, nameFilter: string): (rows: seq<Row>)
    ensures |rows| <= if |data| == 0 then 0 else |data| - 1
    ensures forall i :: 0 <= i < |rows| ==> EmrMatches(rows[i], nameFilter)
    ensures forall i :: 0 <= i < |rows| ==> rows[i].keys == RecordKeys
  {
    Filter(MapEmployeeDataRaw(data), r => EmrMatches(r, nameFilter))
  }

  /** A missing source cell becomes "", while a present cell, even an empty
      one, is copied unchanged. */
  lemma CoalescingRecord(row: Row, i: nat)
    requires i < |SourceKeys|
    ensures SourceKeys[i] !in row.cells ==> EmrRecord(row).cells[RecordKeys[i]] == ""
    ensures SourceKeys[i] in row.cells ==> EmrRecord(row).cells[RecordKeys[i]] == row.cells[SourceKeys[i]]
  {
  }

  /** Filtering keeps the table's records in order, unmodified, and keeps
      exactly the matching ones; the first data row is never among them. */
  lemma TableRowsAreFilteredRecords(data: seq<Row>, nameFilter: string)
    ensures IsSubsequence(TableRows(data, nameFilter), MapEmployeeDataRaw(data))
    ensures var records := MapEmployeeDataRaw(data);
      forall i :: 0 <= i < |records| ==>
        (records[i] in TableRows(data, nameFilter) <==> EmrMatches(records[i], nameFilter))
    ensures forall r :: r in TableRows(data, nameFilter) ==>
      exists i :: 1 <= i < |data| && r == EmrRecord(data[i])
  {
    var records := MapEmployeeDataRaw(data);
    FilterIsSubsequence(records, r => EmrMatches(r, nameFilter));
    forall r | r in TableRows(data, nameFilter)
      ensures exists i :: 1 <= i < |data| && r == EmrRecord(data[i])
    {
      var j :| 0 <= j < |records| && records[j] == r;
      assert r == EmrRecord(data[j + 1]);
    }
  }

  /** With an empty filter every record is shown. */
  lemma EmptyFilterShowsAll(data: seq<Row>)
    ensures TableRows(data, "") == MapEmployeeDataRaw(data)
  {
    var records := MapEmployeeDataRaw(data);
    forall i | 0 <= i < |records| ensures EmrMatches(records[i], "") {
      ContainsEmpty(Lower(Or(Get(records[i], "EMR"), "")));
    }
    FilterAll(records, r => EmrMatches(r, ""));
  }

  datatype Status = Yes | No

  /** `StatusBox`: green "Yes" for the text "TRUE", red "No" otherwise. */
  function StatusBox(value: string): (s: Status)
    ensures s == Yes <==> value == "TRUE"
    ensures s == Yes ==> |value| == 4 && value[0] == 'T' && Lower(value) == "true"
  {
    if value == "TRUE" then Yes else No
  }

  /** The comparison is exact: other spellings of "true" show "No". */
  lemma StatusBoxCaseSensitive()
    ensures StatusBox("TRUE") == Yes
    ensures StatusBox("true") == No && StatusBox("True") == No && StatusBox("TRUE ") == No
  {
    assert "true"[0] != "TRUE"[0];
    assert "True"[1] != "TRUE"[1];
    assert |"TRUE "| != |"TRUE"|;
  }
}
