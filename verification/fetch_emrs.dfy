/** `fetchEMRs` once the sheet is parsed: the name in the unnamed first column
    of every row after the first two. */
module FetchEmrs {
  import opened Sheet
  import opened Optional
  import CurrentEmrs

  /** `rawData.slice(2).map((row) => row[""] || "")`. */
  function EmrNames(rows: seq<Row>): (names: seq<string>)
    ensures |names| == if |rows| <= 2 then 0 else |rows| - 2
    ensures forall i :: 0 <= i < |names| ==>
      (names[i] == "" <==> Get(rows[i + 2], "") in {None, Some("")})
    ensures forall i :: 0 <= i < |names| && names[i] != "" ==> Get(rows[i + 2], "") == Some(names[i])
  {
    if |rows| <= 2 then []
    else seq(|rows| - 2, i requires 0 <= i < |rows| - 2 => Or(Get(rows[i + 2], ""), ""))
  }

  /** The current-EMRs table maps the rows `fetchCurrentEMRs` returns, which
      already start at the third parsed row, and `mapEmployeeDataRaw` drops
      one more. So the table's EMR column is the names without the first
      one: on a string cell, `|| ""` and `?? ""` agree. */
  lemma EmrNamesAreTableColumn(rows: seq<Row>)
    ensures var records := CurrentEmrs.MapEmployeeDataRaw(CurrentEmrs.FetchCurrentEmrs(rows));
      var names := EmrNames(rows);
      && |records| == (if |names| == 0 then 0 else |names| - 1)
      && forall i :: 0 <= i < |records| ==> records[i].cells["EMR"] == names[i + 1]
  {
    var records := CurrentEmrs.MapEmployeeDataRaw(CurrentEmrs.FetchCurrentEmrs(rows));
    forall i | 0 <= i < |records| ensures records[i].cells["EMR"] == EmrNames(rows)[i + 1] {
      CurrentEmrs.CoalescingRecord(rows[i + 3], 0);
    }
  }
}
