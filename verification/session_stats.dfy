/** The monthly session statistics: the rows after the "Employee" header row,
    the month's total from the "Total Month Sessions" row, and the mapping of
    each row to an instructor name and a session count. */
module SessionStats {
  import opened Text
  import opened Sheet
  import opened Optional

  /** One table row: `{"Your Name": ..., Sessions: ...}`. */
  datatype MonthlyRow = MonthlyRow(yourName: string, sessions: string)

  /** `row["Sessions"] ?? row[month] ?? row["_1"] ?? ""`: the first of the
      three cells that is present, however empty it is. */
  function SessionsOf(row: Row, month: string): (s: string)
    ensures "Sessions" in row.cells ==> s == row.cells["Sessions"]
    ensures "Sessions" !in row.cells && month in row.cells ==> s == row.cells[month]
    ensures "Sessions" !in row.cells && month !in row.cells && "_1" in row.cells ==> s == row.cells["_1"]
    ensures "Sessions" !in row.cells && month !in row.cells && "_1" !in row.cells ==> s == ""
  {
    Coalesce(Get(row, "Sessions"), Coalesce(Get(row, month), Coalesce(Get(row, "_1"), "")))
  }

  /** `mappedMonthlySessionData(rawData, month)`: one row per input row, in
      order. */
  function MappedMonthlySessionData(raw: seq<Row>, month: string): (rows: seq<MonthlyRow>)
    ensures |rows| == |raw|
    ensures forall i :: 0 <= i < |raw| ==>
      && rows[i].yourName == Coalesce(Get(raw[i], "Your Name"), "")
      && rows[i].sessions == SessionsOf(raw[i], month)
  {
    seq(|raw|, i requires 0 <= i < |raw| =>
      MonthlyRow(Coalesce(Get(raw[i], "Your Name"), ""), SessionsOf(raw[i], month)))
  }

  /** A present but empty "Sessions" cell wins over the month and "_1"
      columns. */
  lemma EmptySessionsWins(row: Row, month: string)
    requires Get(row, "Sessions") == Some("")
    ensures SessionsOf(row, month) == ""
  {
  }

  /** `totalMonthSessions`: `Number(_1 ?? 0)` of the first row whose
      "September" cell is "Total Month Sessions"; 0 without such a row. */
  function TotalMonthSessions(rows: seq<Row>): (n: Num)
    ensures (forall i :: 0 <= i < |rows| ==> !HasCell(rows[i], "September", "Total Month Sessions"))
      ==> n == Finite(0)
    ensures forall i ::
      (0 <= i < |rows| && HasCell(rows[i], "September", "Total Month Sessions")
       && (forall j :: 0 <= j < i ==> !HasCell(rows[j], "September", "Total Month Sessions")))
      ==> n == (if "_1" in rows[i].cells then NumberOf(rows[i].cells["_1"]) else Finite(0))
  {
    match FirstWith(rows, "September", "Total Month Sessions")
    case None => Finite(0)
    case Some(k) =>
      match Get(rows[k], "_1")
      case Some(v) => NumberOf(v)
      case None => Finite(0)
  }

  /** `monthlyData`: the rows strictly after the first "Employee" row, or all
      rows when there is none. It is always a suffix of the rows. */
  function MonthlyData(rows: seq<Row>): (data: seq<Row>)
    ensures |data| <= |rows| && data == rows[|rows| - |data|..]
    ensures |data| < |rows| ==> HasCell(rows[|rows| - |data| - 1], "September", "Employee")
    ensures forall j :: 0 <= j < |rows| - |data| - 1 ==> !HasCell(rows[j], "September", "Employee")
    ensures |data| == |rows| <==> forall j :: 0 <= j < |rows| ==> !HasCell(rows[j], "September", "Employee")
  {
    match FirstWith(rows, "September", "Employee")
    case Some(k) => rows[k + 1..]
    case None => rows
  }

  /** A total written as a plain number reads back as that number. */
  lemma TotalReadsBack(rows: seq<Row>, i: nat, n: nat)
    requires i < |rows| && HasCell(rows[i], "September", "Total Month Sessions")
    requires forall j :: 0 <= j < i ==> !HasCell(rows[j], "September", "Total Month Sessions")
    requires Get(rows[i], "_1") == Some(ShowNat(n))
    ensures TotalMonthSessions(rows) == Finite(n)
  {
    ParseShowNat(n);
  }

  /** Mapping the monthly data gives the tail of the mapping of the whole
      sheet: rows are mapped one by one, independently of their position. */
  lemma {:induction false} MappingKeepsSuffix(rows: seq<Row>, month: string)
    ensures var all := MappedMonthlySessionData(rows, month);
      var part := MappedMonthlySessionData(MonthlyData(rows), month);
      |part| <= |all| && part == all[|all| - |part|..]
  {
    var data := MonthlyData(rows);
    assert data == rows[|rows| - |data|..];
    MappingDrops(rows, |rows| - |data|, month);
  }

  lemma MappingDrops(rows: seq<Row>, d: nat, month: string)
    requires d <= |rows|
    ensures MappedMonthlySessionData(rows[d..], month) == MappedMonthlySessionData(rows, month)[d..]
  {
    var all := MappedMonthlySessionData(rows, month);
    var part := MappedMonthlySessionData(rows[d..], month);
    forall i | 0 <= i < |part| ensures part[i] == all[d + i] {
      assert rows[d..][i] == rows[d + i];
    }
  }

  /** The statistics read from one sheet. */
  datatype SessionStats = SessionStats(totalMonthSessions: Num, monthlyData: seq<Row>)

  /** `fetchSessionStats` after parsing: the total is read from the whole
      sheet, the data is the part after the "Employee" row. */
  function FetchSessionStats(rows: seq<Row>): (st: SessionStats)
    ensures |st.monthlyData| <= |rows| && st.monthlyData == rows[|rows| - |st.monthlyData|..]
    ensures forall j :: 0 <= j < |rows| - |st.monthlyData| - 1 ==> !HasCell(rows[j], "September", "Employee")
    ensures |st.monthlyData| < |rows| ==> HasCell(rows[|rows| - |st.monthlyData| - 1], "September", "Employee")
    ensures (forall i :: 0 <= i < |rows| ==> !HasCell(rows[i], "September", "Total Month Sessions"))
      ==> st.totalMonthSessions == Finite(0)
    ensures forall i ::
      (0 <= i < |rows| && HasCell(rows[i], "September", "Total Month Sessions")
       && (forall j :: 0 <= j < i ==> !HasCell(rows[j], "September", "Total Month Sessions")))
      ==> st.totalMonthSessions == (if "_1" in rows[i].cells then NumberOf(rows[i].cells["_1"]) else Finite(0))
  {
    SessionStats(TotalMonthSessions(rows), MonthlyData(rows))
  }
}
