/** The row window `fetchEmployeeStats` returns once the sheet is parsed: the
    rows after the first one, up to the first "Ex FTOs" row, without a
    trailing row whose cells are all empty. */
module EmployeeStatsFetch {
  import opened Sheet
  import opened Optional

  /** `rows[i]["Names"] === "Ex FTOs"`. */
  predicate IsStop(r: Row) {
    HasCell(r, "Names", "Ex FTOs")
  }

  /** `k` is the index `findIndex` returns for the stop row. */
  predicate FirstStop(rows: seq<Row>, k: int) {
    0 <= k < |rows| && IsStop(rows[k]) && forall j :: 0 <= j < k ==> !IsStop(rows[j])
  }

  /** `findIndex` returns -1. */
  predicate NoStop(rows: seq<Row>) {
    forall j :: 0 <= j < |rows| ==> !IsStop(rows[j])
  }

  /** `stopIndex > -1 ? rawData.slice(1, stopIndex) : rawData.slice(1)`. A
      stop row at index 0 or 1 gives an empty window, since `slice` with an
      end at or before its start is empty. */
  function Sliced(rows: seq<Row>): (s: seq<Row>)
    ensures forall k :: FirstStop(rows, k) ==> s == (if k <= 1 then [] else rows[1..k])
    ensures NoStop(rows) ==> s == (if |rows| == 0 then [] else rows[1..])
    ensures s == [] || (1 + |s| <= |rows| && s == rows[1..1 + |s|])
    ensures forall i :: 0 <= i < |s| ==> !IsStop(s[i])
    ensures |s| > 0 && 1 + |s| < |rows| ==> IsStop(rows[1 + |s|])
  {
    match FirstWith(rows, "Names", "Ex FTOs")
    case Some(k) => if k <= 1 then [] else rows[1..k]
    case None => if |rows| == 0 then [] else rows[1..]
  }

  /** Drop the last row when every one of its cells is falsy. */
  function TrimEmptyLast(s: seq<Row>): (t: seq<Row>)
    ensures |t| == |s| || |t| == |s| - 1
    ensures t == s[..|t|]
    ensures |t| < |s| <==> |s| > 0 && AllFalsy(s[|s| - 1])
  {
    if |s| > 0 && AllFalsy(s[|s| - 1]) then s[..|s| - 1] else s
  }

  /** The rows `fetchEmployeeStats` returns. */
  function StatsWindow(rows: seq<Row>): (w: seq<Row>)
    ensures forall k :: FirstStop(rows, k) ==>
      w == (if k <= 1 then [] else if AllFalsy(rows[k - 1]) then rows[1..k - 1] else rows[1..k])
    ensures NoStop(rows) ==>
      w == (if |rows| <= 1 then [] else if AllFalsy(rows[|rows| - 1]) then rows[1..|rows| - 1] else rows[1..])
    ensures w == [] || (1 + |w| <= |rows| && w == rows[1..1 + |w|])
    ensures forall i :: 0 <= i < |w| ==> !IsStop(w[i])
    ensures |Sliced(rows)| - 1 <= |w| <= |Sliced(rows)|
    ensures forall k :: 0 <= k < |rows| && IsStop(rows[k]) ==> w == [] || 1 + |w| <= k
  {
    var s := Sliced(rows);
    var t := TrimEmptyLast(s);
    assert t == [] || t == rows[1..1 + |t|] by {
      if t != [] {
        assert s == rows[1..1 + |s|];
        assert t == s[..|t|];
      }
    }
    WindowExact(rows);
    t
  }

  lemma WindowExact(rows: seq<Row>)
    ensures var t := TrimEmptyLast(Sliced(rows));
      && (forall k :: FirstStop(rows, k) ==>
            t == (if k <= 1 then [] else if AllFalsy(rows[k - 1]) then rows[1..k - 1] else rows[1..k]))
      && (NoStop(rows) ==>
            t == (if |rows| <= 1 then [] else if AllFalsy(rows[|rows| - 1]) then rows[1..|rows| - 1] else rows[1..]))
  {
    var t := TrimEmptyLast(Sliced(rows));
    forall k | FirstStop(rows, k)
      ensures t == (if k <= 1 then [] else if AllFalsy(rows[k - 1]) then rows[1..k - 1] else rows[1..k])
    {
      if k >= 1 {
        TrimmedSlice(rows, k);
      }
    }
    if NoStop(rows) && |rows| >= 1 {
      TrimmedSlice(rows, |rows|);
      assert rows[1..|rows|] == rows[1..];
    }
  }

  /** Trimming the slice `rows[1..hi]` drops its last row exactly when that
      row is empty. */
  lemma TrimmedSlice(rows: seq<Row>, hi: nat)
    requires 1 <= hi <= |rows|
    ensures TrimEmptyLast(rows[1..hi]) ==
      if hi <= 1 then [] else if AllFalsy(rows[hi - 1]) then rows[1..hi - 1] else rows[1..hi]
  {
    var s := rows[1..hi];
    if hi > 1 {
      assert s[|s| - 1] == rows[hi - 1];
      assert s[..|s| - 1] == rows[1..hi - 1];
    }
  }

  /** Without a stop row and with a last row that has some content, the window
      is every row after the first. */
  lemma WholeTail(rows: seq<Row>)
    requires |rows| > 0
    requires forall j :: 0 <= j < |rows| ==> !IsStop(rows[j])
    requires !AllFalsy(rows[|rows| - 1])
    ensures StatsWindow(rows) == rows[1..]
  {
    var s := Sliced(rows);
    if |rows| > 1 {
      assert s[|s| - 1] == rows[|rows| - 1];
    }
  }

  /** A stop row at index 3 leaves rows 1 and 2. */
  lemma StopAfterTwo(a: Row, b: Row, c: Row, stop: Row)
    requires !IsStop(a) && !IsStop(b) && !IsStop(c) && IsStop(stop)
    requires !AllFalsy(c)
    ensures StatsWindow([a, b, c, stop]) == [b, c]
  {
    assert FirstStop([a, b, c, stop], 3);
    assert [a, b, c, stop][1..3] == [b, c];
  }

  /** Only one empty trailing row goes: an empty row before it stays. */
  lemma OneTrailingRowRemoved(first: Row, e: Row)
    requires !IsStop(first) && !IsStop(e) && AllFalsy(e)
    ensures StatsWindow([first, e, e]) == [e]
  {
    assert [first, e, e][1..] == [e, e];
  }
}
