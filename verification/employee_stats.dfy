/** `getUniqueEmployeeRows`: keep the session rows whose name contains the
    filter text, then count the kept rows per trimmed name. */
module EmployeeStats {
  import opened Text
  import opened Sheet
  import opened Optional
  import opened Seqs

  /** One output row: `{"Your Name": name, "Total Sessions": total}`. */
  datatype EmployeeTotal = EmployeeTotal(name: string, total: nat)

  /** `row["Your Name"] || "Unknown"`. */
  function NameOf(row: Row): string {
    Or(Get(row, "Your Name"), "Unknown")
  }

  /** The filter tests the untrimmed name, both sides lowercased. */
  predicate Matches(row: Row, nameFilter: string) {
    Contains(Lower(NameOf(row)), Lower(nameFilter))
  }

  /** Rows are counted under their trimmed name. */
  function KeyOf(row: Row): string {
    Trim(NameOf(row))
  }

  predicate DistinctNames(t: seq<EmployeeTotal>) {
    forall i, j :: 0 <= i < j < |t| ==> t[i].name != t[j].name
  }

  function SumTotals(t: seq<EmployeeTotal>): nat
    decreases |t|
  {
    if |t| == 0 then 0 else t[0].total + SumTotals(t[1..])
  }

  /** The total recorded for `name`, 0 when there is none. */
  function TotalFor(t: seq<EmployeeTotal>, name: string): nat
    decreases |t|
  {
    if |t| == 0 then 0
    else if t[0].name == name then t[0].total
    else TotalFor(t[1..], name)
  }

  function NamesOf(t: seq<EmployeeTotal>): set<string>
    decreases |t|
  {
    if |t| == 0 then {} else {t[0].name} + NamesOf(t[1..])
  }

  lemma {:induction false} NamesOfAt(t: seq<EmployeeTotal>, n: string)
    ensures n in NamesOf(t) <==> exists i :: 0 <= i < |t| && t[i].name == n
    decreases |t|
  {
    if |t| > 0 {
      NamesOfAt(t[1..], n);
      if exists i :: 0 <= i < |t| && t[i].name == n {
        var i :| 0 <= i < |t| && t[i].name == n;
        if i > 0 { assert t[1..][i - 1].name == n; }
      }
      if exists i :: 0 <= i < |t[1..]| && t[1..][i].name == n {
        var i :| 0 <= i < |t[1..]| && t[1..][i].name == n;
        assert t[i + 1].name == n;
      }
    }
  }

  /** `aggregated[name] = (aggregated[name] || 0) + 1`: bump the entry for
      `name`, or append a new entry with total 1. */
  function Tally(t: seq<EmployeeTotal>, name: string): (r: seq<EmployeeTotal>)
    requires DistinctNames(t)
    ensures DistinctNames(r)
    ensures NamesOf(r) == NamesOf(t) + {name}
    ensures SumTotals(r) == SumTotals(t) + 1
    ensures TotalFor(r, name) == TotalFor(t, name) + 1
    ensures forall n :: n != name ==> TotalFor(r, n) == TotalFor(t, n)
    ensures (forall i :: 0 <= i < |t| ==> t[i].total >= 1) ==> forall i :: 0 <= i < |r| ==> r[i].total >= 1
    decreases |t|
  {
    if |t| == 0 then [EmployeeTotal(name, 1)]
    else if t[0].name == name then
      var r := [t[0].(total := t[0].total + 1)] + t[1..];
      assert r[1..] == t[1..];
      r
    else
      var rest := Tally(t[1..], name);
      var r := [t[0]] + rest;
      assert r[1..] == rest;
      assert t[0].name !in NamesOf(t[1..]) by {
        NamesOfAt(t[1..], t[0].name);
        assert forall i :: 0 <= i < |t[1..]| ==> t[1..][i].name == t[i + 1].name;
      }
      assert t[0].name !in NamesOf(rest);
      assert forall i :: 0 <= i < |rest| ==> rest[i].name != t[0].name by {
        forall i | 0 <= i < |rest| ensures rest[i].name != t[0].name {
          NamesOfAt(rest, rest[i].name);
        }
      }
      r
  }

  /** `filtered.forEach(...)`: tally the trimmed names of the kept rows, in
      order. */
  function Aggregate(names: seq<string>): (t: seq<EmployeeTotal>)
    ensures DistinctNames(t)
    ensures forall i :: 0 <= i < |t| ==> t[i].total >= 1
    ensures SumTotals(t) == |names|
    decreases |names|
  {
    if |names| == 0 then []
    else Tally(Aggregate(names[..|names| - 1]), names[|names| - 1])
  }

  /** How many times `name` occurs. */
  function Count(names: seq<string>, name: string): nat
    decreases |names|
  {
    if |names| == 0 then 0
    else Count(names[..|names| - 1], name) + (if names[|names| - 1] == name then 1 else 0)
  }

  /** The trimmed name of each row. */
  function KeysOf(rows: seq<Row>): (keys: seq<string>)
    ensures |keys| == |rows|
    ensures forall i :: 0 <= i < |rows| ==> keys[i] == KeyOf(rows[i])
  {
    seq(|rows|, i requires 0 <= i < |rows| => KeyOf(rows[i]))
  }

  /** The rows the table counts. */
  function Kept(data: seq<Row>, nameFilter: string): seq<Row> {
    Filter(data, row => Matches(row, nameFilter))
  }

  /** `getUniqueEmployeeRows(data, nameFilter)`. */
  function UniqueEmployeeRows(data: seq<Row>, nameFilter: string): (t: seq<EmployeeTotal>)
    ensures DistinctNames(t)
    ensures forall i :: 0 <= i < |t| ==> t[i].total >= 1
    ensures SumTotals(t) == |Kept(data, nameFilter)|
  {
    Aggregate(KeysOf(Kept(data, nameFilter)))
  }

  /** The total of each name is the number of times it occurs, and a name is
      listed exactly when it occurs. */
  lemma {:induction false} AggregateCounts(names: seq<string>, name: string)
    ensures TotalFor(Aggregate(names), name) == Count(names, name)
    ensures name in NamesOf(Aggregate(names)) <==> name in names
    decreases |names|
  {
    if |names| > 0 {
      var init := names[..|names| - 1];
      AggregateCounts(init, name);
      assert names == init + [names[|names| - 1]];
    }
  }

  /** Each output total counts the kept rows whose trimmed name it is, and the
      listed names are exactly the trimmed names of the kept rows. */
  lemma UniqueEmployeeTotals(data: seq<Row>, nameFilter: string)
    ensures var t := UniqueEmployeeRows(data, nameFilter);
      var keys := KeysOf(Kept(data, nameFilter));
      && (forall i :: 0 <= i < |t| ==> t[i].total == Count(keys, t[i].name))
      && (forall name :: name in NamesOf(t) <==> name in keys)
  {
    var t := UniqueEmployeeRows(data, nameFilter);
    var keys := KeysOf(Kept(data, nameFilter));
    forall i | 0 <= i < |t| ensures t[i].total == Count(keys, t[i].name) {
      AggregateCounts(keys, t[i].name);
      TotalForAt(t, i);
    }
    forall name ensures name in NamesOf(t) <==> name in keys {
      AggregateCounts(keys, name);
    }
  }

  lemma {:induction false} TotalForAt(t: seq<EmployeeTotal>, i: nat)
    requires DistinctNames(t) && i < |t|
    ensures TotalFor(t, t[i].name) == t[i].total
    decreases |t|
  {
    if i > 0 {
      assert t[0].name != t[i].name;
      assert t[1..][i - 1] == t[i];
      TotalForAt(t[1..], i - 1);
    }
  }

  /** The filter keeps the rows in order and keeps exactly those whose name,
      or "Unknown" when it is falsy, contains the filter text, ignoring case. */
  lemma KeptRowsAreMatching(data: seq<Row>, nameFilter: string)
    ensures IsSubsequence(Kept(data, nameFilter), data)
    ensures forall i :: 0 <= i < |data| ==>
      (data[i] in Kept(data, nameFilter) <==> Contains(Lower(Or(Get(data[i], "Your Name"), "Unknown")), Lower(nameFilter)))
  {
    FilterIsSubsequence(data, row => Matches(row, nameFilter));
  }

  /** The default empty filter keeps every row. */
  lemma EmptyFilterKeepsAll(data: seq<Row>)
    ensures Kept(data, "") == data
  {
    forall i | 0 <= i < |data| ensures Matches(data[i], "") {
      ContainsEmpty(Lower(NameOf(data[i])));
    }
    FilterAll(data, row => Matches(row, ""));
  }

  /** Names differing only in surrounding spaces are counted together: " Bob"
      and "Bob" land in one entry, while the filter saw the untrimmed text. */
  lemma TrimmedNamesMerge(a: Row, b: Row)
    requires Get(a, "Your Name") == Some(" Bob")
    requires Get(b, "Your Name") == Some("Bob")
    ensures UniqueEmployeeRows([a, b], "") == [EmployeeTotal("Bob", 2)]
  {
    assert NameOf(a) == " Bob" && NameOf(b) == "Bob";
    var keys := KeysOf([a, b]);
    assert keys == ["Bob", "Bob"] by {
      SpaceBobTrims();
      assert keys[0] == Trim(NameOf(a)) && keys[1] == Trim(NameOf(b));
    }
    UnfilteredRows([a, b]);
    TwiceTallied("Bob");
  }

  lemma UnfilteredRows(data: seq<Row>)
    ensures UniqueEmployeeRows(data, "") == Aggregate(KeysOf(data))
  {
    EmptyFilterKeepsAll(data);
  }

  lemma SpaceBobTrims()
    ensures Trim(" Bob") == "Bob" && Trim("Bob") == "Bob"
  {
    assert !IsSpace('B') && !IsSpace('b');
    assert TrimStart("Bob") == "Bob";
    assert TrimStart(" Bob") == "Bob";
    assert TrimEnd("Bob") == "Bob";
  }

  lemma TwiceTallied(name: string)
    ensures Aggregate([name, name]) == [EmployeeTotal(name, 2)]
  {
    assert [name, name][..1] == [name];
    assert [name][..0] == [];
  }
}
