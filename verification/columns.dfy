/** The two `generateColumns` helpers: one table column per key of the first
    data row, skipping keys whose lowercase form is listed in `excludeKeys`.
    The plain variant always uses a text header; the all-data variant gives a
    "timestamp" key a sort button instead. */
module Columns {
  import opened Text
  import opened Sheet
  import opened Optional
  import opened Seqs

  /** A column header: plain text, or a button that toggles sorting and shows
      the same text. */
  datatype Header = Label(text: string) | SortButton(text: string)

  datatype Column = Column(accessorKey: string, header: Header)

  /** `!excludeKeys.includes(key.toLowerCase())`. */
  predicate Shown(key: string, excludeKeys: seq<string>) {
    Lower(key) !in excludeKeys
  }

  /** The keys that get a column, in the first row's key order. */
  function ShownKeys(data: seq<Row>, excludeKeys: seq<string>): seq<string> {
    if |data| == 0 then [] else Filter(data[0].keys, k => Shown(k, excludeKeys))
  }

  /** `generateColumns` of `components/columns.tsx`. */
  function PlainColumns(data: seq<Row>, excludeKeys: seq<string>): (cols: seq<Column>)
    ensures |data| == 0 ==> cols == []
    ensures |cols| == |ShownKeys(data, excludeKeys)|
    ensures forall i :: 0 <= i < |cols| ==>
      cols[i].header == Label(Capitalize(cols[i].accessorKey))
    ensures forall i :: 0 <= i < |cols| ==>
      cols[i].accessorKey in data[0].keys && Shown(cols[i].accessorKey, excludeKeys)
    ensures |data| > 0 ==> forall k :: k in data[0].keys && Shown(k, excludeKeys) ==>
      exists i :: 0 <= i < |cols| && cols[i].accessorKey == k
  {
    var keys := ShownKeys(data, excludeKeys);
    var cols := seq(|keys|, i requires 0 <= i < |keys| => Column(keys[i], Label(Capitalize(keys[i]))));
    assert |data| > 0 ==> forall k :: k in data[0].keys && Shown(k, excludeKeys) ==> cols[IndexIn(keys, k)].accessorKey == k;
    cols
  }

  /** `generateColumns` of `all-data-table/columns.tsx`. */
  function AllDataColumns(data: seq<Row>, excludeKeys: seq<string>): (cols: seq<Column>)
    ensures |data| == 0 ==> cols == []
    ensures |cols| == |ShownKeys(data, excludeKeys)|
    ensures forall i :: 0 <= i < |cols| ==>
      cols[i].header.text == Capitalize(cols[i].accessorKey)
    ensures forall i :: 0 <= i < |cols| ==>
      (cols[i].header.SortButton? <==> Lower(cols[i].accessorKey) == "timestamp")
    ensures forall i :: 0 <= i < |cols| ==>
      cols[i].accessorKey in data[0].keys && Shown(cols[i].accessorKey, excludeKeys)
  {
    var keys := ShownKeys(data, excludeKeys);
    seq(|keys|, i requires 0 <= i < |keys| => AllDataColumn(keys[i]))
  }

  /** The column the all-data table builds for one key. */
  function AllDataColumn(key: string): Column {
    var text := Capitalize(key);
    Column(key, if Lower(key) == "timestamp" then SortButton(text) else Label(text))
  }

  /** Position of a key in a list that holds it. */
  function IndexIn(keys: seq<string>, k: string): (i: nat)
    requires k in keys
    ensures i < |keys| && keys[i] == k
  {
    if keys[0] == k then 0 else 1 + IndexIn(keys[1..], k)
  }

  /** The accessor keys are the shown keys of the first row, in order. */
  lemma AccessorKeysInOrder(data: seq<Row>, excludeKeys: seq<string>)
    requires |data| > 0
    ensures var cols := PlainColumns(data, excludeKeys);
      IsSubsequence(seq(|cols|, i requires 0 <= i < |cols| => cols[i].accessorKey), data[0].keys)
  {
    var cols := PlainColumns(data, excludeKeys);
    var keys := ShownKeys(data, excludeKeys);
    assert seq(|cols|, i requires 0 <= i < |cols| => cols[i].accessorKey) == keys;
    FilterIsSubsequence(data[0].keys, k => Shown(k, excludeKeys));
  }

  /** Only the first row is consulted: rows after it never change the columns. */
  lemma OnlyFirstRowMatters(first: Row, rest1: seq<Row>, rest2: seq<Row>, excludeKeys: seq<string>)
    ensures PlainColumns([first] + rest1, excludeKeys) == PlainColumns([first] + rest2, excludeKeys)
    ensures AllDataColumns([first] + rest1, excludeKeys) == AllDataColumns([first] + rest2, excludeKeys)
  {
    assert ([first] + rest1)[0] == first && ([first] + rest2)[0] == first;
  }

  /** An `excludeKeys` entry with an uppercase letter is compared against
      lowercased keys only, so it never excludes anything. */
  lemma UppercaseExcludeIgnored(data: seq<Row>, excludeKeys: seq<string>, e: string)
    requires HasUpper(e)
    ensures PlainColumns(data, excludeKeys + [e]) == PlainColumns(data, excludeKeys)
    ensures AllDataColumns(data, excludeKeys + [e]) == AllDataColumns(data, excludeKeys)
  {
    if |data| > 0 {
      var keys := data[0].keys;
      forall i | 0 <= i < |keys| ensures Shown(keys[i], excludeKeys + [e]) == Shown(keys[i], excludeKeys) {
        LowerHasNoUpper(keys[i], e);
      }
      FilterCongruent(keys, k => Shown(k, excludeKeys + [e]), k => Shown(k, excludeKeys));
    }
  }

  /** The two variants agree on keys and header text; they differ only in the
      sort button of the timestamp column. */
  lemma VariantsAgree(data: seq<Row>, excludeKeys: seq<string>)
    ensures var p := PlainColumns(data, excludeKeys);
      var a := AllDataColumns(data, excludeKeys);
      && |p| == |a|
      && forall i :: 0 <= i < |p| ==>
           && p[i].accessorKey == a[i].accessorKey
           && p[i].header.text == a[i].header.text
           && (Lower(p[i].accessorKey) != "timestamp" ==> p[i] == a[i])
  {
  }
}
