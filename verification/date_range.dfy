/** The `dateRange` filter of the generic data table. A cell holds a
    timestamp written "M/D/YYYY H:mm:ss"; the filter value holds optional
    start and end texts. A row passes when its timestamp lies between the
    bounds that are set, both ends included.

    A date is the tuple of its six fields, compared field by field from the
    year down. Turning a bound text into a date is the `parse` parameter;
    `None`, here and for a cell, is JavaScript's Invalid Date, which compares
    false with everything. */
module DateRange {
  import opened Text
  import opened Sheet
  import opened Optional

  datatype Stamp = Stamp(year: int, month: int, day: int, hours: int, minutes: int, seconds: int)

  /** `a < b` on dates: the first field that differs decides. */
  predicate Earlier(a: Stamp, b: Stamp) {
    || a.year < b.year
    || (a.year == b.year && a.month < b.month)
    || (a.year == b.year && a.month == b.month && a.day < b.day)
    || (a.year == b.year && a.month == b.month && a.day == b.day && a.hours < b.hours)
    || (a.year == b.year && a.month == b.month && a.day == b.day && a.hours == b.hours
        && a.minutes < b.minutes)
    || (a.year == b.year && a.month == b.month && a.day == b.day && a.hours == b.hours
        && a.minutes == b.minutes && a.seconds < b.seconds)
  }

  /** `a <= b` on dates. */
  predicate NotAfter(a: Stamp, b: Stamp) {
    a == b || Earlier(a, b)
  }

  /** `cellDate >= start`, false when either date is invalid. */
  predicate AtOrAfter(c: Option<Stamp>, b: Option<Stamp>) {
    c.Some? && b.Some? && NotAfter(b.value, c.value)
  }

  /** `cellDate <= end`, false when either date is invalid. */
  predicate AtOrBefore(c: Option<Stamp>, b: Option<Stamp>) {
    c.Some? && b.Some? && NotAfter(c.value, b.value)
  }

  /** One numeric field: `Number` of the piece, or `missing` when the piece
      does not exist. */
  function Field(pieces: seq<string>, i: nat, missing: Num): Num {
    if i < |pieces| then NumberOf(pieces[i]) else missing
  }

  /** `new Date(year, month - 1, day, hours, minutes, seconds)` from the
      pieces of the cell. A missing date piece is `undefined` and makes the
      date invalid; a missing time piece defaults to 0, and a falsy time part
      gives no time pieces at all. Any NaN field makes the date invalid. */
  function CellStamp(datePart: string, timePart: Option<string>): Option<Stamp> {
    var d := Split(datePart, '/');
    var t := if timePart.Some? && timePart.value != "" then Split(timePart.value, ':') else [];
    var year := Field(d, 2, NaN);
    var month := Field(d, 0, NaN);
    var day := Field(d, 1, NaN);
    var hours := Field(t, 0, Finite(0));
    var minutes := Field(t, 1, Finite(0));
    var seconds := Field(t, 2, Finite(0));
    if year.Finite? && month.Finite? && day.Finite? && hours.Finite? && minutes.Finite? && seconds.Finite?
    then Some(Stamp(year.value, month.value, day.value, hours.value, minutes.value, seconds.value))
    else None
  }

  /** `const [datePart, timePart] = cellValue.split(" ")`. */
  function DatePart(cell: string): string {
    Split(cell, ' ')[0]
  }

  function TimePart(cell: string): Option<string> {
    var parts := Split(cell, ' ');
    if |parts| >= 2 then Some(parts[1]) else None
  }

  /** The date a cell denotes. */
  function CellDate(cell: string): Option<Stamp> {
    CellStamp(DatePart(cell), TimePart(cell))
  }

  /** A bound of the filter: unset when its text is missing or empty,
      otherwise the date its text parses to, valid or not. */
  datatype Bound = Unset | Set(at: Option<Stamp>)

  function BoundOf(text: Option<string>, parse: string -> Option<Stamp>): Bound {
    if text.Some? && text.value != "" then Set(parse(text.value)) else Unset
  }

  /** `filterFns.dateRange(row, columnId, {start, end})` on the cell's text. */
  function DateRangeFilter(cell: string, start: Option<string>, end: Option<string>,
                           parse: string -> Option<Stamp>): (keep: bool)
    ensures DatePart(cell) == "" ==> !keep
    ensures keep <==>
      && DatePart(cell) != ""
      && (BoundOf(start, parse).Set? ==> AtOrAfter(CellDate(cell), BoundOf(start, parse).at))
      && (BoundOf(end, parse).Set? ==> AtOrBefore(CellDate(cell), BoundOf(end, parse).at))
  {
    if DatePart(cell) == "" then false
    else
      var c := CellDate(cell);
      var s := BoundOf(start, parse);
      var e := BoundOf(end, parse);
      if s.Set? && e.Set? then AtOrAfter(c, s.at) && AtOrBefore(c, e.at)
      else if s.Set? then AtOrAfter(c, s.at)
      else if e.Set? then AtOrBefore(c, e.at)
      else true
  }

  // ---------------------------------------------------------------------------
  // The order on dates

  lemma NotAfterTotal(a: Stamp, b: Stamp)
    ensures NotAfter(a, b) || NotAfter(b, a)
  {
  }

  lemma NotAfterAntisymmetric(a: Stamp, b: Stamp)
    requires NotAfter(a, b) && NotAfter(b, a)
    ensures a == b
  {
  }

  lemma NotAfterTransitive(a: Stamp, b: Stamp, c: Stamp)
    requires NotAfter(a, b) && NotAfter(b, c)
    ensures NotAfter(a, c)
  {
  }

  // ---------------------------------------------------------------------------
  // Timestamp texts

  /** The text "M/D/YYYY" of a date. */
  function DateText(month: nat, day: nat, year: nat): string {
    ShowNat(month) + "/" + ShowNat(day) + "/" + ShowNat(year)
  }

  /** A minute or second as the sheet writes it: at least two digits. */
  function TwoDigits(n: nat): string {
    PadZeros(ShowNat(n), 2)
  }

  /** The text "H:mm:ss" of a time of day. */
  function TimeText(hours: nat, minutes: nat, seconds: nat): string {
    ShowNat(hours) + ":" + TwoDigits(minutes) + ":" + TwoDigits(seconds)
  }

  /** A date text without a time reads as midnight of that day. */
  lemma DateOnlyIsMidnight(month: nat, day: nat, year: nat)
    ensures CellDate(DateText(month, day, year)) == Some(Stamp(year, month, day, 0, 0, 0))
  {
    var cell := DateText(month, day, year);
    assert Split(cell, ' ') == [cell] by {
      DateTextFree(month, day, year, ' ');
      SplitNoSep(cell, ' ');
    }
    assert DatePart(cell) == cell && TimePart(cell) == None;
    var d := [ShowNat(month), ShowNat(day), ShowNat(year)];
    assert Split(cell, '/') == d by { DateTextPieces(month, day, year); }
    assert NumberOf(d[0]) == Finite(month) by { ParseShowNat(month); }
    assert NumberOf(d[1]) == Finite(day) by { ParseShowNat(day); }
    assert NumberOf(d[2]) == Finite(year) by { ParseShowNat(year); }
    ReadPieces(cell, None, d, [],
               Stamp(year, month, day, 0, 0, 0));
  }

  /** A full timestamp text reads back as the date it was written from. */
  lemma TimestampRoundTrip(st: Stamp)
    requires st.year >= 0 && st.month >= 0 && st.day >= 0
    requires st.hours >= 0 && st.minutes >= 0 && st.seconds >= 0
    ensures CellDate(DateText(st.month, st.day, st.year) + " " + TimeText(st.hours, st.minutes, st.seconds))
         == Some(st)
  {
    var date := DateText(st.month, st.day, st.year);
    var time := TimeText(st.hours, st.minutes, st.seconds);
    StampTextParts(st);
    DateReads(st.month, st.day, st.year);
    TimeReads(st.hours, st.minutes, st.seconds);
    ReadPieces(date, Some(time), [ShowNat(st.month), ShowNat(st.day), ShowNat(st.year)],
               [ShowNat(st.hours), TwoDigits(st.minutes), TwoDigits(st.seconds)], st);
  }

  /** A timestamp text splits at its one space into the date and the time. */
  lemma StampTextParts(st: Stamp)
    requires st.year >= 0 && st.month >= 0 && st.day >= 0
    requires st.hours >= 0 && st.minutes >= 0 && st.seconds >= 0
    ensures var date := DateText(st.month, st.day, st.year);
      var time := TimeText(st.hours, st.minutes, st.seconds);
      var cell := date + " " + time;
      DatePart(cell) == date && TimePart(cell) == Some(time) && time != ""
  {
    var date := DateText(st.month, st.day, st.year);
    var time := TimeText(st.hours, st.minutes, st.seconds);
    DateTextFree(st.month, st.day, st.year, ' ');
    TimeTextFree(st.hours, st.minutes, st.seconds, ' ');
    SplitCons(date, ' ', time);
    SplitNoSep(time, ' ');
    assert |ShowNat(st.hours)| >= 1;
  }

  /** The pieces of a date text read back as month, day and year. */
  lemma DateReads(month: nat, day: nat, year: nat)
    ensures var d := [ShowNat(month), ShowNat(day), ShowNat(year)];
      && Split(DateText(month, day, year), '/') == d
      && NumberOf(d[0]) == Finite(month) && NumberOf(d[1]) == Finite(day) && NumberOf(d[2]) == Finite(year)
  {
    assert NumberOf(ShowNat(month)) == Finite(month) by { ParseShowNat(month); }
    assert NumberOf(ShowNat(day)) == Finite(day) by { ParseShowNat(day); }
    assert NumberOf(ShowNat(year)) == Finite(year) by { ParseShowNat(year); }
    DateTextPieces(month, day, year);
  }

  /** The pieces of a time text read back as hours, minutes and seconds. */
  lemma TimeReads(hours: nat, minutes: nat, seconds: nat)
    ensures var t := [ShowNat(hours), TwoDigits(minutes), TwoDigits(seconds)];
      && Split(TimeText(hours, minutes, seconds), ':') == t
      && NumberOf(t[0]) == Finite(hours) && NumberOf(t[1]) == Finite(minutes) && NumberOf(t[2]) == Finite(seconds)
  {
    assert NumberOf(ShowNat(hours)) == Finite(hours) by { ParseShowNat(hours); }
    assert NumberOf(TwoDigits(minutes)) == Finite(minutes) by { PaddedReads(minutes, 2); }
    assert NumberOf(TwoDigits(seconds)) == Finite(seconds) by { PaddedReads(seconds, 2); }
    TimeTextPieces(hours, minutes, seconds);
  }

  /** Reading a date from pieces whose values are known. */
  lemma ReadPieces(datePart: string, timePart: Option<string>, d: seq<string>, t: seq<string>, st: Stamp)
    requires Split(datePart, '/') == d && |d| == 3
    requires (if timePart.Some? && timePart.value != "" then Split(timePart.value, ':') else []) == t
    requires |t| == 0 || |t| == 3
    requires NumberOf(d[0]) == Finite(st.month) && NumberOf(d[1]) == Finite(st.day)
    requires NumberOf(d[2]) == Finite(st.year)
    requires |t| == 3 ==> NumberOf(t[0]) == Finite(st.hours) && NumberOf(t[1]) == Finite(st.minutes)
                          && NumberOf(t[2]) == Finite(st.seconds)
    requires |t| == 0 ==> st.hours == 0 && st.minutes == 0 && st.seconds == 0
    ensures CellStamp(datePart, timePart) == Some(st)
  {
    assert Field(d, 2, NaN) == Finite(st.year);
    assert Field(d, 0, NaN) == Finite(st.month);
    assert Field(d, 1, NaN) == Finite(st.day);
    assert Field(t, 0, Finite(0)) == Finite(st.hours);
    assert Field(t, 1, Finite(0)) == Finite(st.minutes);
    assert Field(t, 2, Finite(0)) == Finite(st.seconds);
  }

  lemma TimeTextPieces(hours: nat, minutes: nat, seconds: nat)
    ensures Split(TimeText(hours, minutes, seconds), ':') == [ShowNat(hours), TwoDigits(minutes), TwoDigits(seconds)]
  {
    PaddedValue(minutes, 2);
    PaddedValue(seconds, 2);
    DigitsExclude(ShowNat(hours), ':');
    DigitsExclude(TwoDigits(minutes), ':');
    DigitsExclude(TwoDigits(seconds), ':');
    SplitThree(ShowNat(hours), TwoDigits(minutes), TwoDigits(seconds), ':');
  }

  lemma DateTextPieces(month: nat, day: nat, year: nat)
    ensures Split(DateText(month, day, year), '/') == [ShowNat(month), ShowNat(day), ShowNat(year)]
  {
    DigitsExclude(ShowNat(month), '/');
    DigitsExclude(ShowNat(day), '/');
    DigitsExclude(ShowNat(year), '/');
    SplitThree(ShowNat(month), ShowNat(day), ShowNat(year), '/');
  }

  /** A date text holds only digits and slashes. */
  lemma DateTextFree(month: nat, day: nat, year: nat, c: char)
    requires !IsDigit(c) && c != '/'
    ensures c !in DateText(month, day, year)
  {
    DigitsExclude(ShowNat(month), c);
    DigitsExclude(ShowNat(day), c);
    DigitsExclude(ShowNat(year), c);
  }

  /** A time text holds only digits and colons. */
  lemma TimeTextFree(hours: nat, minutes: nat, seconds: nat, c: char)
    requires !IsDigit(c) && c != ':'
    ensures c !in TimeText(hours, minutes, seconds)
  {
    PaddedValue(minutes, 2);
    PaddedValue(seconds, 2);
    DigitsExclude(ShowNat(hours), c);
    DigitsExclude(TwoDigits(minutes), c);
    DigitsExclude(TwoDigits(seconds), c);
  }

  // ---------------------------------------------------------------------------
  // The filter's edge cases

  /** Both ends are inclusive: a cell equal to both bounds passes. */
  lemma BoundsInclusive(st: Stamp, start: string, end: string, parse: string -> Option<Stamp>)
    requires st.year >= 0 && st.month >= 0 && st.day >= 0
    requires st.hours >= 0 && st.minutes >= 0 && st.seconds >= 0
    requires start != "" && end != "" && parse(start) == Some(st) && parse(end) == Some(st)
    ensures DateRangeFilter(DateText(st.month, st.day, st.year) + " " + TimeText(st.hours, st.minutes, st.seconds),
                            Some(start), Some(end), parse)
  {
    var cell := DateText(st.month, st.day, st.year) + " " + TimeText(st.hours, st.minutes, st.seconds);
    TimestampRoundTrip(st);
    assert DatePart(cell) != "" by {
      DateTextFree(st.month, st.day, st.year, ' ');
      SplitCons(DateText(st.month, st.day, st.year), ' ', TimeText(st.hours, st.minutes, st.seconds));
      assert |ShowNat(st.month)| >= 1;
    }
  }

  /** A cell that is not a date, such as "n/a" (two slash pieces, so no
      year), passes when no bound is set and fails as soon as one is. */
  lemma UnparsableCell(start: Option<string>, end: Option<string>, parse: string -> Option<Stamp>)
    ensures BoundOf(start, parse).Unset? && BoundOf(end, parse).Unset? ==> DateRangeFilter("n/a", start, end, parse)
    ensures BoundOf(start, parse).Set? || BoundOf(end, parse).Set? ==> !DateRangeFilter("n/a", start, end, parse)
  {
    assert DatePart("n/a") == "n/a" by { SplitNoSep("n/a", ' '); }
    assert CellDate("n/a").None? by {
      assert Split("n/a", '/') == ["n", "a"] by {
        SplitCons("n", '/', "a");
        SplitNoSep("a", '/');
        assert "n" + ['/'] + "a" == "n/a";
      }
      MissingDatePiece("n/a", TimePart("n/a"));
    }
  }

  /** A date with too few slash pieces is invalid. */
  lemma MissingDatePiece(datePart: string, timePart: Option<string>)
    requires |Split(datePart, '/')| < 3
    ensures CellStamp(datePart, timePart).None?
  {
  }

  /** A cell that starts with a space has an empty date part and is always
      rejected. */
  lemma LeadingSpaceRejected(rest: string, start: Option<string>, end: Option<string>, parse: string -> Option<Stamp>)
    ensures !DateRangeFilter(" " + rest, start, end, parse)
  {
    SplitCons("", ' ', rest);
    assert "" + [' '] + rest == " " + rest;
  }
}
