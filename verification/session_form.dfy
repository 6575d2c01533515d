/** The "Create new FTD session" form: the required-field check, the 24-hour to
    12-hour time conversion, the `MM/dd/yyyy` date, the payload, and the reset
    after a successful submit. */
module SessionForm {
  import opened Text
  import opened Sheet
  import opened Optional
  import opened Forms

  /** A calendar day as the date picker yields it. */
  datatype Date = Date(year: nat, month: nat, day: nat)

  datatype Form = Form(
    yourName: string,
    date: Option<Date>,
    timeStart: string,
    timeFinish: string,
    emrName: string,
    sessionConducted: string)

  /** The state the form starts in and is reset to. */
  const Blank := Form("", None, "", "", "", "")

  datatype Payload = Payload(
    yourName: string,
    date: string,
    timeStart: string,
    timeFinish: string,
    emrName: string,
    sessionConducted: string)

  // ---------------------------------------------------------------------------
  // Time conversion

  /** JavaScript's `%`: the remainder takes the sign of the dividend. */
  function JsRem(a: int, b: int): (r: int)
    requires b > 0
    ensures a >= 0 ==> r == a % b
    ensures a < 0 ==> -b < r <= 0
    ensures (a - r) % b == 0
  {
    RemainderDifference(a, b);
    if a >= 0 then a % b else -((-a) % b)
  }

  /** Either way of taking a remainder leaves a multiple of `b` behind. */
  lemma RemainderDifference(a: int, b: int)
    requires b > 0
    ensures a >= 0 ==> (a - a % b) % b == 0
    ensures a < 0 ==> (a + (-a) % b) % b == 0
  {
    if a >= 0 {
      assert a - a % b == (a / b) * b;
      MultipleRem(a / b, b);
    } else {
      assert a + (-a) % b == -((-a) / b) * b;
      MultipleRem(-((-a) / b), b);
    }
  }

  /** A multiple of `b` leaves no remainder. */
  lemma MultipleRem(k: int, b: int)
    requires b > 0
    ensures (k * b) % b == 0
  {
    var q, m := (k * b) / b, (k * b) % b;
    assert k * b == q * b + m;
    assert m == (k - q) * b;
    OutsideZero(k - q, b);
  }

  /** A nonzero multiple of `b` is at least `b` away from zero. */
  lemma OutsideZero(j: int, b: int)
    requires b > 0
    ensures j >= 1 ==> j * b >= b
    ensures j <= -1 ==> j * b <= -b
  {
  }

  /** `parseInt(hourStr, 10)` of the text before the first colon. */
  function HourOf(time24: string): Num {
    ParseInt(Split(time24, ':')[0])
  }

  /** The text between the first and second colon; a template literal prints
      a missing piece as "undefined". */
  function MinuteOf(time24: string): string {
    var parts := Split(time24, ':');
    if |parts| > 1 then parts[1] else "undefined"
  }

  /** `hour >= 12 ? "PM" : "AM"`; NaN compares false. */
  function Meridiem(hour: Num): (m: string)
    ensures m == "PM" <==> hour.Finite? && hour.value >= 12
    ensures m == "PM" || m == "AM"
  {
    if hour.Finite? && hour.value >= 12 then "PM" else "AM"
  }

  /** `hour % 12`, then 0 becomes 12. For a non-negative hour the result is the
      hour on a 12-hour dial: in 1..12 and equal to the hour modulo 12. */
  function DialHour(hour: Num): (h: Num)
    ensures hour.NaN? <==> h.NaN?
    ensures hour.Finite? && hour.value >= 0 ==> 1 <= h.value <= 12 && h.value % 12 == hour.value % 12
    ensures hour.Finite? && hour.value < 0 ==> h.value == 12 || -11 <= h.value <= -1
    ensures hour.Finite? ==> (h.value - hour.value) % 12 == 0 && (h.value == 12 <==> hour.value % 12 == 0)
  {
    match hour
    case NaN => NaN
    case Finite(v) =>
      var r := JsRem(v, 12);
      if r == 0 then Finite(12) else Finite(r)
  }

  /** `${hour}:${minute}:00 ${ampm}`. */
  function Clock(hour: string, minute: string, ampm: string): string {
    hour + ":" + minute + ":00 " + ampm
  }

  lemma ClockSuffix(hour: string, minute: string, ampm: string)
    requires |ampm| == 2
    ensures var r := Clock(hour, minute, ampm); |r| >= 3 && r[|r| - 3..] == [' '] + ampm
  {
  }

  /** The three colon-separated pieces of a clock text. */
  lemma ClockPieces(hour: string, minute: string, ampm: string)
    requires ':' !in hour && ':' !in minute && ':' !in ampm
    ensures Split(Clock(hour, minute, ampm), ':') == [hour, minute, "00 " + ampm]
  {
    var tail := "00 " + ampm;
    assert ':' !in tail by {
      assert forall i :: 0 <= i < |tail| ==> tail[i] == (if i < 3 then "00 "[i] else ampm[i - 3]);
    }
    assert Clock(hour, minute, ampm) == hour + [':'] + minute + [':'] + tail;
    SplitThree(hour, minute, tail, ':');
  }

  /** `formatTime12h`: "HH:MM" becomes "h:MM:00 AM" or "h:MM:00 PM". */
  function FormatTime12h(time24: string): (r: string)
    ensures var h := HourOf(time24);
      EndsWith(r, " PM") <==> h.Finite? && h.value >= 12
    ensures EndsWith(r, " PM") || EndsWith(r, " AM")
  {
    var hour := HourOf(time24);
    MeridiemSuffix(ShowNum(DialHour(hour)), MinuteOf(time24), hour);
    Clock(ShowNum(DialHour(hour)), MinuteOf(time24), Meridiem(hour))
  }

  /** A clock text ends in " PM" exactly for an hour of at least 12, and in
      " AM" otherwise. */
  lemma MeridiemSuffix(hour: string, minute: string, h: Num)
    ensures var r := Clock(hour, minute, Meridiem(h));
      && (EndsWith(r, " PM") <==> h.Finite? && h.value >= 12)
      && (EndsWith(r, " PM") || EndsWith(r, " AM"))
  {
    var ap := Meridiem(h);
    ClockSuffix(hour, minute, ap);
    if ap == "PM" {
      assert [' '] + ap == " PM";
    } else {
      assert [' '] + ap == " AM";
      assert " AM"[1] != " PM"[1];
    }
  }

  predicate EndsWith(s: string, suffix: string) {
    |suffix| <= |s| && s[|s| - |suffix|..] == suffix
  }

  /** Reading a "h:mm:00 AM/PM" time back as a 24-hour hour and the minute
      text. */
  function From12h(s: string): Option<(nat, string)> {
    var parts := Split(s, ':');
    if |parts| != 3 || (parts[2] != "00 AM" && parts[2] != "00 PM") then None
    else
      match ParseInt(parts[0])
      case Finite(h) =>
        if 1 <= h <= 12 then Some(((if h == 12 then 0 else h) + (if parts[2] == "00 PM" then 12 else 0), parts[1]))
        else None
      case NaN => None
  }

  /** The time as the picker gives it: one or more digits, a colon, and a
      minute text without colons. */
  predicate IsTime24(hs: string, m: string) {
    hs != "" && AllDigits(hs) && DigitsValue(hs) < 24 && ':' !in m
  }

  lemma Time24Pieces(hs: string, m: string)
    requires IsTime24(hs, m)
    ensures Split(hs + ":" + m, ':') == [hs, m]
    ensures HourOf(hs + ":" + m) == Finite(DigitsValue(hs))
    ensures MinuteOf(hs + ":" + m) == m
  {
    assert Split(hs + ":" + m, ':') == [hs, m] by {
      DigitsExclude(hs, ':');
      SplitCons(hs, ':', m);
      SplitNoSep(m, ':');
    }
    assert ParseInt(hs) == Finite(DigitsValue(hs)) by { ParseDigits(hs); }
  }

  /** The conversion table: hour 0 is 12 AM, 1..11 stay AM, 12 is 12 PM, and
      13..23 lose twelve and become PM; the minute is copied verbatim and the
      seconds are always "00". */
  lemma TwelveHourTable(hs: string, m: string)
    requires IsTime24(hs, m)
    ensures var v := DigitsValue(hs);
      FormatTime12h(hs + ":" + m)
      == Clock(ShowNat(if v == 0 then 12 else if v <= 12 then v else v - 12), m, if v < 12 then "AM" else "PM")
  {
    var v := DigitsValue(hs);
    Time24Pieces(hs, m);
    var c := if v == 0 then 12 else if v <= 12 then v else v - 12;
    DialOfDayHour(v);
    assert ShowNum(DialHour(Finite(v))) == ShowNat(c);
  }

  /** On the hours of a day the dial hour is the familiar table. */
  lemma DialOfDayHour(v: nat)
    requires v < 24
    ensures DialHour(Finite(v)) == Finite(if v == 0 then 12 else if v <= 12 then v else v - 12)
  {
    if v < 12 {
      assert v % 12 == v;
    } else {
      assert v % 12 == v - 12;
    }
  }

  /** The displayed hour lies in 1..12 and has no leading zero. */
  lemma DisplayedHourOnDial(hs: string, m: string)
    requires IsTime24(hs, m)
    ensures var r := FormatTime12h(hs + ":" + m);
      var shown := Split(r, ':')[0];
      shown != "" && shown[0] != '0' && AllDigits(shown) && 1 <= DigitsValue(shown) <= 12
  {
    var v := DigitsValue(hs);
    var c := if v == 0 then 12 else if v <= 12 then v else v - 12;
    var ap := if v < 12 then "AM" else "PM";
    TwelveHourTable(hs, m);
    DigitsExclude(ShowNat(c), ':');
    assert ':' !in ap;
    ClockPieces(ShowNat(c), m, ap);
  }

  /** Reading back a clock text built from a dial hour. */
  lemma From12hOfClock(c: nat, m: string, pm: bool)
    requires 1 <= c <= 12 && ':' !in m
    ensures From12h(Clock(ShowNat(c), m, if pm then "PM" else "AM"))
         == Some(((if c == 12 then 0 else c) + (if pm then 12 else 0), m))
  {
    var ap := if pm then "PM" else "AM";
    var shown := ShowNat(c);
    var tail := "00 " + ap;
    var s := Clock(shown, m, ap);
    assert Split(s, ':') == [shown, m, tail] by {
      DigitsExclude(shown, ':');
      assert ':' !in ap;
      ClockPieces(shown, m, ap);
    }
    assert ParseInt(shown) == Finite(c) by { ParseShowNat(c); }
    assert tail == (if pm then "00 PM" else "00 AM");
    assert tail == "00 PM" <==> pm by {
      if !pm { assert tail[3] != "00 PM"[3]; }
    }
    From12hOfPieces(s, shown, m, tail, c);
  }

  lemma From12hOfPieces(s: string, hour: string, m: string, tail: string, c: nat)
    requires Split(s, ':') == [hour, m, tail] && (tail == "00 PM" || tail == "00 AM")
    requires ParseInt(hour) == Finite(c) && 1 <= c <= 12
    ensures From12h(s) == Some(((if c == 12 then 0 else c) + (if tail == "00 PM" then 12 else 0), m))
  {
    var parts := Split(s, ':');
    assert |parts| == 3 && parts[0] == hour && parts[1] == m && parts[2] == tail;
  }

  /** Converting to 12-hour form loses nothing: reading the result back gives
      the 24-hour hour and the minute text. */
  lemma {:induction false} Time12hRoundTrip(hs: string, m: string)
    requires IsTime24(hs, m)
    ensures From12h(FormatTime12h(hs + ":" + m)) == Some((DigitsValue(hs), m))
  {
    var v := DigitsValue(hs);
    var c := if v == 0 then 12 else if v <= 12 then v else v - 12;
    TwelveHourTable(hs, m);
    From12hOfClock(c, m, v >= 12);
  }

  // ---------------------------------------------------------------------------
  // Date formatting

  /** `format(date, "MM/dd/yyyy")`. */
  function FormatDate(d: Date): (r: string)
    ensures var parts := Split(r, '/');
      && |parts| == 3
      && AllDigits(parts[0]) && AllDigits(parts[1]) && AllDigits(parts[2])
      && DigitsValue(parts[0]) == d.month
      && DigitsValue(parts[1]) == d.day
      && DigitsValue(parts[2]) == d.year
  {
    var mm := PadZeros(ShowNat(d.month), 2);
    var dd := PadZeros(ShowNat(d.day), 2);
    var yy := PadZeros(ShowNat(d.year), 4);
    assert AllDigits(mm) && DigitsValue(mm) == d.month by { PaddedValue(d.month, 2); }
    assert AllDigits(dd) && DigitsValue(dd) == d.day by { PaddedValue(d.day, 2); }
    assert AllDigits(yy) && DigitsValue(yy) == d.year by { PaddedValue(d.year, 4); }
    SlashFields(mm, dd, yy);
    mm + "/" + dd + "/" + yy
  }

  /** Three digit fields joined by slashes split back into those fields. */
  lemma SlashFields(mm: string, dd: string, yy: string)
    requires AllDigits(mm) && AllDigits(dd) && AllDigits(yy)
    ensures var parts := Split(mm + "/" + dd + "/" + yy, '/');
      && |parts| == 3 && parts[0] == mm && parts[1] == dd && parts[2] == yy
  {
    DigitsExclude(mm, '/');
    DigitsExclude(dd, '/');
    DigitsExclude(yy, '/');
    SplitThree(mm, dd, yy, '/');
  }

  /** The payload date splits into month, day and year again: two digits, two
      digits and four digits for the years 0..9999. */
  lemma {:induction false} DateRoundTrip(d: Date)
    requires 1 <= d.month <= 12 && 1 <= d.day <= 31 && d.year <= 9999
    ensures var parts := Split(FormatDate(d), '/');
      && |parts| == 3
      && |parts[0]| == 2 && |parts[1]| == 2 && |parts[2]| == 4
      && AllDigits(parts[0]) && AllDigits(parts[1]) && AllDigits(parts[2])
      && DigitsValue(parts[0]) == d.month
      && DigitsValue(parts[1]) == d.day
      && DigitsValue(parts[2]) == d.year
  {
    var mm := PadZeros(ShowNat(d.month), 2);
    var dd := PadZeros(ShowNat(d.day), 2);
    var yy := PadZeros(ShowNat(d.year), 4);
    Pow10Values();
    PaddedPiece(d.month, 2);
    PaddedPiece(d.day, 2);
    PaddedPiece(d.year, 4);
    SplitThree(mm, dd, yy, '/');
  }

  lemma Pow10Values()
    ensures Pow10(2) == 100 && Pow10(4) == 10000
  {
    assert Pow10(1) == 10;
    assert Pow10(3) == 1000;
  }

  /** One zero-padded field of the date: exactly `width` digits, no slash,
      reading back as the number. */
  lemma PaddedPiece(n: nat, width: nat)
    requires 1 <= width && n < Pow10(width)
    ensures var p := PadZeros(ShowNat(n), width);
      |p| == width && AllDigits(p) && DigitsValue(p) == n && '/' !in p
  {
    ShowNatWidth(n, width);
    PaddedValue(n, width);
    DigitsExclude(PadZeros(ShowNat(n), width), '/');
  }

  function Pow10(k: nat): nat {
    if k == 0 then 1 else 10 * Pow10(k - 1)
  }

  /** A number below 10^k renders in at most k digits. */
  lemma {:induction false} ShowNatWidth(n: nat, k: nat)
    requires 1 <= k && n < Pow10(k)
    ensures |ShowNat(n)| <= k
    decreases k
  {
    if n >= 10 {
      assert k > 1;
      ShowNatWidth(n / 10, k - 1);
    }
  }

  // ---------------------------------------------------------------------------
  // Submitting

  /** All six fields filled in: the four texts non-empty and a date chosen. */
  predicate Complete(f: Form) {
    && f.yourName != ""
    && f.date.Some?
    && f.timeStart != ""
    && f.timeFinish != ""
    && f.emrName != ""
    && f.sessionConducted != ""
  }

  /** The request `handleSubmit` sends: none when a field is empty; otherwise
      the form with both times in 12-hour form and the date as `MM/dd/yyyy`,
      every other field unchanged. */
  function Submit(f: Form): (s: Submission<Payload>)
    ensures s.Rejected? <==>
      f.yourName == "" || f.date.None? || f.timeStart == "" || f.timeFinish == ""
      || f.emrName == "" || f.sessionConducted == ""
    ensures s.Posted? ==>
      && s.payload.yourName == f.yourName
      && s.payload.emrName == f.emrName
      && s.payload.sessionConducted == f.sessionConducted
      && s.payload.timeStart == FormatTime12h(f.timeStart)
      && s.payload.timeFinish == FormatTime12h(f.timeFinish)
      && f.date.Some? && s.payload.date == FormatDate(f.date.value)
  {
    if !Complete(f) then Rejected
    else
      Posted(Payload(
        f.yourName,
        FormatDate(f.date.value),
        FormatTime12h(f.timeStart),
        FormatTime12h(f.timeFinish),
        f.emrName,
        f.sessionConducted))
  }

  /** One submit: the request sent (if any) and the form state afterwards. The
      form is cleared only when a request was sent and the endpoint reported
      success. */
  function HandleSubmit(f: Form, reply: Reply): (r: (Submission<Payload>, Form))
    ensures r.0 == Submit(f)
    ensures r.1 == Blank <==> (Complete(f) && reply == Succeeded) || f == Blank
    ensures r.1 != f ==> Complete(f) && reply == Succeeded
    ensures r.1.yourName == "" || r.1 == f
  {
    var s := Submit(f);
    if s.Posted? && reply == Succeeded then (s, Blank) else (s, f)
  }

  /** After a successful submit the form is blank again, so submitting it once
      more sends nothing. */
  lemma ResetFormIsRejected(f: Form)
    requires Complete(f)
    ensures var next := HandleSubmit(f, Succeeded).1;
      next.yourName == "" && next.date.None? && next.timeStart == ""
      && next.timeFinish == "" && next.emrName == "" && next.sessionConducted == ""
    ensures HandleSubmit(HandleSubmit(f, Succeeded).1, Succeeded) == (Rejected, Blank)
  {
  }
}
