/** The small part of JavaScript's string and number behaviour the dashboard
    relies on: ASCII case mapping, substring search, trimming, splitting on one
    character, `parseInt(s, 10)` and `Number(s)` restricted to decimal integers,
    and decimal rendering of integers in template literals. */
module Text {

  /** A JavaScript number as far as this model needs one: an integer or NaN. */
  datatype Num = Finite(value: int) | NaN

  // ---------------------------------------------------------------------------
  // Digits and decimal rendering

  predicate IsDigit(c: char) {
    '0' <= c <= '9'
  }

  predicate AllDigits(s: string) {
    forall i :: 0 <= i < |s| ==> IsDigit(s[i])
  }

  function DigitValue(c: char): (d: nat)
    requires IsDigit(c)
    ensures d < 10
  {
    c as int - '0' as int
  }

  function DigitChar(d: nat): (c: char)
    requires d < 10
    ensures IsDigit(c) && DigitValue(c) == d
  {
    ('0' as int + d) as char
  }

  /** Value of a decimal digit string, most significant digit first; "" is 0. */
  function DigitsValue(s: string): nat
    requires AllDigits(s)
    decreases |s|
  {
    if |s| == 0 then 0 else DigitsValue(s[..|s| - 1]) * 10 + DigitValue(s[|s| - 1])
  }

  /** Decimal rendering of a natural number, without leading zeros, as a
      template literal prints it. Reading it back gives the number again. */
  function ShowNat(n: nat): (s: string)
    ensures |s| >= 1 && AllDigits(s)
    ensures s[0] == '0' <==> n == 0
    ensures DigitsValue(s) == n
    decreases n
  {
    if n < 10 then [DigitChar(n)]
    else
      var p := ShowNat(n / 10);
      var s := p + [DigitChar(n % 10)];
      assert s[..|s| - 1] == p;
      s
  }

  /** Decimal rendering of an integer: a minus sign before negative values. */
  function ShowInt(n: int): string {
    if n < 0 then "-" + ShowNat(-n) else ShowNat(n)
  }

  /** Rendering of a number inside a template literal. */
  function ShowNum(n: Num): string {
    match n
    case Finite(v) => ShowInt(v)
    case NaN => "NaN"
  }

  /** The longest prefix of `s` made of decimal digits. */
  function LeadingDigits(s: string): (p: string)
    ensures AllDigits(p) && |p| <= |s| && p == s[..|p|]
    ensures |p| < |s| ==> !IsDigit(s[|p|])
    decreases |s|
  {
    if |s| > 0 && IsDigit(s[0]) then [s[0]] + LeadingDigits(s[1..]) else ""
  }

  /** Left-pads `s` with zeros to at least `width` characters. */
  function PadZeros(s: string, width: nat): (r: string)
    ensures |r| == if |s| >= width then |s| else width
    ensures r[|r| - |s|..] == s
    ensures forall i :: 0 <= i < |r| - |s| ==> r[i] == '0'
  {
    var zeros: string := seq(if |s| >= width then 0 else width - |s|, _ => '0');
    assert (zeros + s)[|zeros|..] == s;
    zeros + s
  }

  lemma {:induction false} LeadingZerosIgnored(z: nat, s: string)
    requires AllDigits(s)
    ensures AllDigits(seq(z, _ => '0') + s)
    ensures DigitsValue(seq(z, _ => '0') + s) == DigitsValue(s)
    decreases |s|
  {
    var zs: string := seq(z, _ => '0');
    var t := zs + s;
    assert AllDigits(t) by {
      forall i | 0 <= i < |t| ensures IsDigit(t[i]) {
        if i < z { assert t[i] == '0'; } else { assert t[i] == s[i - z]; }
      }
    }
    if |s| == 0 {
      assert t == zs;
      ZerosValue(z);
    } else {
      LeadingZerosIgnored(z, s[..|s| - 1]);
      assert t[..|t| - 1] == zs + s[..|s| - 1];
    }
  }

  lemma {:induction false} ZerosValue(z: nat)
    ensures AllDigits(seq(z, _ => '0'))
    ensures DigitsValue(seq(z, _ => '0')) == 0
  {
    if z > 0 {
      ZerosValue(z - 1);
      var zs: string := seq(z, _ => '0');
      assert zs[..z - 1] == seq(z - 1, _ => '0');
    }
  }

  /** A zero-padded number reads back as the number. */
  lemma PaddedValue(n: nat, width: nat)
    ensures var p := PadZeros(ShowNat(n), width);
      AllDigits(p) && DigitsValue(p) == n
  {
    var s := ShowNat(n);
    var p := PadZeros(s, width);
    var z := |p| - |s|;
    assert p == seq(z, _ => '0') + s;
    LeadingZerosIgnored(z, s);
  }

  /** A zero-padded number is a non-empty digit string that both `parseInt`
      and `Number` read back as the number. */
  lemma PaddedReads(n: nat, width: nat)
    ensures var p := PadZeros(ShowNat(n), width);
      p != "" && AllDigits(p) && NumberOf(p) == Finite(n)
  {
    PaddedValue(n, width);
    ParseDigits(PadZeros(ShowNat(n), width));
  }

  // ---------------------------------------------------------------------------
  // Whitespace and trimming

  /** JavaScript's WhiteSpace and LineTerminator characters, the set `trim`,
      `parseInt` and `Number` skip. */
  predicate IsSpace(c: char) {
    || c == ' ' || c == '\t' || c == '\n' || c == '\r'
    || c == '\U{000B}' || c == '\U{000C}' || c == '\U{00A0}' || c == '\U{1680}'
    || ('\U{2000}' <= c <= '\U{200A}')
    || c == '\U{2028}' || c == '\U{2029}' || c == '\U{202F}' || c == '\U{205F}'
    || c == '\U{3000}' || c == '\U{FEFF}'
  }

  /** `s.trimStart()`: the suffix of `s` that starts at its first non-space. */
  function TrimStart(s: string): (t: string)
    ensures |t| <= |s| && t == s[|s| - |t|..]
    ensures |t| > 0 ==> !IsSpace(t[0])
    ensures forall i :: 0 <= i < |s| - |t| ==> IsSpace(s[i])
    decreases |s|
  {
    if |s| > 0 && IsSpace(s[0]) then TrimStart(s[1..]) else s
  }

  /** `s.trimEnd()`: the prefix of `s` that ends at its last non-space. */
  function TrimEnd(s: string): (t: string)
    ensures |t| <= |s| && t == s[..|t|]
    ensures |t| > 0 ==> !IsSpace(t[|t| - 1])
    ensures forall i :: |t| <= i < |s| ==> IsSpace(s[i])
    decreases |s|
  {
    if |s| > 0 && IsSpace(s[|s| - 1]) then TrimEnd(s[..|s| - 1]) else s
  }

  /** `s.trim()`. */
  function Trim(s: string): string {
    TrimEnd(TrimStart(s))
  }

  /** A string that neither starts nor ends with a space is its own trim. */
  lemma TrimUnchanged(s: string)
    requires |s| > 0 ==> !IsSpace(s[0]) && !IsSpace(s[|s| - 1])
    ensures Trim(s) == s
  {
  }

  // ---------------------------------------------------------------------------
  // Integer parsing

  /** An optional sign followed by digits, as both `parseInt` and `Number` read
      it. `rest` is what follows the sign. */
  function SignOf(s: string): (r: (int, string))
    ensures r.0 == 1 || r.0 == -1
    ensures |r.1| <= |s|
  {
    if |s| > 0 && s[0] == '-' then (-1, s[1..])
    else if |s| > 0 && s[0] == '+' then (1, s[1..])
    else (1, s)
  }

  /** `parseInt(s, 10)`: skip leading whitespace, read an optional sign, then
      the longest run of digits; NaN when there is no digit there. */
  function ParseInt(s: string): (n: Num)
    ensures n.Finite? <==> |SignOf(TrimStart(s)).1| > 0 && IsDigit(SignOf(TrimStart(s)).1[0])
  {
    var (sign, rest) := SignOf(TrimStart(s));
    var ds := LeadingDigits(rest);
    if ds == "" then NaN else Finite(sign * DigitsValue(ds))
  }

  /** `Number(s)` for strings: surrounding whitespace is ignored, the empty
      string is 0, and an optional sign followed by digits is read as an
      integer. Anything else (decimals, exponents, hex, "Infinity") is NaN
      here. */
  function NumberOf(s: string): (n: Num)
    ensures Trim(s) == "" ==> n == Finite(0)
    ensures n.Finite? <==> Trim(s) == "" || (SignOf(Trim(s)).1 != "" && AllDigits(SignOf(Trim(s)).1))
  {
    var t := Trim(s);
    if t == "" then Finite(0)
    else
      var (sign, rest) := SignOf(t);
      if rest != "" && AllDigits(rest) then Finite(sign * DigitsValue(rest)) else NaN
  }

  /** A digit string reads as its value with either parser. */
  lemma ParseDigits(s: string)
    requires s != "" && AllDigits(s)
    ensures ParseInt(s) == Finite(DigitsValue(s))
    ensures NumberOf(s) == Finite(DigitsValue(s))
  {
    DigitNotSpace(s[0]);
    DigitNotSpace(s[|s| - 1]);
    assert TrimStart(s) == s;
    TrimUnchanged(s);
    assert SignOf(s) == (1, s);
    LeadingDigitsAll(s);
  }

  /** Rendering a natural number and reading it back with either parser gives
      the same number. */
  lemma ParseShowNat(n: nat)
    ensures ParseInt(ShowNat(n)) == Finite(n)
    ensures NumberOf(ShowNat(n)) == Finite(n)
  {
    ParseDigits(ShowNat(n));
  }

  /** `parseInt` stops at the first non-digit: "09:30" and "9abc" read as 9. */
  lemma ParseIntIgnoresTail(ds: string, tail: string)
    requires ds != "" && AllDigits(ds)
    requires tail == "" || !IsDigit(tail[0])
    ensures ParseInt(ds + tail) == Finite(DigitsValue(ds))
  {
    var s := ds + tail;
    DigitNotSpace(s[0]);
    assert TrimStart(s) == s;
    assert SignOf(s) == (1, s);
    LeadingDigitsPrefix(ds, tail);
  }

  lemma {:induction false} LeadingDigitsPrefix(ds: string, tail: string)
    requires AllDigits(ds)
    requires tail == "" || !IsDigit(tail[0])
    ensures LeadingDigits(ds + tail) == ds
    decreases |ds|
  {
    if ds == "" {
      assert ds + tail == tail;
    } else {
      assert (ds + tail)[1..] == ds[1..] + tail;
      LeadingDigitsPrefix(ds[1..], tail);
      assert [ds[0]] + ds[1..] == ds;
    }
  }

  lemma DigitNotSpace(c: char)
    requires IsDigit(c)
    ensures !IsSpace(c)
  {
  }

  lemma LeadingDigitsAll(s: string)
    requires AllDigits(s)
    ensures LeadingDigits(s) == s
  {
  }

  // ---------------------------------------------------------------------------
  // ASCII case mapping

  predicate IsUpper(c: char) {
    'A' <= c <= 'Z'
  }

  predicate IsLower(c: char) {
    'a' <= c <= 'z'
  }

  function LowerChar(c: char): (d: char)
    ensures !IsUpper(d)
    ensures IsUpper(c) ==> IsLower(d) && d as int == c as int + 32
    ensures !IsUpper(c) ==> d == c
  {
    if IsUpper(c) then (c as int + 32) as char else c
  }

  function UpperChar(c: char): (d: char)
    ensures !IsLower(d)
    ensures IsLower(c) ==> IsUpper(d) && d as int == c as int - 32
    ensures !IsLower(c) ==> d == c
  {
    if IsLower(c) then (c as int - 32) as char else c
  }

  /** `s.toLowerCase()` for ASCII letters; every other character is kept. */
  function Lower(s: string): (r: string)
    ensures |r| == |s|
    ensures forall i :: 0 <= i < |s| ==> r[i] == LowerChar(s[i])
  {
    seq(|s|, i requires 0 <= i < |s| => LowerChar(s[i]))
  }

  predicate HasUpper(s: string) {
    exists i :: 0 <= i < |s| && IsUpper(s[i])
  }

  /** A lowercased string contains no uppercase letter, so it never equals a
      string that does. */
  lemma LowerHasNoUpper(s: string, e: string)
    requires HasUpper(e)
    ensures Lower(s) != e
  {
    var i :| 0 <= i < |e| && IsUpper(e[i]);
    if |Lower(s)| == |e| {
      assert Lower(s)[i] != e[i];
    }
  }

  /** `key.charAt(0).toUpperCase() + key.slice(1)`: only the first character
      changes, and the empty key stays empty. */
  function Capitalize(s: string): (r: string)
    ensures |r| == |s|
    ensures |s| > 0 ==> r[0] == UpperChar(s[0]) && r[1..] == s[1..]
  {
    if |s| == 0 then "" else [UpperChar(s[0])] + s[1..]
  }

  // ---------------------------------------------------------------------------
  // Substrings

  predicate IsPrefix(p: string, s: string) {
    |p| <= |s| && s[..|p|] == p
  }

  /** `s.includes(t)`: some position of `s` starts a copy of `t`. */
  predicate Contains(s: string, t: string)
    decreases |s|
  {
    IsPrefix(t, s) || (|s| > 0 && Contains(s[1..], t))
  }

  /** A copy of `t` starts at position `i` of `s`. */
  predicate OccursAt(s: string, t: string, i: int) {
    0 <= i <= |s| - |t| && s[i..i + |t|] == t
  }

  /** `Contains` agrees with the positional definition of a substring. */
  lemma {:induction false} ContainsAt(s: string, t: string)
    ensures Contains(s, t) <==> exists i :: OccursAt(s, t, i)
    decreases |s|
  {
    if IsPrefix(t, s) {
      assert OccursAt(s, t, 0);
    } else if |s| > 0 {
      ContainsAt(s[1..], t);
      if Contains(s[1..], t) {
        var i :| OccursAt(s[1..], t, i);
        assert s[i + 1..i + 1 + |t|] == s[1..][i..i + |t|];
        assert OccursAt(s, t, i + 1);
      }
      if exists i :: OccursAt(s, t, i) {
        var i :| OccursAt(s, t, i);
        assert i != 0;
        assert s[1..][i - 1..i - 1 + |t|] == s[i..i + |t|];
        assert OccursAt(s[1..], t, i - 1);
      }
    } else {
      assert forall i :: !OccursAt(s, t, i);
    }
  }

  /** Every string includes the empty string. */
  lemma ContainsEmpty(s: string)
    ensures Contains(s, "")
  {
  }

  // ---------------------------------------------------------------------------
  // Splitting on one character

  /** `s.split(sep)` for a one-character separator: the pieces between
      separators, always at least one. */
  function Split(s: string, sep: char): (parts: seq<string>)
    ensures |parts| >= 1
    ensures forall i :: 0 <= i < |parts| ==> sep !in parts[i]
    decreases |s|
  {
    if |s| == 0 then [""]
    else if s[0] == sep then [""] + Split(s[1..], sep)
    else
      var rest := Split(s[1..], sep);
      [[s[0]] + rest[0]] + rest[1..]
  }

  /** `parts.join(sep)`. */
  function Join(parts: seq<string>, sep: char): string
    requires |parts| >= 1
    decreases |parts|
  {
    if |parts| == 1 then parts[0] else parts[0] + [sep] + Join(parts[1..], sep)
  }

  /** Splitting loses nothing: joining the pieces back gives the input. */
  lemma {:induction false} JoinSplit(s: string, sep: char)
    ensures Join(Split(s, sep), sep) == s
    decreases |s|
  {
    if |s| == 0 {
    } else if s[0] == sep {
      JoinSplit(s[1..], sep);
      assert [sep] + s[1..] == s;
    } else {
      var rest := Split(s[1..], sep);
      JoinSplit(s[1..], sep);
      if |rest| == 1 {
        assert [s[0]] + rest[0] == s;
      } else {
        assert Join(rest, sep) == rest[0] + [sep] + Join(rest[1..], sep);
        assert Join([[s[0]] + rest[0]] + rest[1..], sep)
            == [s[0]] + rest[0] + [sep] + Join(rest[1..], sep);
        assert [s[0]] + s[1..] == s;
      }
    }
  }

  /** A string without the separator is a single piece. */
  lemma {:induction false} SplitNoSep(s: string, sep: char)
    requires sep !in s
    ensures Split(s, sep) == [s]
    decreases |s|
  {
    if |s| > 0 {
      SplitNoSep(s[1..], sep);
      assert [s[0]] + s[1..] == s;
    }
  }

  /** A separator-free head followed by the separator splits off as the first
      piece. */
  lemma {:induction false} SplitCons(a: string, sep: char, b: string)
    requires sep !in a
    ensures Split(a + [sep] + b, sep) == [a] + Split(b, sep)
    decreases |a|
  {
    var s := a + [sep] + b;
    if |a| == 0 {
      assert s[0] == sep && s[1..] == b;
    } else {
      assert s[0] == a[0] && s[1..] == a[1..] + [sep] + b;
      SplitCons(a[1..], sep, b);
      assert [a[0]] + a[1..] == a;
    }
  }

  /** Three separator-free pieces joined by the separator split back apart. */
  lemma SplitThree(a: string, b: string, c: string, sep: char)
    requires sep !in a && sep !in b && sep !in c
    ensures Split(a + [sep] + b + [sep] + c, sep) == [a, b, c]
  {
    assert a + [sep] + b + [sep] + c == a + [sep] + (b + [sep] + c);
    SplitCons(a, sep, b + [sep] + c);
    SplitCons(b, sep, c);
    SplitNoSep(c, sep);
  }

  /** A digit string holds no character other than digits. */
  lemma DigitsExclude(s: string, c: char)
    requires AllDigits(s) && !IsDigit(c)
    ensures c !in s
  {
    forall i | 0 <= i < |s| ensures s[i] != c {
      assert IsDigit(s[i]);
    }
  }
}
