/** `_safe_dt`: defensive parsing of stored date-time text. It tries
    `datetime.strptime(s, "%Y-%m-%d %H:%M:%S")`, then
    `datetime.strptime(s, "%Y-%m-%d")`, then `datetime.fromisoformat(s)`,
    and yields an instant or nothing, never an error. */
module Timestamps {
  import opened Records
  import opened Calendar

  predicate IsDigit(c: char) {
    '0' <= c <= '9'
  }

  /** Characters matched by `\s` in a Python `str` regex (`str.isspace`). */
  predicate IsSpace(c: char) {
    || c == ' ' || ('\t' <= c <= '\r') || ('\U{1c}' <= c <= '\U{1f}')
    || c == '\U{85}' || c == '\U{a0}' || c == '\U{1680}' || ('\U{2000}' <= c <= '\U{200a}')
    || c == '\U{2028}' || c == '\U{2029}' || c == '\U{202f}' || c == '\U{205f}' || c == '\U{3000}'
  }

  function DigitValue(c: char): (v: nat)
    requires IsDigit(c)
    ensures v <= 9
  {
    (c as int - '0' as int) as nat
  }

  predicate AllDigits(s: string) {
    forall k :: 0 <= k < |s| ==> IsDigit(s[k])
  }

  /** The decimal value of a string of digits. */
  function Number(s: string): (v: nat)
    requires AllDigits(s)
  {
    if |s| == 0 then 0 else Number(s[..|s| - 1]) * 10 + DigitValue(s[|s| - 1])
  }

  /** Length of the run of digits that starts at `i`. */
  function DigitRun(s: string, i: nat): (n: nat)
    requires i <= |s|
    ensures i + n <= |s|
    ensures forall k :: i <= k < i + n ==> IsDigit(s[k])
    ensures i + n < |s| ==> !IsDigit(s[i + n])
    decreases |s| - i
  {
    if i < |s| && IsDigit(s[i]) then 1 + DigitRun(s, i + 1) else 0
  }

  /** Length of the run of `\s` characters that starts at `i`. */
  function SpaceRun(s: string, i: nat): (n: nat)
    requires i <= |s|
    ensures i + n <= |s|
    ensures forall k :: i <= k < i + n ==> IsSpace(s[k])
    ensures i + n < |s| ==> !IsSpace(s[i + n])
    decreases |s| - i
  {
    if i < |s| && IsSpace(s[i]) then 1 + SpaceRun(s, i + 1) else 0
  }

  /** A numeric strptime field of `minLen` to `maxLen` digits whose value
      lies in `lo..hi`, starting at `i`; yields the value and the index
      after the field. Every field is followed by a non-digit or the end,
      so the regex alternatives of CPython's `_strptime` (`1[0-2]|0[1-9]|[1-9]`
      for `%m`, `2[0-3]|[0-1]\d|\d` for `%H`, ...) accept exactly the
      digit runs of the right length and range. */
  function NumberField(s: string, i: nat, minLen: nat, maxLen: nat, lo: int, hi: int): (r: Option<(int, nat)>)
    requires i <= |s|
    ensures r.Some? ==> lo <= r.value.0 <= hi && i + minLen <= r.value.1 <= i + maxLen && r.value.1 <= |s|
  {
    var n := DigitRun(s, i);
    if minLen <= n <= maxLen && 1 <= n then
      var v := Number(s[i..i + n]);
      if lo <= v <= hi then Some((v, i + n)) else None
    else None
  }

  /** `%d`: `3[01]|[12]\d|0[1-9]|[1-9]| [1-9]` — one or two digits in
      1..31, or a space and one digit 1..9. */
  function DayField(s: string, i: nat): (r: Option<(int, nat)>)
    requires i <= |s|
    ensures r.Some? ==> 1 <= r.value.0 <= 31 && i < r.value.1 <= |s|
  {
    if i + 1 < |s| && s[i] == ' ' && '1' <= s[i + 1] <= '9' then Some((DigitValue(s[i + 1]), i + 2))
    else NumberField(s, i, 1, 2, 1, 31)
  }

  /** A literal character at `i`; yields the index after it. */
  function Literal(s: string, i: nat, c: char): (r: Option<nat>)
    requires i <= |s|
    ensures r.Some? ==> r.value == i + 1 <= |s|
  {
    if i < |s| && s[i] == c then Some(i + 1) else None
  }

  /** The `datetime` constructor: out-of-range fields raise `ValueError`. */
  function Construct(t: DateTime): (r: Option<DateTime>)
    ensures r.Some? <==> ValidDateTime(t)
    ensures r.Some? ==> r.value == t
  {
    if ValidDateTime(t) then Some(t) else None
  }

  datatype Format =
    | DateTimeFormat  // "%Y-%m-%d %H:%M:%S"
    | DateFormat      // "%Y-%m-%d"

  /** The two formats in the order `_safe_dt` tries them. */
  const Formats: seq<Format> := [DateTimeFormat, DateFormat]

  /** `%Y-%m-%d` at the start of `s`: year, month, day and the index after the day. */
  function DatePart(s: string): (r: Option<(int, int, int, nat)>)
    ensures r.Some? ==> r.value.3 <= |s|
  {
    var y :- NumberField(s, 0, 4, 4, 0, 9999);
    var i1 :- Literal(s, y.1, '-');
    var m :- NumberField(s, i1, 1, 2, 1, 12);
    var i2 :- Literal(s, m.1, '-');
    var d :- DayField(s, i2);
    Some((y.0, m.0, d.0, d.1))
  }

  /** `\s+%H:%M:%S` from `i` to the end of `s`: hour, minute, second. */
  function TimePart(s: string, i: nat): (r: Option<(int, int, int)>)
    requires i <= |s|
  {
    var w := SpaceRun(s, i);
    if w == 0 then None
    else
      var h :- NumberField(s, i + w, 1, 2, 0, 23);
      var i3 :- Literal(s, h.1, ':');
      var mi :- NumberField(s, i3, 1, 2, 0, 59);
      var i4 :- Literal(s, mi.1, ':');
      var sec :- NumberField(s, i4, 1, 2, 0, 61);
      if sec.1 == |s| then Some((h.0, mi.0, sec.0)) else None
  }

  /** `datetime.strptime(s, fmt)`: the whole of `s` must match the format
      (a space in the format matches one or more `\s`), then the result
      must be a valid datetime. */
  function Strptime(s: string, fmt: Format): (r: Option<DateTime>)
    ensures r.Some? ==> ValidDateTime(r.value)
  {
    var dp :- DatePart(s);
    var (y, m, d, i) := dp;
    match fmt
    case DateFormat =>
      if i == |s| then Construct(DateTime(y, m, d, 0, 0, 0)) else None
    case DateTimeFormat =>
      var tp :- TimePart(s, i);
      Construct(DateTime(y, m, d, tp.0, tp.1, tp.2))
  }

  /** Two fixed digits at `i`. */
  function TwoDigits(s: string, i: nat): (r: Option<int>)
    ensures r.Some? ==> 0 <= r.value <= 99
  {
    if i + 2 <= |s| && IsDigit(s[i]) && IsDigit(s[i + 1]) then Some(DigitValue(s[i]) * 10 + DigitValue(s[i + 1]))
    else None
  }

  /** The subset of `datetime.fromisoformat` that is modelled:
      `YYYY-MM-DD`, optionally followed by any one separator character and
      `HH`, `HH:MM` or `HH:MM:SS`, all fields with fixed width. */
  function IsoFallback(s: string): (r: Option<DateTime>)
    ensures r.Some? ==> ValidDateTime(r.value)
  {
    if |s| < 10 || !AllDigits(s[..4]) || s[4] != '-' || s[7] != '-' then None
    else
      var mo :- TwoDigits(s, 5);
      var d :- TwoDigits(s, 8);
      var y := Number(s[..4]);
      if |s| == 10 then Construct(DateTime(y, mo, d, 0, 0, 0))
      else
        var h :- TwoDigits(s, 11);
        if |s| == 13 then Construct(DateTime(y, mo, d, h, 0, 0))
        else if |s| < 16 || s[13] != ':' then None
        else
          var mi :- TwoDigits(s, 14);
          if |s| == 16 then Construct(DateTime(y, mo, d, h, mi, 0))
          else if |s| != 19 || s[16] != ':' then None
          else
            var sec :- TwoDigits(s, 17);
            Construct(DateTime(y, mo, d, h, mi, sec))
  }

  /** The datetime `_safe_dt` yields for a non-empty string: the first of
      the three parsers, in order, that accepts it. */
  function ParseDateTime(s: string): (r: Option<DateTime>)
    ensures r.Some? ==> ValidDateTime(r.value)
    ensures Strptime(s, DateTimeFormat).Some? ==> r == Strptime(s, DateTimeFormat)
    ensures Strptime(s, DateTimeFormat).None? && Strptime(s, DateFormat).Some? ==> r == Strptime(s, DateFormat)
    ensures Strptime(s, DateTimeFormat).None? && Strptime(s, DateFormat).None? ==> r == IsoFallback(s)
  {
    var first := Strptime(s, DateTimeFormat);
    if first.Some? then first
    else
      var second := Strptime(s, DateFormat);
      if second.Some? then second else IsoFallback(s)
  }

  /** `_safe_dt` as a value: `None` for NULL and for `""`, otherwise the
      instant of the first parse that succeeds. */
  function ParseTimestamp(s: Option<string>): (r: Option<int>)
    ensures r.Some? <==> Truthy(s) && ParseDateTime(s.value).Some?
    ensures r.Some? ==> r.value >= SecondsPerDay
  {
    if !Truthy(s) then None
    else
      match ParseDateTime(s.value)
      case Some(t) => Some(ToInstant(t))
      case None => None
  }

  /** `_safe_dt` as the source writes it: an early return on a falsy
      argument, a loop over the two strptime formats that returns the first
      success, then the ISO fallback. */
  method SafeDt(s: Option<string>) returns (r: Option<int>)
    ensures r == ParseTimestamp(s)
  {
    if !Truthy(s) {
      return None;
    }
    var text := s.value;
    assert |Formats| == 2 && Formats[0] == DateTimeFormat && Formats[1] == DateFormat;
    for i := 0 to |Formats|
      invariant forall j :: 0 <= j < i ==> Strptime(text, Formats[j]).None?
    {
      var parsed := Strptime(text, Formats[i]);
      if parsed.Some? {
        assert ParseDateTime(text) == parsed;
        return Some(ToInstant(parsed.value));
      }
    }
    var iso := IsoFallback(text);
    assert ParseDateTime(text) == iso;
    if iso.Some? {
      r := Some(ToInstant(iso.value));
    } else {
      r := None;
    }
  }

  // ----- formatting, the inverse of parsing -----

  function DigitChar(v: int): (c: char)
    requires 0 <= v <= 9
    ensures IsDigit(c) && DigitValue(c) == v
  {
    ('0' as int + v) as char
  }

  function Pad2(v: int): (s: string)
    requires 0 <= v <= 99
    ensures |s| == 2 && AllDigits(s)
  {
    [DigitChar(v / 10), DigitChar(v % 10)]
  }

  function Pad4(v: int): (s: string)
    requires 0 <= v <= 9999
    ensures |s| == 4 && AllDigits(s)
  {
    [DigitChar(v / 1000), DigitChar(v / 100 % 10), DigitChar(v / 10 % 10), DigitChar(v % 10)]
  }

  /** `strftime("%Y-%m-%d")`. */
  function FormatDate(t: DateTime): (s: string)
    requires ValidDateTime(t)
    ensures |s| == 10
  {
    Pad4(t.year) + "-" + Pad2(t.month) + "-" + Pad2(t.day)
  }

  /** `strftime("%Y-%m-%d %H:%M:%S")`, also SQLite's `CURRENT_TIMESTAMP` text. */
  function FormatDateTime(t: DateTime): (s: string)
    requires ValidDateTime(t)
    ensures |s| == 19
  {
    FormatDate(t) + " " + Pad2(t.hour) + ":" + Pad2(t.minute) + ":" + Pad2(t.second)
  }

  lemma {:induction false} NumberPad2(v: int)
    requires 0 <= v <= 99
    ensures Number(Pad2(v)) == v
  {
    var s := Pad2(v);
    assert s[..1][..0] == [];
    assert Number(s[..1]) == DigitValue(s[0]);
    assert s[..|s| - 1] == s[..1];
  }

  lemma {:induction false} NumberPad4(v: int)
    requires 0 <= v <= 9999
    ensures Number(Pad4(v)) == v
  {
    var s := Pad4(v);
    assert s[..1][..0] == [];
    assert s[..2][..1] == s[..1];
    assert s[..3][..2] == s[..2];
    assert s[..4][..3] == s[..3];
    assert s[..4] == s;
    DigitStep(v / 100);
    DigitStep(v / 10);
    DigitStep(v);
    assert v / 100 / 10 == v / 1000;
    assert v / 10 / 10 == v / 100;
    assert Number(s[..1]) == v / 1000;
    assert Number(s[..2]) == v / 100;
    assert Number(s[..3]) == v / 10;
  }

  /** The last decimal digit split off. */
  lemma DigitStep(x: int)
    ensures (x / 10) * 10 + x % 10 == x
  {
  }

  /** A run of exactly `n` digits at `i`, bounded by a non-digit or the end. */
  lemma {:induction false} DigitRunExact(s: string, i: nat, n: nat)
    requires i + n <= |s|
    requires forall k :: i <= k < i + n ==> IsDigit(s[k])
    requires i + n == |s| || !IsDigit(s[i + n])
    ensures DigitRun(s, i) == n
    decreases n
  {
    if n > 0 {
      assert IsDigit(s[i]);
      DigitRunExact(s, i + 1, n - 1);
    }
  }

  /** A zero-padded field is read back by `NumberField`. */
  lemma {:induction false} PaddedField(s: string, i: nat, v: int, lo: int, hi: int)
    requires 0 <= lo <= v <= hi <= 99
    requires i + 2 <= |s| && s[i..i + 2] == Pad2(v)
    requires i + 2 == |s| || !IsDigit(s[i + 2])
    ensures NumberField(s, i, 1, 2, lo, hi) == Some((v, i + 2))
  {
    assert s[i] == s[i..i + 2][0] && s[i + 1] == s[i..i + 2][1];
    DigitRunExact(s, i, 2);
    NumberPad2(v);
  }

  lemma {:induction false} DatePartOfFormat(t: DateTime, s: string)
    requires ValidDateTime(t)
    requires |s| >= 10 && s[..10] == FormatDate(t)
    requires |s| == 10 || !IsDigit(s[10])
    ensures DatePart(s) == Some((t.year, t.month, t.day, 10))
  {
    var f := FormatDate(t);
    assert f[..4] == Pad4(t.year) && f[4] == '-' && f[5..7] == Pad2(t.month) && f[7] == '-' && f[8..10] == Pad2(t.day);
    assert s[..4] == f[..4] && s[4] == '-' && s[5..7] == f[5..7] && s[7] == '-' && s[8..10] == f[8..10];
    assert s[0..4] == s[..4];
    DigitRunExact(s, 0, 4);
    NumberPad4(t.year);
    PaddedField(s, 5, t.month, 1, 12);
    assert s[8] == Pad2(t.day)[0];
    PaddedField(s, 8, t.day, 1, 31);
  }

  lemma {:induction false} TimePartOfFormat(t: DateTime, s: string)
    requires ValidDateTime(t)
    requires |s| == 19 && s[10] == ' ' && s[13] == ':' && s[16] == ':'
    requires s[11..13] == Pad2(t.hour) && s[14..16] == Pad2(t.minute) && s[17..19] == Pad2(t.second)
    ensures TimePart(s, 10) == Some((t.hour, t.minute, t.second))
  {
    assert !IsSpace(s[11]) by { assert s[11] == Pad2(t.hour)[0]; }
    assert SpaceRun(s, 10) == 1;
    PaddedField(s, 11, t.hour, 0, 23);
    PaddedField(s, 14, t.minute, 0, 59);
    PaddedField(s, 17, t.second, 0, 61);
  }

  lemma StrptimeOfParts(s: string, t: DateTime)
    requires ValidDateTime(t)
    requires DatePart(s) == Some((t.year, t.month, t.day, 10))
    requires TimePart(s, 10) == Some((t.hour, t.minute, t.second))
    ensures Strptime(s, DateTimeFormat) == Some(t)
  {
  }

  /** Round trip: the text `strftime("%Y-%m-%d %H:%M:%S")` writes parses back
      to the same instant. */
  lemma {:induction false} FormatDateTimeRoundTrip(t: DateTime)
    requires ValidDateTime(t)
    ensures Strptime(FormatDateTime(t), DateTimeFormat) == Some(t)
    ensures ParseTimestamp(Some(FormatDateTime(t))) == Some(ToInstant(t))
  {
    var s := FormatDateTime(t);
    DateTimeLayout(t);
    DatePartOfFormat(t, s);
    TimePartOfFormat(t, s);
    StrptimeOfParts(s, t);
    assert ParseDateTime(s) == Some(t);
  }

  /** Where `FormatDateTime` puts each field. */
  lemma DateTimeLayout(t: DateTime)
    requires ValidDateTime(t)
    ensures var s := FormatDateTime(t);
      && s[..10] == FormatDate(t) && s[10] == ' ' && s[13] == ':' && s[16] == ':'
      && s[11..13] == Pad2(t.hour) && s[14..16] == Pad2(t.minute) && s[17..19] == Pad2(t.second)
  {
  }

  /** Round trip for the date-only form, which parses to midnight. */
  lemma {:induction false} FormatDateRoundTrip(t: DateTime)
    requires ValidDateTime(t)
    ensures Strptime(FormatDate(t), DateTimeFormat) == None
    ensures ParseTimestamp(Some(FormatDate(t))) == Some(ToInstant(t.(hour := 0, minute := 0, second := 0)))
  {
    var s := FormatDate(t);
    assert s[..10] == s;
    DatePartOfFormat(t, s);
  }

  /** `"YYYY-MM-DD"` and `"YYYY-MM-DD 00:00:00"` are the same instant. */
  lemma DateOnlyIsMidnight(t: DateTime)
    requires ValidDateTime(t)
    ensures ParseTimestamp(Some(FormatDate(t)))
         == ParseTimestamp(Some(FormatDateTime(t.(hour := 0, minute := 0, second := 0))))
  {
    var m := t.(hour := 0, minute := 0, second := 0);
    FormatDateRoundTrip(t);
    FormatDateTimeRoundTrip(m);
  }

  /** A date-time and its own date fall on the same day: the date-only
      text parses to that day's midnight. */
  lemma SameDayAsDate(t: DateTime)
    requires ValidDateTime(t)
    ensures ParseTimestamp(Some(FormatDate(t))).Some? && ParseTimestamp(Some(FormatDateTime(t))).Some?
    ensures ParseTimestamp(Some(FormatDateTime(t))).value
         == ParseTimestamp(Some(FormatDate(t))).value + SecondOfDay(t)
  {
    FormatDateRoundTrip(t);
    FormatDateTimeRoundTrip(t);
  }

  lemma ExampleTexts()
    ensures FormatDate(DateTime(2024, 1, 10, 0, 0, 0)) == "2024-01-10"
    ensures FormatDateTime(DateTime(2024, 1, 10, 0, 0, 0)) == "2024-01-10 00:00:00"
    ensures FormatDateTime(DateTime(2024, 1, 10, 8, 0, 0)) == "2024-01-10 08:00:00"
  {
  }

  /** The examples: `"2024-01-10"` is `"2024-01-10 00:00:00"`, and
      `"2024-01-10 08:00:00"` is eight hours later on the same day. */
  lemma ExampleTimestamps()
    ensures ParseTimestamp(Some("2024-01-10")) == ParseTimestamp(Some("2024-01-10 00:00:00"))
    ensures ParseTimestamp(Some("2024-01-10")).Some? && ParseTimestamp(Some("2024-01-10 08:00:00")).Some?
    ensures ParseTimestamp(Some("2024-01-10 08:00:00")).value
         == ParseTimestamp(Some("2024-01-10")).value + 8 * 3600
  {
    var t := DateTime(2024, 1, 10, 0, 0, 0);
    var t8 := DateTime(2024, 1, 10, 8, 0, 0);
    assert FormatDate(t8) == "2024-01-10";
    ExampleTexts();
    DateOnlyIsMidnight(t);
    SameDayAsDate(t8);
  }

  /** Null, empty and garbage text yield nothing. */
  lemma RejectedTimestamps()
    ensures ParseTimestamp(None) == None
    ensures ParseTimestamp(Some("")) == None
    ensures ParseTimestamp(Some("not-a-date")) == None
  {
    assert DigitRun("not-a-date", 0) == 0;
  }
}
