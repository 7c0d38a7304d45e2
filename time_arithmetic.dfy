/** The time arithmetic of the log-hours handler (server.js:82-92):
    "HH:MM" strings become minutes since midnight, the break field becomes
    whole minutes, and the net worked time is the difference in hours. */
module TimeArithmetic {
  import opened Wrappers

  // ---------------------------------------------------------------------
  // String.prototype.split with a one-character separator
  // ---------------------------------------------------------------------

  /** Glues the parts back together with `sep` between them. */
  function Join(parts: seq<string>, sep: char): string
    requires |parts| >= 1
  {
    if |parts| == 1 then parts[0] else parts[0] + [sep] + Join(parts[1..], sep)
  }

  /** `s.split(sep)`: the maximal `sep`-free pieces of `s`, in order.
      Like JavaScript, the empty string splits into one empty piece and a
      separator at either end gives an empty piece there. */
  function Split(s: string, sep: char): (parts: seq<string>)
    ensures |parts| >= 1
  {
    if s == [] then [""]
    else
      var rest := Split(s[1..], sep);
      if s[0] == sep then [""] + rest
      else [[s[0]] + rest[0]] + rest[1..]
  }

  /** The pieces contain no separator and join back to the input. */
  lemma {:induction false} SplitJoin(s: string, sep: char)
    ensures forall i :: 0 <= i < |Split(s, sep)| ==> sep !in Split(s, sep)[i]
    ensures Join(Split(s, sep), sep) == s
  {
    if s != [] {
      SplitJoin(s[1..], sep);
      var rest := Split(s[1..], sep);
      if s[0] == sep {
        assert Split(s, sep) == [""] + rest;
        assert ([""] + rest)[1..] == rest;
      } else {
        var parts := Split(s, sep);
        assert parts == [[s[0]] + rest[0]] + rest[1..];
        assert forall i :: 1 <= i < |parts| ==> parts[i] == rest[i];
        if |rest| > 1 {
          assert parts[1..] == rest[1..];
          assert Join(rest, sep) == rest[0] + [sep] + Join(rest[1..], sep);
        }
        assert s == [s[0]] + s[1..];
      }
    }
  }

  /** A separator-free string is a single piece. */
  lemma {:induction false} SplitNoSeparator(a: string, sep: char)
    requires sep !in a
    ensures Split(a, sep) == [a]
  {
    if a != [] {
      assert a[0] in a;
      SplitNoSeparator(a[1..], sep);
      assert [a[0]] + a[1..] == a;
    }
  }

  /** A separator-free prefix becomes the first piece; the rest is split on. */
  lemma {:induction false} SplitCons(a: string, sep: char, b: string)
    requires sep !in a
    ensures Split(a + [sep] + b, sep) == [a] + Split(b, sep)
  {
    if a == [] {
      assert a + [sep] + b == [sep] + b;
      assert ([sep] + b)[1..] == b;
    } else {
      var s := a + [sep] + b;
      assert s[0] == a[0] && s[1..] == a[1..] + [sep] + b;
      SplitCons(a[1..], sep, b);
      assert [a[0]] + a[1..] == a;
    }
  }

  // ---------------------------------------------------------------------
  // Number() on a piece, and parseTime
  // ---------------------------------------------------------------------

  predicate IsDigit(c: char) { '0' <= c <= '9' }

  predicate AllDigits(s: string) { forall i :: 0 <= i < |s| ==> IsDigit(s[i]) }

  /** The decimal value of a digit string (the empty string is 0). */
  function DigitsValue(s: string): nat
    requires AllDigits(s)
  {
    if s == [] then 0
    else 10 * DigitsValue(s[..|s| - 1]) + (s[|s| - 1] as int - '0' as int)
  }

  /** `Number(piece)`: a digit string gives its value (`Number("") === 0`);
      anything else is `NaN`, here `None`. */
  function JsNumber(s: string): Option<nat>
  {
    if AllDigits(s) then Some(DigitsValue(s)) else None
  }

  /** `parseTime`: split on ':', read the first two pieces as numbers and
      return `hours * 60 + minutes`. A missing minutes piece or a piece
      that is not a number makes the result `NaN` (`None`). Pieces after
      the second are ignored, and no range is checked. */
  function ParseTime(timeStr: string): Option<int>
  {
    var parts := Split(timeStr, ':');
    if |parts| < 2 then None
    else
      var hours, minutes := JsNumber(parts[0]), JsNumber(parts[1]);
      if hours.None? || minutes.None? then None
      else Some(hours.value * 60 + minutes.value)
  }

  /** Digit strings never contain the separator. */
  lemma DigitsHaveNoColon(s: string)
    requires AllDigits(s)
    ensures ':' !in s
  {
  }

  /** Two separator-free strings joined by one separator split back into
      exactly those two pieces. */
  lemma SplitTwo(a: string, sep: char, b: string)
    requires sep !in a && sep !in b
    ensures Split(a + [sep] + b, sep) == [a, b]
  {
    SplitCons(a, sep, b);
    SplitNoSeparator(b, sep);
  }

  /** Two digit strings joined by ':' split into those two pieces. */
  lemma SplitDigitPair(hh: string, mm: string)
    requires AllDigits(hh) && AllDigits(mm)
    ensures Split(hh + [':'] + mm, ':') == [hh, mm]
  {
    DigitsHaveNoColon(hh);
    DigitsHaveNoColon(mm);
    SplitTwo(hh, ':', mm);
  }

  /** parseTime reads the two pieces a string splits into. */
  lemma ParseTimeOfPieces(hh: string, mm: string)
    requires AllDigits(hh) && AllDigits(mm)
    requires Split(hh + [':'] + mm, ':') == [hh, mm]
    ensures ParseTime(hh + ":" + mm) == Some(DigitsValue(hh) * 60 + DigitsValue(mm))
  {
    assert hh + ":" + mm == hh + [':'] + mm;
  }

  /** For a well-formed "HH:MM" string the result is hours * 60 + minutes. */
  lemma ParseTimeWellFormed(hh: string, mm: string)
    requires AllDigits(hh) && AllDigits(mm)
    ensures ParseTime(hh + ":" + mm) == Some(DigitsValue(hh) * 60 + DigitsValue(mm))
  {
    SplitDigitPair(hh, mm);
    ParseTimeOfPieces(hh, mm);
  }

  /** An "HH:MM:SS" string parses like "HH:MM": the seconds are dropped. */
  lemma ParseTimeIgnoresSeconds(hh: string, mm: string, ss: string)
    requires AllDigits(hh) && AllDigits(mm) && AllDigits(ss)
    ensures ParseTime(hh + ":" + mm + ":" + ss) == ParseTime(hh + ":" + mm)
  {
    DigitsHaveNoColon(hh);
    DigitsHaveNoColon(mm);
    DigitsHaveNoColon(ss);
    assert hh + ":" + mm + ":" + ss == hh + [':'] + (mm + [':'] + ss);
    SplitCons(hh, ':', mm + [':'] + ss);
    SplitCons(mm, ':', ss);
    SplitNoSeparator(ss, ':');
    var parts := Split(hh + ":" + mm + ":" + ss, ':');
    assert parts == [hh, mm, ss];
    assert JsNumber(parts[0]) == Some(DigitsValue(hh));
    assert JsNumber(parts[1]) == Some(DigitsValue(mm));
    ParseTimeWellFormed(hh, mm);
  }

  /** A string without ':' has no minutes part, so parseTime yields NaN. */
  lemma ParseTimeWithoutColon(s: string)
    requires ':' !in s
    ensures ParseTime(s) == None
  {
    SplitNoSeparator(s, ':');
  }

  // ---------------------------------------------------------------------
  // Formatting "HH:MM", the inverse of parseTime on clock times
  // ---------------------------------------------------------------------

  function DigitChar(d: nat): (c: char)
    requires d < 10
    ensures IsDigit(c) && c as int - '0' as int == d
  {
    (('0' as int) + d) as char
  }

  /** Two-digit, zero-padded decimal text of `n`. */
  function Pad2(n: nat): (s: string)
    requires n < 100
    ensures |s| == 2 && AllDigits(s)
  {
    [DigitChar(n / 10), DigitChar(n % 10)]
  }

  lemma Pad2Value(n: nat)
    requires n < 100
    ensures DigitsValue(Pad2(n)) == n
  {
    var s := Pad2(n);
    var hi := [DigitChar(n / 10)];
    assert s[..|s| - 1] == hi;
    assert hi[..|hi| - 1] == [];
    assert DigitsValue(hi) == n / 10;
  }

  /** The "HH:MM" text a browser time input sends for hour `h`, minute `m`. */
  function FormatTime(h: nat, m: nat): string
    requires h < 24 && m < 60
  {
    Pad2(h) + ":" + Pad2(m)
  }

  /** Round trip: parsing a formatted clock time gives its minutes since
      midnight, which lies within one day (0 to 1439). */
  lemma ParseFormatTime(h: nat, m: nat)
    requires h < 24 && m < 60
    ensures ParseTime(FormatTime(h, m)) == Some(h * 60 + m)
    ensures 0 <= h * 60 + m < 24 * 60
  {
    Pad2Value(h);
    Pad2Value(m);
    ParseTimeWellFormed(Pad2(h), Pad2(m));
  }

  // ---------------------------------------------------------------------
  // parseInt(breakTime, 10) || 0
  // ---------------------------------------------------------------------

  predicate IsSpace(c: char) { c == ' ' || c == '\t' || c == '\n' || c == '\r' }

  /** Drops leading white space, as parseInt does. */
  function TrimStart(s: string): (t: string)
    ensures |t| <= |s| && t == s[|s| - |t|..]
    ensures t == [] || !IsSpace(t[0])
    ensures forall i :: 0 <= i < |s| - |t| ==> IsSpace(s[i])
  {
    if s != [] && IsSpace(s[0]) then TrimStart(s[1..]) else s
  }

  /** The longest prefix of `s` made of decimal digits. */
  function DigitPrefix(s: string): (d: string)
    ensures AllDigits(d) && d <= s
    ensures |d| < |s| ==> !IsDigit(s[|d|])
  {
    if s != [] && IsDigit(s[0]) then [s[0]] + DigitPrefix(s[1..]) else []
  }

  /** `parseInt(text, 10)`: skip white space, read an optional sign, then
      as many digits as there are; no digit at all gives `NaN` (`None`). */
  function ParseInt(text: string): Option<int>
  {
    var u := TrimStart(text);
    var negative := |u| > 0 && u[0] == '-';
    var body := if |u| > 0 && (u[0] == '-' || u[0] == '+') then u[1..] else u;
    var d := DigitPrefix(body);
    if d == [] then None
    else if negative then Some(-(DigitsValue(d) as int))
    else Some(DigitsValue(d))
  }

  /** `parseInt(breakTime, 10) || 0`. An absent field is `undefined`,
      which parseInt turns into `NaN`; `NaN` and 0 are falsy and become 0. */
  function BreakMinutes(breakTime: Option<string>): int
  {
    match breakTime
    case None => 0
    case Some(t) =>
      match ParseInt(t)
      case None => 0
      case Some(n) => n
  }


  lemma DigitPrefixOfDigits(d: string, rest: string)
    requires AllDigits(d)
    requires rest == [] || !IsDigit(rest[0])
    ensures DigitPrefix(d + rest) == d
  {
    if d != [] {
      assert (d + rest)[1..] == d[1..] + rest;
      DigitPrefixOfDigits(d[1..], rest);
    }
  }

  /** A digit string, possibly followed by text that does not start with a
      digit (parseInt stops at the first non-digit) gives its value. */
  lemma BreakDigits(d: string, rest: string)
    requires d != [] && AllDigits(d)
    requires rest == [] || !IsDigit(rest[0])
    ensures BreakMinutes(Some(d + rest)) == DigitsValue(d)
  {
    var t := d + rest;
    assert t[0] == d[0];
    ParseIntUnsigned(t);
    DigitPrefixOfDigits(d, rest);
  }

  /** Text starting with a digit is read from its first character. */
  lemma ParseIntUnsigned(t: string)
    requires t != [] && IsDigit(t[0])
    ensures ParseInt(t) == Some(DigitsValue(DigitPrefix(t)))
  {
    assert !IsSpace(t[0]);
    assert TrimStart(t) == t;
    assert t[0] != '-' && t[0] != '+';
    assert DigitPrefix(t) != [];
  }

  /** A leading minus sign is honoured: a negative break lengthens the
      net time. */
  lemma BreakNegative(d: string)
    requires d != [] && AllDigits(d)
    ensures BreakMinutes(Some("-" + d)) == -(DigitsValue(d) as int)
  {
    var s := "-" + d;
    assert TrimStart(s) == s;
    assert s[1..] == d;
    DigitPrefixOfDigits(d, []);
    assert d + [] == d;
  }

  /** Text that does not start with a digit or a sign followed by a digit
      (after white space) is not a number and counts as 0 minutes. */
  lemma BreakNonNumeric(t: string)
    requires var u := TrimStart(t);
             u == [] ||
             (!IsDigit(u[0]) && ((u[0] == '-' || u[0] == '+') ==> |u| == 1 || !IsDigit(u[1])))
    ensures BreakMinutes(Some(t)) == 0
  {
    var u := TrimStart(t);
    if u != [] && (u[0] == '-' || u[0] == '+') {
      assert DigitPrefix(u[1..]) == [];
    }
  }

  /** An absent field reaches parseInt as `undefined`, which it reads as the
      text "undefined": not a number, so the break is 0 minutes, the same
      value `BreakMinutes` gives for `None`. */
  lemma BreakAbsent()
    ensures BreakMinutes(None) == BreakMinutes(Some("undefined")) == 0
  {
    assert !IsSpace('u');
    BreakNonNumeric("undefined");
  }

  // ---------------------------------------------------------------------
  // Net hours
  // ---------------------------------------------------------------------

  /** `minutes / 60`, exactly. */
  function MinutesToHours(minutes: int): (hours: real)
    ensures hours * 60.0 == minutes as real
  {
    minutes as real / 60.0
  }

  /** `(endMinutes - startMinutes - breakMinutes) / 60`, exactly, as a
      real number; `NaN` (`None`) when either time does not parse. */
  function NetHours(startTime: string, endTime: string, breakTime: Option<string>): Option<real>
  {
    var startMinutes, endMinutes := ParseTime(startTime), ParseTime(endTime);
    if startMinutes.None? || endMinutes.None? then None
    else
      var totalMinutes := endMinutes.value - startMinutes.value;
      Some(MinutesToHours(totalMinutes - BreakMinutes(breakTime)))
  }

  /** For clock times in the "HH:MM" form a time input sends, the net hours
      are a number and are exactly the worked minutes (end minus start minus
      break) over 60, with no clamping: an end before the start gives a
      negative value. */
  lemma NetHoursOfClockTimes(h1: nat, m1: nat, h2: nat, m2: nat, breakTime: Option<string>)
    requires h1 < 24 && m1 < 60 && h2 < 24 && m2 < 60
    ensures NetHours(FormatTime(h1, m1), FormatTime(h2, m2), breakTime).Some?
    ensures NetHours(FormatTime(h1, m1), FormatTime(h2, m2), breakTime).value * 60.0 ==
            ((h2 * 60 + m2) - (h1 * 60 + m1) - BreakMinutes(breakTime)) as real
  {
    ParseFormatTime(h1, m1);
    ParseFormatTime(h2, m2);
  }

  /** Text without a ':' is not a time: when the start or the end lacks one,
      the net hours are NaN whatever the other fields hold. */
  lemma NetHoursNaN(startTime: string, endTime: string, breakTime: Option<string>)
    requires ':' !in startTime || ':' !in endTime
    ensures NetHours(startTime, endTime, breakTime) == None
  {
    if ':' !in startTime {
      ParseTimeWithoutColon(startTime);
    } else {
      ParseTimeWithoutColon(endTime);
    }
  }

  /** Net hours are non-negative when the end is not before the start and
      the break is between 0 and the elapsed time. */
  lemma NetHoursNonNegative(startTime: string, endTime: string, breakTime: Option<string>, s: int, e: int)
    requires ParseTime(startTime) == Some(s) && ParseTime(endTime) == Some(e)
    requires s <= e && 0 <= BreakMinutes(breakTime) <= e - s
    ensures NetHours(startTime, endTime, breakTime).Some?
    ensures NetHours(startTime, endTime, breakTime).value >= 0.0
  {
  }

  lemma Value00()
    ensures DigitsValue("00") == 0
  {
    assert "00"[..1] == "0";
  }

  lemma Value09()
    ensures DigitsValue("09") == 9
  {
    assert "09"[..1] == "0";
  }

  lemma Value17()
    ensures DigitsValue("17") == 17
  {
    assert "17"[..1] == "1";
    assert "1"[..0] == [];
  }

  lemma Value30()
    ensures DigitsValue("30") == 30
  {
    assert "30"[..1] == "3";
    assert "3"[..0] == [];
  }

  lemma ParseTime0900()
    ensures ParseTime("09:00") == Some(540)
  {
    Value00(); Value09();
    ParseTimeWellFormed("09", "00");
    assert "09" + ":" + "00" == "09:00";
  }

  lemma ParseTime1700()
    ensures ParseTime("17:00") == Some(1020)
  {
    Value00(); Value17();
    ParseTimeWellFormed("17", "00");
    assert "17" + ":" + "00" == "17:00";
  }

  lemma Break30()
    ensures BreakMinutes(Some("30")) == 30
  {
    Value30();
    BreakDigits("30", []);
    assert "30" + [] == "30";
  }

  /** 09:00 to 17:00 with a 30 minute break is 450 minutes, 7.5 hours. */
  lemma NetHoursFullDay()
    ensures NetHours("09:00", "17:00", Some("30")) == Some(7.5)
  {
    ParseTime0900();
    ParseTime1700();
    Break30();
  }

  /** An end before the start is accepted and yields negative hours. */
  lemma NetHoursEndBeforeStart()
    ensures NetHours("17:00", "09:00", None) == Some(-8.0)
  {
    ParseTime0900();
    ParseTime1700();
  }
}
