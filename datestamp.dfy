/** The date prefix of an uploaded file's name: `YYYY_MM_DD-HH_MM` in server-local time. */
module DateStamp {
  import opened Wrappers
  import opened Strings

  /**
   * The clock readings the filename callback takes from `new Date()`:
   * `getFullYear()`, `getMonth()` (zero-based), `getDate()`, `getHours()`, `getMinutes()`.
   */
  datatype DateParts = DateParts(year: nat, month: nat, day: nat, hour: nat, minute: nat)

  /** The ranges a JavaScript `Date` gives its local-time components. */
  predicate InRange(d: DateParts) {
    d.month < 12 && 1 <= d.day <= 31 && d.hour < 24 && d.minute < 60
  }

  /**
   * The year, then month + 1, day, hour and minute each padded to two digits with '0'. The
   * year's digits come first, followed by '_', and an in-range date adds exactly twelve
   * characters to them.
   */
  function FormatDate(d: DateParts): (s: string)
    ensures DecimalString(d.year) <= s && |DecimalString(d.year)| < |s|
    ensures s[|DecimalString(d.year)|] == '_'
    ensures InRange(d) ==> |s| == |DecimalString(d.year)| + 12
  {
    TailStartsWithUnderscore(Pad2(d.month + 1), Pad2(d.day), Pad2(d.hour), Pad2(d.minute));
    assert InRange(d) ==> |DateTail(d)| == 12 by {
      if InRange(d) {
        DateTailLength(d);
      }
    }
    DecimalString(d.year) + DateTail(d)
  }

  function DateTail(d: DateParts): string {
    Tail(Pad2(d.month + 1), Pad2(d.day), Pad2(d.hour), Pad2(d.minute))
  }

  lemma TailStartsWithUnderscore(mo: string, dd: string, hh: string, mi: string)
    ensures |Tail(mo, dd, hh, mi)| > 0 && Tail(mo, dd, hh, mi)[0] == '_'
  {
  }

  /** For an in-range date the part after the year is twelve characters long. */
  lemma DateTailLength(d: DateParts)
    requires InRange(d)
    ensures |DateTail(d)| == 12
  {
    var mo, dd, hh, mi := Pad2(d.month + 1), Pad2(d.day), Pad2(d.hour), Pad2(d.minute);
    TwoDigitField(d.month + 1);
    TwoDigitField(d.day);
    TwoDigitField(d.hour);
    TwoDigitField(d.minute);
    assert |Tail(mo, dd, hh, mi)| == 12;
  }

  /** The part after the year: `_MM_DD-HH_MM`. */
  function Tail(mo: string, dd: string, hh: string, mi: string): string {
    "_" + mo + "_" + dd + "-" + hh + "_" + mi
  }

  /** Reads a formatted date back: canonical year digits, then the fixed twelve-character tail. */
  function ParseFormattedDate(s: string): Option<DateParts> {
    var k := DigitSpan(s);
    if k == 0 || |s| != k + 12 || (s[0] == '0' && k != 1) then None
    else
      match ParseTail(s[k..])
      case None => None
      case Some(t) => Some(DateParts(ParseDecimal(s[..k]), t.0, t.1, t.2, t.3))
  }

  /** Reads `_MM_DD-HH_MM` back as the zero-based month, day, hour and minute. */
  function ParseTail(t: string): Option<(nat, nat, nat, nat)>
    requires |t| == 12
  {
    if t[0] != '_' || t[3] != '_' || t[6] != '-' || t[9] != '_' then None
    else if !AllDigits(t[1..3]) || !AllDigits(t[4..6]) || !AllDigits(t[7..9]) || !AllDigits(t[10..]) then None
    else
      var month := ParseDecimal(t[1..3]);
      if month == 0 then None
      else Some((month - 1, ParseDecimal(t[4..6]), ParseDecimal(t[7..9]), ParseDecimal(t[10..])))
  }

  lemma TailSlices(mo: string, dd: string, hh: string, mi: string)
    requires |mo| == 2 && |dd| == 2 && |hh| == 2 && |mi| == 2
    ensures var t := Tail(mo, dd, hh, mi);
      |t| == 12 && t[0] == '_' && t[3] == '_' && t[6] == '-' && t[9] == '_'
      && t[1..3] == mo && t[4..6] == dd && t[7..9] == hh && t[10..] == mi
  {
  }

  lemma TailOfSlices(t: string)
    requires |t| == 12 && t[0] == '_' && t[3] == '_' && t[6] == '-' && t[9] == '_'
    ensures t == Tail(t[1..3], t[4..6], t[7..9], t[10..])
  {
  }

  /** The parser splits a string at the end of its leading digits. */
  lemma ParseFormattedDateSplit(y: string, t: string)
    requires IsCanonicalDecimal(y) && |t| == 12 && t[0] == '_'
    ensures ParseFormattedDate(y + t) ==
      match ParseTail(t)
      case None => None
      case Some(f) => Some(DateParts(ParseDecimal(y), f.0, f.1, f.2, f.3))
  {
    DigitSpanOfConcat(y, t);
    assert (y + t)[..|y|] == y && (y + t)[|y|..] == t;
  }

  /** Every in-range date is recovered from its formatted string. */
  lemma FormatDateRoundTrip(d: DateParts)
    requires InRange(d)
    ensures ParseFormattedDate(FormatDate(d)) == Some(d)
  {
    var y := DecimalString(d.year);
    var mo, dd, hh, mi := Pad2(d.month + 1), Pad2(d.day), Pad2(d.hour), Pad2(d.minute);
    TwoDigitField(d.month + 1);
    TwoDigitField(d.day);
    TwoDigitField(d.hour);
    TwoDigitField(d.minute);
    DecimalRoundTrip(d.year);
    var tail := Tail(mo, dd, hh, mi);
    TailSlices(mo, dd, hh, mi);
    assert ParseTail(tail) == Some((d.month, d.day, d.hour, d.minute));
    ParseFormattedDateSplit(y, tail);
  }

  lemma ParsedTailFormatsBack(year: nat, t: string)
    requires |t| == 12 && ParseTail(t).Some?
    ensures var f := ParseTail(t).value;
      DateTail(DateParts(year, f.0, f.1, f.2, f.3)) == t
  {
    var mo, dd, hh, mi := t[1..3], t[4..6], t[7..9], t[10..];
    assert ParseTail(t).value == (ParseDecimal(mo) - 1, ParseDecimal(dd), ParseDecimal(hh), ParseDecimal(mi));
    TwoDigitFieldOfParse(mo);
    TwoDigitFieldOfParse(dd);
    TwoDigitFieldOfParse(hh);
    TwoDigitFieldOfParse(mi);
    TailOfSlices(t);
  }

  /** Whatever the parser accepts is exactly the formatted form of what it returns. */
  lemma ParsedDateFormatsBack(s: string)
    requires ParseFormattedDate(s).Some?
    ensures FormatDate(ParseFormattedDate(s).value) == s
  {
    var k := DigitSpan(s);
    var y, t := s[..k], s[k..];
    assert s == y + t;
    ParseFormattedDateSplit(y, t);
    var f := ParseTail(t).value;
    var d := DateParts(ParseDecimal(y), f.0, f.1, f.2, f.3);
    assert ParseFormattedDate(s) == Some(d);
    CanonicalDecimalRoundTrip(y);
    ParsedTailFormatsBack(d.year, t);
  }
}
