/** The two numeric fallback formats of `parse_date` (main.py:116),
    `datetime.strptime(text, "%Y-%m-%d")` and
    `datetime.strptime(text, "%Y-%m-%dT%H:%M:%S")`, as CPython's `_strptime`
    evaluates them: each directive is a regular-expression alternation
    (%Y four digits; %m `1[0-2]|0[1-9]|[1-9]`; %d `3[01]|[12]\d|0[1-9]|[1-9]| [1-9]`;
    %H `2[0-3]|[0-1]\d|\d`; %M `[0-5]\d|\d`; %S `6[0-1]|[0-5]\d|\d`), the
    pattern is matched case-insensitively and must consume the whole text,
    and the fields must then make a valid `datetime`. None stands for the
    ValueError Python raises. Because no directive can match a separator
    character, each field is exactly the text between two separators. */
module Strptime {
  import opened Wrappers
  import opened Text
  import opened Calendar

  predicate IsDigit(c: char) {
    '0' <= c <= '9'
  }

  predicate AllDigits(t: string) {
    forall i :: 0 <= i < |t| ==> IsDigit(t[i])
  }

  function Pow10(k: nat): nat {
    if k == 0 then 1 else 10 * Pow10(k - 1)
  }

  /** The decimal value of a string of digits. */
  function Value(t: string): (n: nat)
    requires AllDigits(t)
    ensures n < Pow10(|t|)
  {
    if t == [] then 0 else Value(t[..|t| - 1]) * 10 + (t[|t| - 1] as int - '0' as int)
  }

  /** A one- or two-digit field whose value lies in `lo..hi`: the shape the
      %m, %d, %H, %M and %S alternations accept (for %m the values 1..12,
      for %d 1..31, for %H 0..23, for %M 0..59, for %S 0..61). */
  function Bounded(t: string, lo: int, hi: int): (r: Option<int>)
    ensures r.Some? ==> lo <= r.value <= hi
  {
    if (|t| == 1 || |t| == 2) && AllDigits(t) && lo <= Value(t) <= hi then Some(Value(t)) else None
  }

  /** %Y: exactly four digits. */
  function YearField(t: string): (r: Option<int>)
    ensures r.Some? ==> 0 <= r.value <= 9999
  {
    if |t| == 4 && AllDigits(t) then Some(Value(t)) else None
  }

  /** %d: a one- or two-digit day 1..31, or a space and one digit 1..9. */
  function DayField(t: string): (r: Option<int>)
    ensures r.Some? ==> 1 <= r.value <= 31
  {
    if |t| == 2 && t[0] == ' ' && '1' <= t[1] <= '9' then Some(t[1] as int - '0' as int)
    else Bounded(t, 1, 31)
  }

  /** The reading if `datetime(...)` accepts it, None where it raises. */
  function Checked(c: Civil): (r: Option<Civil>)
    ensures r.Some? <==> Valid(c)
    ensures r.Some? ==> r.value == c
  {
    if Valid(c) then Some(c) else None
  }

  // What `datetime(...)` accepts, stated without `Valid`.

  /** 29 February exists exactly in the Gregorian leap years 1..9999. */
  lemma CheckedLeapDay(y: int)
    ensures Checked(Civil(y, 2, 29, 0, 0, 0)).Some? <==>
      1 <= y <= 9999 && y % 4 == 0 && (y % 100 != 0 || y % 400 == 0)
  {
  }

  /** The 31st exists exactly in January, March, May, July, August,
      October and December. */
  lemma CheckedThirtyFirst(y: int, m: int)
    ensures Checked(Civil(y, m, 31, 0, 0, 0)).Some? <==>
      1 <= y <= 9999 && m in {1, 3, 5, 7, 8, 10, 12}
  {
  }

  /** The 30th exists in every month but February. */
  lemma CheckedThirtieth(y: int, m: int)
    ensures Checked(Civil(y, m, 30, 0, 0, 0)).Some? <==> 1 <= y <= 9999 && 1 <= m <= 12 && m != 2
  {
  }

  /** Days 1..28 exist in every month of every year 1..9999, and no day
      outside 1..31 exists at all. */
  lemma CheckedDayRange(y: int, m: int, d: int)
    ensures 1 <= d <= 28 ==> (Checked(Civil(y, m, d, 0, 0, 0)).Some? <==> 1 <= y <= 9999 && 1 <= m <= 12)
    ensures d < 1 || d > 31 ==> Checked(Civil(y, m, d, 0, 0, 0)).None?
  {
  }

  /** Date and time of day are checked independently; the time needs hours
      0..23, minutes 0..59 and seconds 0..59, so the leap seconds 60 and 61
      that %S matches are refused. */
  lemma CheckedTimeOfDay(y: int, m: int, d: int, hh: int, mm: int, ss: int)
    ensures Checked(Civil(y, m, d, hh, mm, ss)).Some? <==>
      Checked(Civil(y, m, d, 0, 0, 0)).Some? && 0 <= hh <= 23 && 0 <= mm <= 59 && 0 <= ss <= 59
  {
  }

  /** Reads the `<%Y>-<%m>-<%d>` fields. With no day separators the day is
      the rest of the text; otherwise the day ends at the first separator
      and the text after it is returned for the time fields. */
  function ParseYmd(s: string, daySeps: set<char>): Option<(int, int, int, string)>
  {
    if |s| < 5 || s[4] != '-' then None
    else match (YearField(s[..4]), SplitFirst(s[5..], {'-'}))
      case (Some(y), Some((mt, rest))) =>
        (match Bounded(mt, 1, 12)
         case None => None
         case Some(m) =>
           if daySeps == {} then
             (match DayField(rest)
              case None => None
              case Some(d) => Some((y, m, d, [])))
           else
             (match SplitFirst(rest, daySeps)
              case None => None
              case Some((dt, tail)) =>
                (match DayField(dt)
                 case None => None
                 case Some(d) => Some((y, m, d, tail)))))
      case _ => None
  }

  /** `datetime.strptime(s, "%Y-%m-%d")`. */
  function ParseIsoDate(s: string): (r: Option<Civil>)
    ensures r.Some? ==> Valid(r.value)
    ensures r.Some? ==> r.value.hour == 0 && r.value.minute == 0 && r.value.second == 0
  {
    match ParseYmd(s, {})
    case None => None
    case Some((y, m, d, _)) => Checked(Civil(y, m, d, 0, 0, 0))
  }

  /** Reads `<%H>:<%M>:<%S>`. */
  function ParseHms(tail: string): Option<(int, int, int)>
  {
    match SplitFirst(tail, {':'})
    case None => None
    case Some((ht, rest)) =>
      match SplitFirst(rest, {':'})
      case None => None
      case Some((mt, st)) =>
        match (Bounded(ht, 0, 23), Bounded(mt, 0, 59), Bounded(st, 0, 61))
        case (Some(hh), Some(mm), Some(ss)) => Some((hh, mm, ss))
        case _ => None
  }

  /** `datetime.strptime(s, "%Y-%m-%dT%H:%M:%S")`; the pattern is matched
      ignoring case, so a lower-case `t` separates date and time as well. */
  function ParseIsoDateTime(s: string): (r: Option<Civil>)
    ensures r.Some? ==> Valid(r.value)
  {
    match ParseYmd(s, {'T', 't'})
    case None => None
    case Some((y, m, d, tail)) =>
      match ParseHms(tail)
      case None => None
      case Some((hh, mm, ss)) => Checked(Civil(y, m, d, hh, mm, ss))
  }

  // Formatting, the inverse direction: `strftime` with the same patterns.

  function DigitChar(n: int): (c: char)
    requires 0 <= n < 10
    ensures IsDigit(c)
  {
    ('0' as int + n) as char
  }

  /** `%02d`. */
  function Pad2(n: int): (t: string)
    requires 0 <= n < 100
    ensures |t| == 2 && AllDigits(t)
  {
    [DigitChar(n / 10), DigitChar(n % 10)]
  }

  /** `%04d`. */
  function Pad4(n: int): (t: string)
    requires 0 <= n < 10000
    ensures |t| == 4 && AllDigits(t)
  {
    Pad2(n / 100) + Pad2(n % 100)
  }

  /** `c.strftime("%Y-%m-%d")`. */
  function FormatIsoDate(c: Civil): string
    requires Valid(c)
  {
    Pad4(c.year) + "-" + Pad2(c.month) + "-" + Pad2(c.day)
  }

  /** `c.strftime("%Y-%m-%dT%H:%M:%S")`. */
  function FormatIsoDateTime(c: Civil): string
    requires Valid(c)
  {
    FormatIsoDate(c) + "T" + Pad2(c.hour) + ":" + Pad2(c.minute) + ":" + Pad2(c.second)
  }

  lemma Pad2Value(n: int)
    requires 0 <= n < 100
    ensures Value(Pad2(n)) == n
  {
    var t := Pad2(n);
    assert t[..1] == [t[0]];
    assert Value(t[..1]) == n / 10;
  }

  lemma Pad4Value(n: int)
    requires 0 <= n < 10000
    ensures Value(Pad4(n)) == n
  {
    var t := Pad4(n);
    var hi := Pad2(n / 100);
    Pad2Value(n / 100);
    assert t[..3] == hi + [t[2]];
    assert t[..2] == hi;
    assert Value(t[..3]) == Value(hi) * 10 + (t[2] as int - '0' as int);
  }

  lemma Pad2Bounded(n: int, lo: int, hi: int)
    requires 0 <= n < 100 && lo <= n <= hi
    ensures Bounded(Pad2(n), lo, hi) == Some(n)
  {
    Pad2Value(n);
  }

  /** The date fields of a formatted date read back, whatever follows the
      day's separator. */
  lemma YmdRoundTrip(c: Civil, sep: char, daySeps: set<char>, tail: string)
    requires Valid(c)
    requires daySeps == {} || sep in daySeps
    requires sep != '-'
    requires forall ch :: ch in daySeps ==> !IsDigit(ch)
    ensures daySeps == {} ==> ParseYmd(FormatIsoDate(c), daySeps) == Some((c.year, c.month, c.day, []))
    ensures daySeps != {} ==> ParseYmd(FormatIsoDate(c) + [sep] + tail, daySeps) == Some((c.year, c.month, c.day, tail))
  {
    if daySeps == {} {
      YmdRoundTripEnd(c);
    } else {
      YmdRoundTripSep(c, sep, daySeps, tail);
    }
  }

  /** The fields of a formatted date alone. */
  lemma YmdRoundTripEnd(c: Civil)
    requires Valid(c)
    ensures ParseYmd(FormatIsoDate(c), {}) == Some((c.year, c.month, c.day, []))
  {
    var mt := Pad2(c.month);
    var dt := Pad2(c.day);
    Pad4Value(c.year);
    Pad2Bounded(c.month, 1, 12);
    assert DayField(dt) == Some(c.day) by {
      Pad2Bounded(c.day, 1, 31);
    }
    var s := FormatIsoDate(c);
    assert s[..4] == Pad4(c.year);
    assert s[5..] == mt + ['-'] + dt;
    SplitFirstAt(mt, '-', dt, {'-'});
  }

  /** The fields of a formatted date followed by a day separator. */
  lemma YmdRoundTripSep(c: Civil, sep: char, daySeps: set<char>, tail: string)
    requires Valid(c) && sep in daySeps && sep != '-'
    requires forall ch :: ch in daySeps ==> !IsDigit(ch)
    ensures ParseYmd(FormatIsoDate(c) + [sep] + tail, daySeps) == Some((c.year, c.month, c.day, tail))
  {
    var mt := Pad2(c.month);
    var dt := Pad2(c.day);
    Pad4Value(c.year);
    Pad2Bounded(c.month, 1, 12);
    assert DayField(dt) == Some(c.day) by {
      Pad2Bounded(c.day, 1, 31);
    }
    var s := FormatIsoDate(c) + [sep] + tail;
    assert s[..4] == Pad4(c.year);
    assert s[5..] == mt + ['-'] + (dt + [sep] + tail);
    SplitFirstAt(mt, '-', dt + [sep] + tail, {'-'});
    SplitFirstAt(dt, sep, tail, daySeps);
  }

  /** The time fields of a formatted time read back. */
  lemma HmsRoundTrip(c: Civil)
    requires Valid(c)
    ensures ParseHms(Pad2(c.hour) + ":" + Pad2(c.minute) + ":" + Pad2(c.second)) == Some((c.hour, c.minute, c.second))
  {
    var ht, nt, st := Pad2(c.hour), Pad2(c.minute), Pad2(c.second);
    assert ht + ":" + nt + ":" + st == ht + [':'] + (nt + [':'] + st);
    SplitFirstAt(ht, ':', nt + [':'] + st, {':'});
    SplitFirstAt(nt, ':', st, {':'});
    Pad2Bounded(c.hour, 0, 23);
    Pad2Bounded(c.minute, 0, 59);
    Pad2Bounded(c.second, 0, 61);
  }

  /** A formatted date reads back as the same date. */
  lemma IsoDateRoundTrip(c: Civil)
    requires Valid(c) && c.hour == 0 && c.minute == 0 && c.second == 0
    ensures ParseIsoDate(FormatIsoDate(c)) == Some(c)
  {
    YmdRoundTrip(c, 'T', {}, []);
  }

  /** A formatted date and time reads back as the same reading. */
  lemma IsoDateTimeRoundTrip(c: Civil)
    requires Valid(c)
    ensures ParseIsoDateTime(FormatIsoDateTime(c)) == Some(c)
  {
    var tail := Pad2(c.hour) + ":" + Pad2(c.minute) + ":" + Pad2(c.second);
    assert FormatIsoDateTime(c) == FormatIsoDate(c) + ['T'] + tail;
    YmdRoundTrip(c, 'T', {'T', 't'}, tail);
    HmsRoundTrip(c);
  }

  /** `%Y-%m-%d` reads its three fields, split at the two dashes, and
      succeeds exactly when each field has its shape and the date exists. */
  lemma ParseIsoDateFields(yt: string, mt: string, dt: string)
    requires |yt| == 4
    requires forall i :: 0 <= i < |mt| ==> mt[i] != '-'
    ensures ParseIsoDate(yt + "-" + mt + "-" + dt) ==
      match (YearField(yt), Bounded(mt, 1, 12), DayField(dt))
      case (Some(y), Some(m), Some(d)) => Checked(Civil(y, m, d, 0, 0, 0))
      case _ => None
  {
    var s := yt + "-" + mt + "-" + dt;
    assert s[..4] == yt && s[4] == '-';
    assert s[5..] == mt + ['-'] + dt;
    SplitFirstAt(mt, '-', dt, {'-'});
  }

  lemma Year2023()
    ensures YearField("2023") == Some(2023)
  {
    assert AllDigits("2023");
    assert "2023"[..3] == "202" && "202"[..2] == "20" && "20"[..1] == "2" && "2"[..0] == "";
  }

  lemma Year2024()
    ensures YearField("2024") == Some(2024)
  {
    assert AllDigits("2024");
    assert "2024"[..3] == "202" && "202"[..2] == "20" && "20"[..1] == "2" && "2"[..0] == "";
  }

  lemma OneDigitThree()
    ensures Bounded("3", 1, 12) == Some(3) && DayField("3") == Some(3)
  {
    assert "3"[..0] == "";
  }

  lemma TwoDigitFields()
    ensures Bounded("02", 1, 12) == Some(2) && DayField("29") == Some(29)
  {
    assert "02"[..1] == "0" && "0"[..0] == "" && "29"[..1] == "2" && "2"[..0] == "";
  }

  /** Unpadded fields are accepted: "2024-3-3" is 3 March 2024. */
  lemma IsoDateUnpadded()
    ensures ParseIsoDate("2024-3-3") == Some(Civil(2024, 3, 3, 0, 0, 0))
  {
    assert "2024-3-3" == "2024" + "-" + "3" + "-" + "3";
    ParseIsoDateFields("2024", "3", "3");
    Year2024();
    OneDigitThree();
  }

  /** `datetime` rejects dates that do not exist: 29 February 2023. */
  lemma IsoRejectsMissingDay()
    ensures ParseIsoDate("2023-02-29") == None
  {
    assert "2023-02-29" == "2023" + "-" + "02" + "-" + "29";
    ParseIsoDateFields("2023", "02", "29");
    Year2023();
    TwoDigitFields();
    assert !Valid(Civil(2023, 2, 29, 0, 0, 0)) by {
      assert !IsLeap(2023);
    }
  }

  /** The whole text must be consumed: trailing characters are refused. */
  lemma IsoRejectsTrailing()
    ensures ParseIsoDate("2024-03-03x") == None
  {
    assert "2024-03-03x" == "2024" + "-" + "03" + "-" + "03x";
    ParseIsoDateFields("2024", "03", "03x");
    assert !AllDigits("03x") by { assert !IsDigit("03x"[2]); }
    assert DayField("03x") == None;
  }
}
