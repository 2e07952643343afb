/** `parse_date` (main.py:103-122): strip the text, cut off a label prefix,
    try ISO-8601, then four `strptime` formats in a fixed order; the first
    success wins and every result is made timezone-aware. */
module Dates {
  import opened Wrappers
  import opened Text
  import opened Times
  import opened Calendar
  import opened Strptime

  /** The fallback formats of main.py:116. */
  datatype Format =
    | LongMonthDayYear    // "%B %d, %Y"
    | DayAbbrevMonthYear  // "%d %b %Y"
    | IsoDate             // "%Y-%m-%d"
    | IsoDateTime         // "%Y-%m-%dT%H:%M:%S"

  /** The order in which the fallback formats are tried. */
  const FallbackFormats: seq<Format> := [LongMonthDayYear, DayAbbrevMonthYear, IsoDate, IsoDateTime]

  /** The parts of Python's datetime library this model takes as given:
      `datetime.fromisoformat`, and `strptime` with the two month-name
      formats, which depend on locale month names. Each yields None where
      Python raises ValueError; the month-name parsers yield the naive
      wall-clock reading in microseconds. */
  datatype DateLib = DateLib(
    fromIsoFormat: string -> Option<DateTime>,
    longMonthDayYear: string -> Option<int>,
    dayAbbrevMonthYear: string -> Option<int>)

  /** `datetime.strptime(text, fmt)` as a naive wall-clock reading. */
  function ParseFormat(lib: DateLib, text: string, fmt: Format): Option<int> {
    match fmt
    case LongMonthDayYear => lib.longMonthDayYear(text)
    case DayAbbrevMonthYear => lib.dayAbbrevMonthYear(text)
    case IsoDate =>
      (match ParseIsoDate(text)
       case None => None
       case Some(c) => Some(WallMicros(c)))
    case IsoDateTime =>
      (match ParseIsoDateTime(text)
       case None => None
       case Some(c) => Some(WallMicros(c)))
  }

  /** Whether the label rule of main.py:108 fires: the text holds a colon
      and does not start with "20". */
  predicate HasLabel(cleaned: string) {
    ':' in cleaned && !StartsWith(cleaned, "20")
  }

  /** main.py:108-110: when the rule fires, the text up to and including the
      first colon is dropped and the rest stripped; otherwise the text is
      kept. */
  function DropLabel(cleaned: string): (r: string)
    ensures !HasLabel(cleaned) ==> r == cleaned
    ensures HasLabel(cleaned) ==> Trimmed(r) && |r| < |cleaned|
  {
    if HasLabel(cleaned) then
      match SplitFirst(cleaned, {':'})
      case Some((_, after)) => Strip(after)
      case None => cleaned
    else cleaned
  }

  /** The text the parse attempts see: stripped, label removed. */
  function Clean(value: string): (r: string)
    ensures Trimmed(r)
  {
    DropLabel(Strip(value))
  }

  /** main.py:111: every "Z" becomes "+00:00" for the ISO attempt. */
  function IsoCandidate(cleaned: string): (r: string)
    ensures 'Z' !in r
  {
    ReplaceAll(cleaned, 'Z', "+00:00")
  }

  /** The loop of main.py:117-121: the first format that matches wins, and
      its naive result is read as UTC. */
  function FirstMatch(lib: DateLib, text: string, formats: seq<Format>): (r: Option<DateTime>)
    ensures r.None? <==> forall k :: 0 <= k < |formats| ==> ParseFormat(lib, text, formats[k]).None?
    ensures r.Some? ==> r.value.offset == Some(0)
  {
    if formats == [] then None
    else match ParseFormat(lib, text, formats[0])
      case Some(w) => Some(WithUtc(DateTime(w, None)))
      case None => FirstMatch(lib, text, formats[1..])
  }

  /** `parse_date`. */
  function ParseDate(lib: DateLib, value: Option<string>): (r: Option<DateTime>)
    ensures value.None? || value.value == [] ==> r.None?
    ensures r.Some? ==> r.value.IsAware()
  {
    match value
    case None => None
    case Some(text) =>
      if text == [] then None
      else
        var cleaned := Clean(text);
        match lib.fromIsoFormat(IsoCandidate(cleaned))
        case Some(parsed) => Some(if parsed.IsAware() then parsed else WithUtc(parsed))
        case None => FirstMatch(lib, cleaned, FallbackFormats)
  }

  // Label stripping.

  /** A label up to the first colon is cut and the remainder stripped. */
  lemma DropLabelCuts(prefix: string, rest: string)
    requires ':' !in prefix
    requires !StartsWith(prefix + ":" + rest, "20")
    ensures DropLabel(prefix + ":" + rest) == Strip(rest)
  {
    var s := prefix + ":" + rest;
    assert s == prefix + [':'] + rest;
    assert s[|prefix|] == ':';
    SplitFirstAt(prefix, ':', rest, {':'});
  }

  /** Text starting with "20" is never cut, colons or not. */
  lemma DropLabelKeepsYear(s: string)
    requires StartsWith(s, "20")
    ensures DropLabel(s) == s
  {
  }

  /** Text without a colon is never cut. */
  lemma DropLabelKeepsColonFree(s: string)
    requires ':' !in s
    ensures DropLabel(s) == s
  {
  }

  /** "Published: March 3, 2024" loses its label. */
  lemma CleanLabelledDate()
    ensures Clean("Published: March 3, 2024") == "March 3, 2024"
  {
    var s := "Published: March 3, 2024";
    assert Strip(s) == s by { StripKeeps(s); }
    DropLabelPublished();
    StripPublishedRest();
  }

  lemma StripPublishedRest()
    ensures Strip(" March 3, 2024") == "March 3, 2024"
  {
    var t := " March 3, 2024";
    StripLeadingSpace(t);
    assert t[1..] == "March 3, 2024";
  }

  lemma DropLabelPublished()
    ensures DropLabel("Published: March 3, 2024") == Strip(" March 3, 2024")
  {
    var s := "Published: March 3, 2024";
    assert s == "Published" + ":" + " March 3, 2024";
    assert s[..2] != "20" by { assert s[..2][0] == 'P'; }
    DropLabelCuts("Published", " March 3, 2024");
  }

  /** A string that neither starts nor ends with whitespace is its own strip. */
  lemma StripKeeps(s: string)
    requires Trimmed(s)
    ensures Strip(s) == s
  {
    assert s[..0] == [] && s[|s|..] == [] && s[0..|s|] == s;
    StripUnique(s, 0, |s|);
  }

  /** One leading space and nothing trailing: the strip drops the space. */
  lemma StripLeadingSpace(s: string)
    requires |s| >= 2 && s[0] == ' ' && Trimmed(s[1..])
    ensures Strip(s) == s[1..]
  {
    assert AllSpace(s[..1]) by { assert s[..1][0] == s[0]; }
    assert s[|s|..] == [] && s[1..|s|] == s[1..];
    StripUnique(s, 1, |s|);
  }

  /** An ISO timestamp keeps its time of day, and its "Z" becomes an offset. */
  lemma CleanIsoTimestamp()
    ensures Clean("2024-03-03T10:00:00Z") == "2024-03-03T10:00:00Z"
    ensures IsoCandidate("2024-03-03T10:00:00Z") == "2024-03-03T10:00:00+00:00"
  {
    CleanKeepsIsoTimestamp();
    IsoCandidateOfTimestamp();
  }

  lemma CleanKeepsIsoTimestamp()
    ensures Clean("2024-03-03T10:00:00Z") == "2024-03-03T10:00:00Z"
  {
    var s := "2024-03-03T10:00:00Z";
    StripKeeps(s);
    assert StartsWith(s, "20") by { assert s[..2] == "20"; }
    DropLabelKeepsYear(s);
  }

  lemma IsoCandidateOfTimestamp()
    ensures IsoCandidate("2024-03-03T10:00:00Z") == "2024-03-03T10:00:00+00:00"
  {
    var a := "2024-03-03T10:00:00";
    assert 'Z' !in a;
    IsoCandidateTrailingZ(a);
    assert a + "Z" == "2024-03-03T10:00:00Z";
    assert a + "+00:00" == "2024-03-03T10:00:00+00:00";
  }

  /** A trailing "Z" becomes the offset "+00:00". */
  lemma IsoCandidateTrailingZ(a: string)
    requires 'Z' !in a
    ensures IsoCandidate(a + "Z") == a + "+00:00"
  {
    ReplaceAllAppend(a, "Z", 'Z', "+00:00");
    assert ReplaceAll("Z", 'Z', "+00:00") == "+00:00";
  }

  // The order of the parse attempts.

  /** A successful ISO parse wins outright; a naive one is read as UTC. */
  lemma IsoParseWins(lib: DateLib, text: string, parsed: DateTime)
    requires text != []
    ensures lib.fromIsoFormat(IsoCandidate(Clean(text))) == Some(parsed) ==>
      ParseDate(lib, Some(text)) ==
        Some(if parsed.IsAware() then parsed else DateTime(parsed.wall, Some(0)))
  {
    if lib.fromIsoFormat(IsoCandidate(Clean(text))) == Some(parsed) {
      var r := Some(if parsed.IsAware() then parsed else WithUtc(parsed));
      assert ParseDate(lib, Some(text)) == r;
    }
  }

  /** When ISO parsing fails, the first fallback format that matches the
      cleaned text (not the "Z"-rewritten one) decides, read as UTC. */
  lemma {:induction false} FirstMatchIsFirst(lib: DateLib, text: string, formats: seq<Format>, k: nat, w: int)
    requires k < |formats|
    requires forall j :: 0 <= j < k ==> ParseFormat(lib, text, formats[j]).None?
    requires ParseFormat(lib, text, formats[k]) == Some(w)
    ensures FirstMatch(lib, text, formats) == Some(DateTime(w, Some(0)))
  {
    if k > 0 {
      assert ParseFormat(lib, text, formats[0]).None?;
      assert forall j :: 0 <= j < k - 1 ==> formats[1..][j] == formats[j + 1];
      FirstMatchIsFirst(lib, text, formats[1..], k - 1, w);
    }
  }

  /** The fallback chain of `parse_date` picks the first matching format. */
  lemma FallbackOrder(lib: DateLib, text: string, k: nat, w: int)
    requires text != []
    requires lib.fromIsoFormat(IsoCandidate(Clean(text))).None?
    requires k < |FallbackFormats|
    requires forall j :: 0 <= j < k ==> ParseFormat(lib, Clean(text), FallbackFormats[j]).None?
    requires ParseFormat(lib, Clean(text), FallbackFormats[k]) == Some(w)
    ensures ParseDate(lib, Some(text)) == Some(DateTime(w, Some(0)))
  {
    FirstMatchIsFirst(lib, Clean(text), FallbackFormats, k, w);
  }

  /** Absent is returned exactly when the text is empty or nothing parses. */
  lemma ParseDateAbsent(lib: DateLib, text: string)
    ensures ParseDate(lib, Some(text)).None? <==>
      (|| text == []
       || (&& lib.fromIsoFormat(IsoCandidate(Clean(text))).None?
           && forall k :: 0 <= k < |FallbackFormats| ==> ParseFormat(lib, Clean(text), FallbackFormats[k]).None?))
  {
  }

  /** A numeric date that ISO parsing and the month-name formats refuse
      ("2024-3-3", say: `fromisoformat` wants two-digit fields) is found by
      the "%Y-%m-%d" fallback and read as UTC midnight. */
  lemma NumericDateFallback(lib: DateLib, text: string, c: Civil)
    requires text != []
    ensures
      var cleaned := Clean(text);
      IsoCandidate(cleaned) == cleaned && lib.fromIsoFormat(cleaned).None? &&
      lib.longMonthDayYear(cleaned).None? && lib.dayAbbrevMonthYear(cleaned).None? &&
      ParseIsoDate(cleaned) == Some(c)
      ==> ParseDate(lib, Some(text)) == Some(DateTime(WallMicros(c), Some(0)))
  {
    var cleaned := Clean(text);
    if IsoCandidate(cleaned) == cleaned && lib.fromIsoFormat(cleaned).None? &&
       lib.longMonthDayYear(cleaned).None? && lib.dayAbbrevMonthYear(cleaned).None? &&
       ParseIsoDate(cleaned) == Some(c)
    {
      var w := WallMicros(c);
      assert FirstMatch(lib, cleaned, FallbackFormats) == Some(DateTime(w, Some(0))) by {
        IsoDateFormat(lib, cleaned, c);
        ThirdFormatWins(lib, cleaned, w);
      }
      IsoFailsToFallback(lib, text);
    }
  }

  /** When the ISO attempt fails, the fallback chain over the cleaned text decides. */
  lemma IsoFailsToFallback(lib: DateLib, text: string)
    requires text != [] && lib.fromIsoFormat(IsoCandidate(Clean(text))).None?
    ensures ParseDate(lib, Some(text)) == FirstMatch(lib, Clean(text), FallbackFormats)
  {
  }

  /** A `%Y-%m-%d` match gives its calendar reading's wall-clock count. */
  lemma IsoDateFormat(lib: DateLib, text: string, c: Civil)
    requires ParseIsoDate(text) == Some(c)
    ensures ParseFormat(lib, text, IsoDate) == Some(WallMicros(c))
  {
  }

  /** The fallback loop reaches `%Y-%m-%d` when both month-name formats fail. */
  lemma ThirdFormatWins(lib: DateLib, text: string, w: int)
    ensures
      lib.longMonthDayYear(text).None? && lib.dayAbbrevMonthYear(text).None? &&
      ParseFormat(lib, text, IsoDate) == Some(w)
      ==> FirstMatch(lib, text, FallbackFormats) == Some(DateTime(w, Some(0)))
  {
    if lib.longMonthDayYear(text).None? && lib.dayAbbrevMonthYear(text).None? &&
       ParseFormat(lib, text, IsoDate) == Some(w)
    {
      var f := FallbackFormats;
      var g := [DayAbbrevMonthYear, IsoDate, IsoDateTime];
      var h := [IsoDate, IsoDateTime];
      assert f[0] == LongMonthDayYear && f[1..] == g;
      assert g[0] == DayAbbrevMonthYear && g[1..] == h;
      assert h[0] == IsoDate;
      assert FirstMatch(lib, text, h) == Some(WithUtc(DateTime(w, None)));
      assert FirstMatch(lib, text, g) == FirstMatch(lib, text, h);
      assert FirstMatch(lib, text, f) == FirstMatch(lib, text, g);
    }
  }

  /** "Received: 2024-3-3" is cut to its unpadded numeric date. */
  lemma CleanReceived()
    ensures Clean("Received: 2024-3-3") == "2024-3-3"
  {
    var s := "Received: 2024-3-3";
    assert Strip(s) == s by { StripKeeps(s); }
    DropLabelReceived();
    StripReceivedRest();
  }

  lemma StripReceivedRest()
    ensures Strip(" 2024-3-3") == "2024-3-3"
  {
    var t := " 2024-3-3";
    StripLeadingSpace(t);
    assert t[1..] == "2024-3-3";
  }

  lemma DropLabelReceived()
    ensures DropLabel("Received: 2024-3-3") == Strip(" 2024-3-3")
  {
    var t := "Received: 2024-3-3";
    assert t == "Received" + ":" + " 2024-3-3";
    assert t[..2] != "20" by { assert t[..2][0] == 'R'; }
    DropLabelCuts("Received", " 2024-3-3");
  }
}
