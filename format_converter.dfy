/** The draw-history reformatter: a line "DDth Month YYYY n1 n2 n3 n4 n5 n6 n7"
    (fields separated by spaces, or by tabs with the date in the first field)
    becomes "YYMMDD:  n1, n2, n3, n4, n5, n6 / n7". The date is read as
    datetime.strptime reads '%d %B %Y' and then '%d %b %Y' in the English locale,
    after the ordinal suffixes have been removed. */
module FormatConverter {
  import opened Text
  import opened DrawText
  import opened DrawRecords

  // ---------------------------------------------------------------- ordinal suffixes

  /** Length of the run of decimal digits at the start of s. */
  function DigitRun(s: string): (n: nat)
    ensures n <= |s|
    ensures forall i :: 0 <= i < n ==> IsDigit(s[i])
    ensures n < |s| ==> !IsDigit(s[n])
  {
    if |s| == 0 || !IsDigit(s[0]) then 0 else 1 + DigitRun(s[1..])
  }

  predicate OrdinalSuffixAhead(s: string)
  {
    StartsWith(s, "st") || StartsWith(s, "nd") || StartsWith(s, "rd") || StartsWith(s, "th")
  }

  /** re.sub(r'(\d+)(st|nd|rd|th)', r'\1', s): every run of digits keeps its digits
      and loses a two-letter ordinal suffix written right after it. */
  function StripOrdinals(s: string): string
    decreases |s|
  {
    if |s| == 0 then ""
    else if IsDigit(s[0]) then
      var n := DigitRun(s);
      var rest := s[n..];
      s[..n] + StripOrdinals(if OrdinalSuffixAhead(rest) then rest[2..] else rest)
    else [s[0]] + StripOrdinals(s[1..])
  }

  /** The digits of s, in order. */
  function DigitsOf(s: string): string
  {
    if |s| == 0 then "" else (if IsDigit(s[0]) then [s[0]] else "") + DigitsOf(s[1..])
  }

  lemma {:induction false} DigitsOfAppend(a: string, b: string)
    ensures DigitsOf(a + b) == DigitsOf(a) + DigitsOf(b)
  {
    if |a| > 0 {
      DigitsOfAppend(a[1..], b);
      assert (a + b)[1..] == a[1..] + b;
    } else {
      assert a + b == b;
    }
  }

  lemma {:induction false} DigitsOfSuffix(t: string)
    requires OrdinalSuffixAhead(t)
    ensures DigitsOf(t) == DigitsOf(t[2..])
  {
    assert t == t[..2] + t[2..];
    DigitsOfAppend(t[..2], t[2..]);
    assert t[..2][1..] == [t[1]];
  }

  /** Removing the suffixes removes letters only: every digit survives, in order,
      and the text never grows. */
  lemma {:induction false} StripOrdinalsKeepsDigits(s: string)
    ensures DigitsOf(StripOrdinals(s)) == DigitsOf(s)
    ensures |StripOrdinals(s)| <= |s|
    decreases |s|
  {
    if |s| > 0 {
      if IsDigit(s[0]) {
        var n := DigitRun(s);
        var rest := s[n..];
        var next := if OrdinalSuffixAhead(rest) then rest[2..] else rest;
        StripOrdinalsKeepsDigits(next);
        assert s == s[..n] + rest;
        DigitsOfAppend(s[..n], rest);
        DigitsOfAppend(s[..n], StripOrdinals(next));
        if OrdinalSuffixAhead(rest) {
          DigitsOfSuffix(rest);
        }
      } else {
        StripOrdinalsKeepsDigits(s[1..]);
      }
    }
  }

  /** A day written with its ordinal suffix loses the suffix and nothing else. */
  lemma OrdinalDropped(day: string, suffix: string, rest: string)
    requires IsDigits(day)
    requires suffix in {"st", "nd", "rd", "th"}
    ensures StripOrdinals(day + suffix + rest) == day + StripOrdinals(rest)
  {
    var t := suffix + rest;
    SuffixAhead(suffix, rest);
    DigitRunAll(day, t);
    SeqAssoc(day, suffix, rest);
    UnfoldDigitRun(day, t);
  }

  lemma SuffixAhead(suffix: string, rest: string)
    requires suffix in {"st", "nd", "rd", "th"}
    ensures OrdinalSuffixAhead(suffix + rest) && (suffix + rest)[2..] == rest
    ensures |suffix + rest| > 0 && !IsDigit((suffix + rest)[0])
  {
    assert (suffix + rest)[..2] == suffix;
  }

  lemma UnfoldDigitRun(day: string, t: string)
    requires IsDigits(day) && DigitRun(day + t) == |day|
    ensures StripOrdinals(day + t) ==
              day + StripOrdinals(if OrdinalSuffixAhead(t) then t[2..] else t)
  {
    var s := day + t;
    assert s[..|day|] == day;
    assert s[|day|..] == t;
  }

  lemma {:induction false} DigitRunAll(d: string, t: string)
    requires forall i :: 0 <= i < |d| ==> IsDigit(d[i])
    requires |t| == 0 || !IsDigit(t[0])
    ensures DigitRun(d + t) == |d|
    decreases |d|
  {
    if |d| > 0 {
      assert (d + t)[1..] == d[1..] + t;
      DigitRunAll(d[1..], t);
    } else {
      assert d + t == t;
    }
  }

  /** Text without digits is left as it is. */
  lemma {:induction false} StripOrdinalsNoDigits(s: string)
    requires forall i :: 0 <= i < |s| ==> !IsDigit(s[i])
    ensures StripOrdinals(s) == s
  {
    if |s| > 0 {
      StripOrdinalsNoDigits(s[1..]);
      assert s == [s[0]] + s[1..];
    }
  }

  /** A run of digits not followed by a suffix-starting letter is left as it is. */
  lemma StripOrdinalsDigitsThen(d: string, rest: string)
    requires IsDigits(d)
    requires |rest| == 0 || (!IsDigit(rest[0]) && !OrdinalSuffixAhead(rest))
    ensures StripOrdinals(d + rest) == d + StripOrdinals(rest)
  {
    var s := d + rest;
    DigitRunAll(d, rest);
    assert s[..|d|] == d;
    assert s[|d|..] == rest;
  }

  // ---------------------------------------------------------------- calendar dates

  datatype Date = Date(year: nat, month: nat, day: nat)

  const MonthNames: seq<string> := ["january", "february", "march", "april", "may", "june", "july",
                                    "august", "september", "october", "november", "december"]
  const MonthAbbrs: seq<string> := ["jan", "feb", "mar", "apr", "may", "jun", "jul",
                                    "aug", "sep", "oct", "nov", "dec"]

  predicate IsLeap(y: nat)
  {
    y % 4 == 0 && (y % 100 != 0 || y % 400 == 0)
  }

  function DaysIn(month: nat, year: nat): nat
    requires 1 <= month <= 12
  {
    if month == 2 then (if IsLeap(year) then 29 else 28)
    else if month in {4, 6, 9, 11} then 30
    else 31
  }

  /** A date the datetime type can hold. */
  predicate ValidDate(d: Date)
  {
    1 <= d.year <= 9999 && 1 <= d.month <= 12 && 1 <= d.day <= DaysIn(d.month, d.year)
  }

  /** The field %d reads: 1 to 9 as one digit, or two digits from 01 to 31. */
  function DayField(w: string): (r: Option<nat>)
    ensures r.Some? ==> 1 <= r.value <= 31
  {
    if |w| == 1 && IsDigit(w[0]) && w[0] != '0' then Some(DigitValue(w[0]))
    else if |w| == 2 && IsDigits(w) && 1 <= DigitsValue(w) <= 31 then Some(DigitsValue(w))
    else None
  }

  /** The field %B (full names) or %b (abbreviations) reads, in any letter case:
      the month's number. */
  function MonthField(w: string, names: seq<string>): (r: Option<nat>)
    requires |names| == 12
    ensures r.Some? ==> 1 <= r.value <= 12 && Lower(w) == names[r.value - 1]
    ensures r.None? ==> Lower(w) !in names
  {
    MonthIndex(Lower(w), names, 0)
  }

  function MonthIndex(l: string, names: seq<string>, i: nat): (r: Option<nat>)
    requires i <= |names|
    ensures r.Some? ==> i < r.value <= |names| && l == names[r.value - 1]
    ensures r.None? ==> l !in names[i..]
    decreases |names| - i
  {
    if i == |names| then None
    else if l == names[i] then Some(i + 1)
    else
      var r := MonthIndex(l, names, i + 1);
      assert names[i..] == [names[i]] + names[i + 1..];
      r
  }

  /** The field %Y reads: exactly four digits. */
  function YearField(w: string): (r: Option<nat>)
    ensures r.Some? ==> r.value <= 9999
  {
    if |w| == 4 && IsDigits(w) then
      FourDigitsBound(w);
      Some(DigitsValue(w))
    else None
  }

  lemma FourDigitsBound(w: string)
    requires |w| == 4 && IsDigits(w)
    ensures DigitsValue(w) <= 9999
  {
    var c, b, a := w[..1], w[..2], w[..3];
    PrefixPrefix(w, 0, 1);
    DigitsAppendBound(c, 0);
    PrefixPrefix(w, 1, 2);
    DigitsAppendBound(b, 9);
    PrefixPrefix(w, 2, 3);
    DigitsAppendBound(a, 99);
    DigitsAppendBound(w, 999);
  }

  lemma PrefixPrefix(s: string, i: nat, j: nat)
    requires i <= j <= |s|
    ensures s[..j][..i] == s[..i]
  {
  }

  /** One more digit multiplies the bound by ten and adds at most nine. */
  lemma DigitsAppendBound(s: string, bound: nat)
    requires |s| > 0 && forall i :: 0 <= i < |s| ==> IsDigit(s[i])
    requires DigitsValue(s[..|s| - 1]) <= bound
    ensures DigitsValue(s) <= bound * 10 + 9
  {
  }

  /** datetime.strptime(s, '%d <month> %Y') on a date written as three words
      separated by single spaces; None where it raises ValueError (a field that
      does not match, or a day the month does not have). */
  function Strptime(s: string, names: seq<string>): (r: Option<Date>)
    requires |names| == 12
    ensures r.Some? ==> ValidDate(r.value)
  {
    var ws := Split(s, ' ');
    if |ws| != 3 then None
    else match (DayField(ws[0]), MonthField(ws[1], names), YearField(ws[2]))
      case (Some(day), Some(month), Some(year)) =>
        var d := Date(year, month, day);
        if ValidDate(d) then Some(d) else None
      case _ => None
  }

  /** parse_ordinal_date: suffixes removed, then the full month name tried before
      the abbreviation. */
  function ParseOrdinalDate(dateStr: string): (r: Option<Date>)
    ensures r.Some? ==> ValidDate(r.value)
  {
    var cleaned := StripOrdinals(dateStr);
    var full := Strptime(cleaned, MonthNames);
    if full.Some? then full else Strptime(cleaned, MonthAbbrs)
  }

  /** Two decimal digits with a leading zero, as strftime writes %y, %m and %d. */
  function Pad2Zero(n: nat): (s: string)
    requires n < 100
    ensures |s| == 2 && IsDigits(s) && DigitsValue(s) == n
  {
    var s := [DigitChar(n / 10), DigitChar(n % 10)];
    assert s[..1] == [DigitChar(n / 10)] && s[..1][..0] == "";
    assert DigitsValue(s[..1]) == n / 10;
    s
  }

  /** dt.strftime('%y%m%d'). */
  function Yymmdd(d: Date): (s: string)
    requires ValidDate(d)
    ensures |s| == 6 && IsDigits(s)
    ensures DigitsValue(s[..2]) == d.year % 100
    ensures DigitsValue(s[2..4]) == d.month && DigitsValue(s[4..]) == d.day
  {
    Pad2Zero(d.year % 100) + Pad2Zero(d.month) + Pad2Zero(d.day)
  }

  /** The date as YYYY-MM-DD, four-digit year. */
  function IsoDate(d: Date): string
    requires ValidDate(d)
  {
    Pad2Zero(d.year / 100) + DateTail(d)
  }

  /** YY-MM-DD: the part of the ISO date after the century. */
  function DateTail(d: Date): string
    requires ValidDate(d)
  {
    Pad2Zero(d.year % 100) + "-" + Pad2Zero(d.month) + "-" + Pad2Zero(d.day)
  }

  lemma YymmddParts(d: Date)
    requires ValidDate(d)
    ensures Yymmdd(d)[..2] == Pad2Zero(d.year % 100)
    ensures Yymmdd(d)[2..4] == Pad2Zero(d.month)
    ensures Yymmdd(d)[4..6] == Pad2Zero(d.day)
  {
  }

  /** Two-digit fields with the same text have the same value. */
  lemma Pad2ZeroInjective(a: nat, b: nat)
    requires a < 100 && b < 100
    ensures Pad2Zero(a) == Pad2Zero(b) <==> a == b
  {
  }

  /** A date text with century c in front of the date's YY-MM-DD names the date
      exactly when c is the date's century. */
  lemma CenturyPrefix(d: Date, c: nat)
    requires ValidDate(d) && c < 100
    ensures Pad2Zero(c) + DateTail(d) == IsoDate(d) <==> d.year / 100 == c
  {
    PrefixCancel(Pad2Zero(c), Pad2Zero(d.year / 100), DateTail(d));
    Pad2ZeroInjective(c, d.year / 100);
  }

  lemma PrefixCancel(a: string, b: string, x: string)
    requires |a| == |b|
    ensures a + x == b + x <==> a == b
  {
    if a + x == b + x {
      assert a == (a + x)[..|a|];
      assert b == (b + x)[..|b|];
    }
  }

  // ---------------------------------------------------------------- one line

  /** [p.strip() for p in parts if p.strip()]. */
  function NonBlankStripped(parts: seq<string>): (r: seq<string>)
    ensures |r| <= |parts|
  {
    if |parts| == 0 then []
    else (if Strip(parts[0]) != "" then [Strip(parts[0])] else []) + NonBlankStripped(parts[1..])
  }

  /** [int(n) for n in parts]: None as soon as one part is not an integer. */
  function ParseInts(parts: seq<string>): (r: Option<seq<int>>)
    ensures r.Some? ==> |r.value| == |parts|
    ensures r.Some? ==> forall i :: 0 <= i < |parts| ==> ParseInt(parts[i]) == Some(r.value[i])
  {
    if |parts| == 0 then Some([])
    else match ParseInt(parts[0])
      case None => None
      case Some(n) =>
        match ParseInts(parts[1..])
          case None => None
          case Some(ns) => Some([n] + ns)
  }

  /** The list comprehension fails exactly when some part is not an integer. */
  lemma {:induction false} ParseIntsNone(parts: seq<string>)
    ensures ParseInts(parts).None? <==> exists i :: 0 <= i < |parts| && ParseInt(parts[i]).None?
  {
    if |parts| > 0 {
      ParseIntsNone(parts[1..]);
      if ParseInt(parts[0]).Some? && ParseInts(parts[1..]).None? {
        var i :| 0 <= i < |parts[1..]| && ParseInt(parts[1..][i]).None?;
        assert ParseInt(parts[i + 1]).None?;
      }
      if exists i :: 0 <= i < |parts| && ParseInt(parts[i]).None? {
        var i :| 0 <= i < |parts| && ParseInt(parts[i]).None?;
        if i > 0 {
          assert parts[1..][i - 1] == parts[i];
        }
      }
    }
  }

  /** The date text and the number fields of a line, by the tab layout when the
      stripped line holds a tab and by the space layout otherwise. */
  function SplitFields(line: string): (r: Option<(string, seq<string>)>)
  {
    if '\t' in line then
      var parts := NonBlankStripped(Split(line, '\t'));
      if |parts| < 8 then None
      else
        var dateParts := SplitWs(parts[0]);
        if |dateParts| != 3 then None
        else Some((Join(dateParts, " "), parts[1..]))
    else
      var parts := NonBlankStripped(SplitWs(line));
      if |parts| < 10 then None
      else Some((Join(parts[..3], " "), parts[3..]))
  }

  /** What convert_line reads from a line: its date and its numbers. */
  datatype Fields = Fields(date: Date, numbers: seq<int>)

  /** The reading half of convert_line: blank and comment lines, lines with too few
      fields, a date strptime refuses, a field that is not an integer, and any
      count of numbers but seven give None. */
  function ReadFields(line: string): (r: Option<Fields>)
    ensures r.Some? ==> ValidDate(r.value.date) && |r.value.numbers| == 7
    ensures r.Some? ==> IsRecordLine(line)
  {
    var l := Strip(line);
    if l == "" || StartsWith(l, "#") then None
    else match SplitFields(l)
      case None => None
      case Some((dateStr, numberParts)) =>
        match (ParseOrdinalDate(dateStr), ParseInts(numberParts))
          case (Some(d), Some(ns)) => if |ns| != 7 then None else Some(Fields(d, ns))
          case _ => None
  }

  /** The output layout: f"{date}:  {n1..n6 joined by ', ', width 2} / {n7:2d}". */
  function DrawLine(date6: string, ns: seq<int>): string
    requires |ns| == 7
  {
    date6 + ":  " + FormatNumbers(ns[..6]) + " / " + Pad2(ns[6])
  }

  /** The text after the ':' of an output line. */
  function NumbersText(ns: seq<int>): string
    requires |ns| == 7
  {
    "  " + FormatNumbers(ns[..6]) + " / " + Pad2(ns[6])
  }

  lemma FormatNumbersFree(ns: seq<nat>, c: char)
    requires !IsDigit(c) && c != ' ' && c != ','
    ensures Free(FormatNumbers(ns), c)
  {
    FormatNumbersChars(ns);
  }

  lemma Pad2Free(n: nat, c: char)
    requires !IsDigit(c) && c != ' '
    ensures Free(Pad2(n), c)
  {
    Pad2Chars(n);
  }

  /** An output line is already stripped, starts with a digit and splits on ':'
      into the date and the numbers text. */
  lemma DrawLineFields(date6: string, ns: seq<nat>)
    requires |date6| == 6 && IsDigits(date6) && |ns| == 7
    ensures Strip(DrawLine(date6, ns)) == DrawLine(date6, ns)
    ensures IsDigit(DrawLine(date6, ns)[0])
    ensures Split(DrawLine(date6, ns), ':') == [date6, NumbersText(ns)]
  {
    var f := FormatNumbers(ns[..6]);
    var p := Pad2(ns[6]);
    var rest := NumbersText(ns);
    var line := DrawLine(date6, ns);
    assert line == date6 + [':'] + rest;
    FormatNumbersFree(ns[..6], ':');
    Pad2Free(ns[6], ':');
    FreeAppend("  ", f, ':');
    FreeAppend("  " + f, " / ", ':');
    FreeAppend("  " + f + " / ", p, ':');
    assert Free(date6, ':');
    SplitCons(date6, ':', rest);
    SplitFree(rest, ':');
    Pad2Chars(ns[6]);
    assert line[|line| - 1] == p[|p| - 1];
    StripTrimmed(line);
  }

  /** The numbers text splits on '/' into the main numbers, with the spaces around
      them, and the padded bonus. */
  lemma NumbersTextSlash(ns: seq<nat>)
    requires |ns| == 7
    ensures Split(NumbersText(ns), '/') == ["  " + FormatNumbers(ns[..6]) + " ", " " + Pad2(ns[6])]
  {
    var f := FormatNumbers(ns[..6]);
    var p := Pad2(ns[6]);
    var a := "  " + f + " ";
    var b := " " + p;
    assert NumbersText(ns) == a + ['/'] + b;
    FormatNumbersFree(ns[..6], '/');
    Pad2Free(ns[6], '/');
    FreeAppend("  ", f, '/');
    FreeAppend("  " + f, " ", '/');
    FreeAppend(" ", p, '/');
    SplitCons(a, '/', b);
    SplitFree(b, '/');
  }

  /** Turning the commas of the numbers text into spaces gives the spaced numbers
      followed by the slash and the padded bonus. */
  lemma NumbersTextSpaced(ns: seq<nat>)
    requires |ns| == 7
    ensures ReplaceChar(NumbersText(ns), ',', " ") ==
              "  " + (SpacedNumbers(ns[..6]) + (" / " + Pad2(ns[6])))
  {
    var f := FormatNumbers(ns[..6]);
    var p := Pad2(ns[6]);
    var tail := " / " + p;
    assert NumbersText(ns) == "  " + f + tail;
    ReplaceCharAppend("  " + f, tail, ',', " ");
    ReplaceCharAppend("  ", f, ',', " ");
    Pad2Free(ns[6], ',');
    FreeAppend(" / ", p, ',');
    ReplaceCharFree(tail, ',', " ");
    ReplaceCharFree("  ", ',', " ");
    SeqAssoc("  ", SpacedNumbers(ns[..6]), tail);
  }

  /** With its commas turned into spaces, the numbers text splits into the decimal
      words of the main numbers, the "/" and the bonus. */
  lemma NumbersTextWords(ns: seq<nat>)
    requires |ns| == 7
    ensures SplitWs(ReplaceChar(Strip(NumbersText(ns)), ',', " ")) ==
              NatStrings(ns[..6]) + ["/", NatToString(ns[6])]
  {
    var tail := " / " + Pad2(ns[6]);
    var sp := SpacedNumbers(ns[..6]);
    SplitWsReplaceStrip(NumbersText(ns), ',');
    NumbersTextSpaced(ns);
    SplitWsLeadingSpace("  ", sp + tail);
    SplitWsSpacedNumbers(ns[..6], tail);
    TailWords(ns[6]);
  }

  lemma TailWords(b: nat)
    ensures SplitWs(" / " + Pad2(b)) == ["/", NatToString(b)]
  {
    var p := Pad2(b);
    assert " / " + p == " " + "/" + (" " + p);
    SplitWsWord(" ", "/", " " + p);
    SplitWsLeadingSpace(" ", p);
    SplitWsPad2(b, "");
    assert p + "" == p;
  }

  /** convert_line: the fields read from the line, written in the output layout. */
  function ConvertLine(line: string): (r: Option<string>)
    ensures r.Some? <==> ReadFields(line).Some?
    ensures r.Some? ==> IsRecordLine(line)
  {
    match ReadFields(line)
      case None => None
      case Some(f) => Some(DrawLine(Yymmdd(f.date), f.numbers))
  }

  const FileHeader: seq<string> := ["# Lottery Draw History - 6/49 Canada",
                                    "# Format: YYMMDD:  N1, N2, N3, N4, N5, N6 / Bonus",
                                    "#"]

  /** convert_file: a missing input file is reported and nothing is written (the
      result is False). Otherwise every line is converted in turn; converted lines are
      kept in order and a failed line that is neither blank nor a comment is counted
      as skipped. The output file is the header followed by the converted lines. */
  method ConvertFile(file: Option<seq<string>>) returns (ok: bool, written: Option<seq<string>>, skipped: nat)
    ensures ok <==> file.Some?
    ensures ok <==> written.Some?
    ensures file.None? ==> skipped == 0
    ensures file.Some? ==> written == Some(FileHeader + Accepted(file.value, ConvertLine))
    ensures file.Some? ==> skipped == SkippedCount(file.value, ConvertLine)
  {
    if file.None? {
      return false, None, 0;
    }
    var lines := file.value;
    var converted: seq<string> := [];
    skipped := 0;
    var i := 0;
    while i < |lines|
      invariant 0 <= i <= |lines|
      invariant converted == Accepted(lines[..i], ConvertLine)
      invariant skipped == SkippedCount(lines[..i], ConvertLine)
    {
      AcceptedStep(lines, i, ConvertLine);
      var c := ConvertLine(lines[i]);
      if c.Some? {
        converted := converted + [c.value];
      } else if IsRecordLine(lines[i]) {
        skipped := skipped + 1;
      }
      i := i + 1;
    }
    TakeAll(lines);
    ok, written := true, Some(FileHeader + converted);
  }

  /** Every line that is neither blank nor a comment is either converted or counted
      as skipped. */
  lemma ConvertAccounting(lines: seq<string>)
    ensures |Accepted(lines, ConvertLine)| + SkippedCount(lines, ConvertLine) == RecordLineCount(lines)
  {
    Accounting(lines, ConvertLine);
  }
}
