/** The 6/49 Canada text-to-JSON converter: each "YYMMDD: n1, n2, n3, n4, n5, n6, bonus"
    line becomes a draw record with a four-digit year chosen by a 50-year pivot,
    the draws are sorted by date, and lines that do not convert are counted. */
module CaConverter {
  import opened Text
  import opened DrawText
  import opened Sorting
  import opened DrawRecords
  import opened FormatConverter

  /** The century of a two-character year: int(yy) < 50 gives "20", otherwise "19";
      None where int() raises. */
  function CaCentury(yy: string): (r: Option<string>)
    ensures r.Some? <==> ParseInt(yy).Some?
    ensures r.Some? ==> r.value == (if ParseInt(yy).value < 50 then "20" else "19")
  {
    match ParseInt(yy)
      case None => None
      case Some(v) => Some(if v < 50 then "20" else "19")
  }

  /** The numbers after the ':': commas become spaces, the text is split on
      whitespace and the all-digit words are read in order. */
  function CaNumbers(field: string): seq<nat>
  {
    DigitTokens(SplitWs(ReplaceChar(Strip(field), ',', " ")))
  }

  /** parse_txt_line: None for a blank or comment line, for a line that does not
      split on ':' into exactly two parts, for a date field that is not six
      characters or whose year is not an integer, and for a line without exactly
      seven numbers; otherwise the draw of the first six numbers and the bonus. */
  function TxtLineDraw(line: string): (r: Option<Draw>)
    ensures r.Some? ==> IsRecordLine(line)
    ensures r.Some? ==> |r.value.numbers| == 6 && r.value.holes <= 5 && r.value.odd <= 6
    ensures r.Some? ==> |r.value.date| == 10
  {
    var l := Strip(line);
    if l == "" || StartsWith(l, "#") then None
    else
      var parts := Split(l, ':');
      if |parts| != 2 then None
      else
        var date := Strip(parts[0]);
        if |date| != 6 then None
        else match CaCentury(date[..2])
          case None => None
          case Some(century) =>
            var numbers := CaNumbers(parts[1]);
            if |numbers| != 7 then None
            else
              var main := numbers[..6];
              Some(Draw(DashedDate(century, date), main, numbers[6], Gaps(Sort(main)), OddCount(main)))
  }

  /** parse_txt_line with its holes loop. */
  method ParseTxtLine(line: string) returns (r: Option<Draw>)
    ensures r == TxtLineDraw(line)
  {
    var l := Strip(line);
    if l == "" || StartsWith(l, "#") {
      return None;
    }
    var parts := Split(l, ':');
    if |parts| != 2 {
      return None;
    }
    var date := Strip(parts[0]);
    if |date| != 6 {
      return None;
    }
    var century := CaCentury(date[..2]);
    if century.None? {
      return None;
    }
    var numbers := CaNumbers(parts[1]);
    if |numbers| != 7 {
      return None;
    }
    var main := numbers[..6];
    var holes := CountHoles(Sort(main));
    r := Some(Draw(DashedDate(century.value, date), main, numbers[6], holes, OddCount(main)));
  }

  /** convert_txt_to_json: None when the input file is missing; otherwise every
      converted line in date order (lines with equal dates keep their file order)
      and the count of lines that are neither blank, comments nor convertible. */
  method ConvertTxtToJson(input: Option<seq<string>>) returns (result: Option<Conversion>)
    ensures input.None? ==> result.None?
    ensures input.Some? ==> result == Some(Conversion(SortByDate(Accepted(input.value, TxtLineDraw)),
                                                      SkippedCount(input.value, TxtLineDraw)))
  {
    if input.None? {
      return None;
    }
    var lines := input.value;
    var draws: seq<Draw> := [];
    var skipped := 0;
    var i := 0;
    while i < |lines|
      invariant 0 <= i <= |lines|
      invariant draws == Accepted(lines[..i], TxtLineDraw)
      invariant skipped == SkippedCount(lines[..i], TxtLineDraw)
    {
      AcceptedStep(lines, i, TxtLineDraw);
      var d := ParseTxtLine(lines[i]);
      if d.Some? {
        draws := draws + [d.value];
      } else if IsRecordLine(lines[i]) {
        skipped := skipped + 1;
      }
      i := i + 1;
    }
    TakeAll(lines);
    result := Some(Conversion(SortByDate(draws), skipped));
  }

  /** Every line that is neither blank nor a comment is either converted or skipped. */
  lemma CaAccounting(lines: seq<string>)
    ensures |Accepted(lines, TxtLineDraw)| + SkippedCount(lines, TxtLineDraw) == RecordLineCount(lines)
  {
    Accounting(lines, TxtLineDraw);
  }

  /** A two-digit year reads as 20yy below 50 and as 19yy from 50 on. */
  lemma CaCenturyOfDigits(yy: string)
    requires IsDigits(yy)
    ensures CaCentury(yy) == Some(if DigitsValue(yy) < 50 then "20" else "19")
  {
    ParseIntOfDigits(yy);
  }

  /** The words after a slash: the slash reads as no number, the bonus as itself. */
  lemma SlashBonusTokens(b: nat)
    ensures DigitTokens(["/", NatToString(b)]) == [b]
  {
    NatToStringDigits(b);
    DigitsHaveNoSpace(NatToString(b));
    StripNoSpace(NatToString(b));
    assert Strip("/") == "/" by { StripNoSpace("/"); }
    assert ["/", NatToString(b)][1..] == [NatToString(b)];
  }

  /** The numbers of a line written by the format converter are read back in full:
      six main numbers followed by the bonus. */
  lemma CaNumbersOfDrawLine(ns: seq<nat>)
    requires |ns| == 7
    ensures CaNumbers(NumbersText(ns)) == ns
  {
    NumbersTextWords(ns);
    DigitTokensAppend(NatStrings(ns[..6]), ["/", NatToString(ns[6])]);
    DigitTokensOfNatStrings(ns[..6]);
    SlashBonusTokens(ns[6]);
    SnocLast(ns);
  }

  /** Round trip: a line in the format converter's output layout, with a six-digit
      date and non-negative numbers, parses back to its date (century by the pivot),
      its six main numbers, its bonus and the derived counts. */
  lemma TxtLineDrawOfDrawLine(date6: string, ns: seq<nat>)
    requires |date6| == 6 && IsDigits(date6) && |ns| == 7
    ensures TxtLineDraw(DrawLine(date6, ns)) ==
              Some(Draw(DashedDate(if DigitsValue(date6[..2]) < 50 then "20" else "19", date6),
                        ns[..6], ns[6], Gaps(Sort(ns[..6])), OddCount(ns[..6])))
  {
    var line := DrawLine(date6, ns);
    DrawLineFields(date6, ns);
    assert !StartsWith(line, "#");
    DigitsHaveNoSpace(date6);
    StripNoSpace(date6);
    CaCenturyOfDigits(date6[..2]);
    CaNumbersOfDrawLine(ns);
  }
}
