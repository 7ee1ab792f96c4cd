/** The general text-to-JSON converter: each "YYMMDD:  n1, ..., n6 / bonus" line
    becomes a draw record dated in the 2000s, numbers outside 1..49 are dropped
    before the count of six is checked, the draws are sorted by date, and the
    command line chooses the input and output files. */
module JsonConverter {
  import opened Text
  import opened DrawText
  import opened Sorting
  import opened DrawRecords
  import opened FormatConverter

  /** parse_draw_line: None for a blank or comment line, a line without ':', a date
      field that is not six characters, a numbers part that does not split on '/'
      into two, a bonus that is not all digits, fewer or more than six main numbers
      within 1..49, or a bonus outside 1..49. */
  function DrawOfLine(line: string): (r: Option<Draw>)
    ensures r.Some? ==> IsRecordLine(line)
    ensures r.Some? ==> |r.value.numbers| == 6 && 1 <= r.value.bonus <= 49
    ensures r.Some? ==> forall x :: x in r.value.numbers ==> 1 <= x <= 49
    ensures r.Some? ==> r.value.holes <= 5 && r.value.odd <= 6
    ensures r.Some? ==> |r.value.date| == 10 && r.value.date[..2] == "20"
  {
    var l := Strip(line);
    if l == "" || StartsWith(l, "#") then None
    else if ':' !in l then None
    else
      SplitHasSep(l, ':');
      var parts := Split(l, ':');
      var date := Strip(parts[0]);
      if |date| != 6 then None
      else
        var numsPart := Split(parts[1], '/');
        if |numsPart| != 2 then None
        else
          var numbers := InRange(DigitTokens(Split(numsPart[0], ',')), 1, 49);
          var bonusStr := Strip(numsPart[1]);
          if !IsDigits(bonusStr) then None
          else
            var bonus := DigitsValue(bonusStr);
            if |numbers| != 6 || bonus < 1 || bonus > 49 then None
            else
              InRangeMembers(DigitTokens(Split(numsPart[0], ',')), 1, 49);
              Some(Draw(DashedDate("20", date), numbers, bonus, Gaps(Sort(numbers)), OddCount(numbers)))
  }

  /** parse_draw_line with its number-collecting and holes loops. */
  method ParseDrawLine(line: string) returns (r: Option<Draw>)
    ensures r == DrawOfLine(line)
  {
    var l := Strip(line);
    if l == "" || StartsWith(l, "#") {
      return None;
    }
    if ':' !in l {
      return None;
    }
    SplitHasSep(l, ':');
    var parts := Split(l, ':');
    var date := Strip(parts[0]);
    if |date| != 6 {
      return None;
    }
    var numsPart := Split(parts[1], '/');
    if |numsPart| != 2 {
      return None;
    }
    var numbers := CollectInRange(Split(numsPart[0], ','), 1, 49);
    var bonusStr := Strip(numsPart[1]);
    if !IsDigits(bonusStr) {
      return None;
    }
    var bonus := DigitsValue(bonusStr);
    if |numbers| != 6 || bonus < 1 || bonus > 49 {
      return None;
    }
    var holes := CountHoles(Sort(numbers));
    r := Some(Draw(DashedDate("20", date), numbers, bonus, holes, OddCount(numbers)));
  }

  /** convert_txt_to_json: None when the input file is missing; otherwise the
      converted lines in date order (equal dates keep their file order) and the count
      of lines that are neither blank, comments nor convertible. */
  method ConvertDrawsFile(input: Option<seq<string>>) returns (result: Option<Conversion>)
    ensures input.None? ==> result.None?
    ensures input.Some? ==> result == Some(Conversion(SortByDate(Accepted(input.value, DrawOfLine)),
                                                      SkippedCount(input.value, DrawOfLine)))
  {
    if input.None? {
      return None;
    }
    var lines := input.value;
    var draws: seq<Draw> := [];
    var skipped := 0;
    var i := 0;
    while i < |lines|
      invariant 0 <= i <= |lines|
      invariant draws == Accepted(lines[..i], DrawOfLine)
      invariant skipped == SkippedCount(lines[..i], DrawOfLine)
    {
      AcceptedStep(lines, i, DrawOfLine);
      var d := ParseDrawLine(lines[i]);
      if d.Some? {
        draws := draws + [d.value];
      } else if IsRecordLine(lines[i]) {
        skipped := skipped + 1;
      }
      i := i + 1;
    }
    TakeAll(lines);
    result := Some(Conversion(SortByDate(draws), skipped));
  }

  /** Every line that is neither blank nor a comment is either converted or skipped. */
  lemma JsonAccounting(lines: seq<string>)
    ensures |Accepted(lines, DrawOfLine)| + SkippedCount(lines, DrawOfLine) == RecordLineCount(lines)
  {
    Accounting(lines, DrawOfLine);
  }

  /** The main numbers of the output layout, read with the range check. */
  lemma MainNumbersOfDrawLine(ns: seq<nat>)
    requires |ns| == 7 && forall i :: 0 <= i < 7 ==> 1 <= ns[i] <= 49
    ensures InRange(DigitTokens(Split("  " + FormatNumbers(ns[..6]) + " ", ',')), 1, 49) == ns[..6]
  {
    FormatNumbersParseBetween(ns[..6], "  ", " ");
    InRangeAll(ns[..6], 1, 49);
  }

  /** The bonus of the output layout, stripped. */
  lemma BonusOfDrawLine(b: nat)
    ensures Strip(" " + Pad2(b)) == NatToString(b)
    ensures IsDigits(NatToString(b)) && DigitsValue(NatToString(b)) == b
  {
    StripSpacePrefix(" ", Pad2(b));
    Pad2OfNat(b);
  }

  /** Round trip: a line in the format converter's output layout, with a six-digit
      date and numbers within 1..49, parses back to its date in the 2000s, its six
      main numbers, its bonus and the derived counts. */
  lemma DrawOfLineOfDrawLine(date6: string, ns: seq<nat>)
    requires |date6| == 6 && IsDigits(date6) && |ns| == 7
    requires forall i :: 0 <= i < 7 ==> 1 <= ns[i] <= 49
    ensures DrawOfLine(DrawLine(date6, ns)) ==
              Some(Draw(DashedDate("20", date6), ns[..6], ns[6], Gaps(Sort(ns[..6])), OddCount(ns[..6])))
  {
    var line := DrawLine(date6, ns);
    DrawLineFields(date6, ns);
    assert !StartsWith(line, "#");
    SplitHasSep(line, ':');
    DigitsHaveNoSpace(date6);
    StripNoSpace(date6);
    NumbersTextSlash(ns);
    MainNumbersOfDrawLine(ns);
    BonusOfDrawLine(ns[6]);
  }

  // ---------------------------------------------------------------- command line

  /** What main does with sys.argv: print the usage and exit 0, or convert. */
  datatype JsonCommand = JsonUsage | JsonConvert(input: string, output: string)

  /** The default output name as written: every ".txt" in a name ending in ".txt"
      becomes ".json"; any other name gets ".json" appended. */
  function JsonOutputNameAsWritten(input: string): (out: string)
    ensures EndsWith(out, ".json")
    ensures !EndsWith(input, ".txt") ==> |out| == |input| + 5 && out[..|input|] == input
  {
    ReplaceTxtKeepsSuffix(input);
    if EndsWith(input, ".txt") then ReplaceStr(input, ".txt", ".json") else input + ".json"
  }

  /** The replacement of every ".txt" leaves a name ending in ".txt" ending in ".json". */
  lemma ReplaceTxtKeepsSuffix(input: string)
    ensures EndsWith(input, ".txt") ==> EndsWith(ReplaceStr(input, ".txt", ".json"), ".json")
  {
    if EndsWith(input, ".txt") {
      assert ".txt"[1..] == "txt";
      ReplaceStrKeepsSuffix(input, ".txt", ".json");
    }
  }

  /** A name with ".txt" inside it, such as "draws.txt.txt", has that occurrence
      rewritten too: the result is "draws.json.json", not "draws.txt.json". */
  lemma JsonOutputNameAsWrittenRewritesStem(stem: string)
    requires Free(stem, '.')
    ensures JsonOutputNameAsWritten(stem + ".txt.txt") == stem + ".json.json"
    ensures JsonOutputNameAsWritten(stem + ".txt.txt") != JsonOutputName(stem + ".txt.txt")
  {
    var name := stem + ".txt.txt";
    assert name[|name| - 4..] == ".txt";
    ReplaceStrFreeHead(stem, ".txt.txt", ".txt", ".json");
    ReplaceStrMatch(".txt", ".txt", ".json");
    ReplaceStrMatch(".txt.txt", ".txt", ".json");
    assert ".txt.txt"[4..] == ".txt";
    assert ".json" + (".json" + "") == ".json.json";
    var fixed := JsonOutputName(name);
    assert fixed == stem + ".txt" + ".json";
    assert fixed[|stem| + 1] == 't';
    assert (stem + ".json.json")[|stem| + 1] == 'j';
  }

  /** The default output name: the final ".txt" becomes ".json"; any other name gets
      ".json" appended. */
  function JsonOutputName(input: string): (out: string)
    ensures EndsWith(out, ".json")
    ensures EndsWith(input, ".txt") ==> |out| == |input| + 1 && out[..|input| - 4] == input[..|input| - 4]
    ensures !EndsWith(input, ".txt") ==> |out| == |input| + 5
    ensures !EndsWith(input, ".txt") ==> out[..|input|] == input
  {
    if EndsWith(input, ".txt") then input[..|input| - 4] + ".json" else input + ".json"
  }

  /** The two agree whenever the name holds no other '.' than its extension's. */
  lemma JsonOutputNameAgrees(stem: string)
    requires Free(stem, '.')
    ensures JsonOutputNameAsWritten(stem + ".txt") == JsonOutputName(stem + ".txt")
  {
    var name := stem + ".txt";
    assert EndsWith(name, ".txt") by {
      assert name[|name| - 4..] == ".txt";
    }
    ReplaceStrFreeHead(stem, ".txt", ".txt", ".json");
    ReplaceStrMatch("", ".txt", ".json");
    assert ".txt" + "" == ".txt";
    assert name[..|name| - 4] == stem;
  }

  /** main: no argument gives the usage; the second argument, when present, names the
      output, otherwise it is derived from the input name as the code writes it. */
  function ParseJsonArgs(argv: seq<string>): (c: JsonCommand)
    ensures |argv| < 2 <==> c.JsonUsage?
    ensures c.JsonConvert? ==> c.input == argv[1]
    ensures |argv| > 2 ==> c.JsonConvert? && c.output == argv[2]
    ensures |argv| == 2 ==> c.JsonConvert? && c.output == JsonOutputNameAsWritten(argv[1])
    ensures |argv| == 2 ==> EndsWith(c.output, ".json")
  {
    if |argv| < 2 then JsonUsage
    else JsonConvert(argv[1], if |argv| > 2 then argv[2] else JsonOutputNameAsWritten(argv[1]))
  }
}
