/** The converters chained: a line written by the format converter read back by the
    two text-to-JSON converters, which agree on everything but the century. */
module ConverterPipeline {
  import opened Text
  import opened DrawText
  import opened Sorting
  import opened DrawRecords
  import opened FormatConverter
  import opened CaConverter
  import opened JsonConverter

  /** On a line in the output layout with numbers in 1..49 both parsers succeed and
      read the same numbers, bonus and counts; their dates agree exactly when the
      two-digit year is below 50. */
  lemma ParsersAgreeOnDrawLine(date6: string, ns: seq<nat>)
    requires |date6| == 6 && IsDigits(date6) && |ns| == 7
    requires forall i :: 0 <= i < 7 ==> 1 <= ns[i] <= 49
    ensures var line := DrawLine(date6, ns);
            var a, b := TxtLineDraw(line), DrawOfLine(line);
            && a.Some? && b.Some?
            && a.value.numbers == b.value.numbers && a.value.bonus == b.value.bonus
            && a.value.holes == b.value.holes && a.value.odd == b.value.odd
            && (a.value.date == b.value.date <==> DigitsValue(date6[..2]) < 50)
  {
    TxtLineDrawOfDrawLine(date6, ns);
    DrawOfLineOfDrawLine(date6, ns);
    PivotAgreesWithFixed(date6);
  }

  /** The pivot century and the fixed "20" give the same dashed date exactly when
      the two-digit year is below 50. */
  lemma PivotAgreesWithFixed(date6: string)
    requires |date6| == 6 && IsDigits(date6[..2])
    ensures var c := if DigitsValue(date6[..2]) < 50 then "20" else "19";
            DashedDate(c, date6) == DashedDate("20", date6) <==> DigitsValue(date6[..2]) < 50
  {
    var c := if DigitsValue(date6[..2]) < 50 then "20" else "19";
    if DashedDate(c, date6) == DashedDate("20", date6) {
      assert DashedDate(c, date6)[..2] == c;
    }
  }

  /** The dashed date of a converted date, with a given century in front. */
  lemma DashedYymmdd(c: string, d: Date)
    requires ValidDate(d)
    ensures DashedDate(c, Yymmdd(d)) == c + DateTail(d)
  {
    YymmddParts(d);
    var y, m, dd := Pad2Zero(d.year % 100), Pad2Zero(d.month), Pad2Zero(d.day);
    Regroup(c, y + "-", m + "-", dd);
  }

  lemma CenturyTexts()
    ensures Pad2Zero(20) == "20" && Pad2Zero(19) == "19"
  {
  }

  /** The pivot rule names the right century exactly for the years 1950 to 2049. */
  lemma PivotCentury(year: nat)
    requires year <= 9999
    ensures year / 100 == (if year % 100 < 50 then 20 else 19) <==> 1950 <= year <= 2049
  {
    var q, r := year / 100, year % 100;
    assert year == 100 * q + r;
  }

  /** A converted line with numbers in 1..49 reads back through the general
      converter with its numbers and bonus; its date is the ISO date of the input
      exactly when the year lies in 2000..2099. */
  lemma ConvertThenJson(line: string)
    requires ReadFields(line).Some?
    requires forall i :: 0 <= i < 7 ==> 1 <= ReadFields(line).value.numbers[i] <= 49
    ensures ConvertLine(line).Some? && DrawOfLine(ConvertLine(line).value).Some?
    ensures var f, r := ReadFields(line).value, DrawOfLine(ConvertLine(line).value).value;
            r.numbers == f.numbers[..6] && r.bonus == f.numbers[6]
            && (r.date == IsoDate(f.date) <==> 2000 <= f.date.year <= 2099)
  {
    var f := ReadFields(line).value;
    var ns: seq<nat> := f.numbers;
    DrawOfLineOfDrawLine(Yymmdd(f.date), ns);
    FixedCentury(f.date);
  }

  /** The fixed "20" in front of a converted date gives its ISO date exactly in the
      years 2000 to 2099. */
  lemma FixedCentury(d: Date)
    requires ValidDate(d)
    ensures DashedDate("20", Yymmdd(d)) == IsoDate(d) <==> 2000 <= d.year <= 2099
  {
    DashedYymmdd("20", d);
    CenturyTexts();
    CenturyPrefix(d, 20);
  }

  /** The same for the 6/49 Canada converter: its numbers and bonus are read back,
      and its date is the ISO date of the input exactly when the year lies in
      1950..2049. */
  lemma ConvertThenCa(line: string)
    requires ReadFields(line).Some?
    requires forall i :: 0 <= i < 7 ==> 0 <= ReadFields(line).value.numbers[i]
    ensures ConvertLine(line).Some? && TxtLineDraw(ConvertLine(line).value).Some?
    ensures var f, r := ReadFields(line).value, TxtLineDraw(ConvertLine(line).value).value;
            r.numbers == f.numbers[..6] && r.bonus == f.numbers[6]
            && (r.date == IsoDate(f.date) <==> 1950 <= f.date.year <= 2049)
  {
    var f := ReadFields(line).value;
    var ns: seq<nat> := f.numbers;
    TxtLineDrawOfDrawLine(Yymmdd(f.date), ns);
    PivotedCentury(f.date);
  }

  /** The century the pivot rule puts in front of a converted date gives its ISO
      date exactly in the years 1950 to 2049. */
  lemma PivotedCentury(d: Date)
    requires ValidDate(d)
    ensures var c := if DigitsValue(Yymmdd(d)[..2]) < 50 then "20" else "19";
            DashedDate(c, Yymmdd(d)) == IsoDate(d) <==> 1950 <= d.year <= 2049
  {
    var y := d.year;
    var century := if y % 100 < 50 then 20 else 19;
    var c := if DigitsValue(Yymmdd(d)[..2]) < 50 then "20" else "19";
    CenturyTexts();
    assert c == Pad2Zero(century);
    DashedYymmdd(c, d);
    CenturyPrefix(d, century);
    PivotCentury(y);
  }
}
