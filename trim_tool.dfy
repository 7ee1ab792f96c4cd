/** The combination trimmer: it removes from a combination file, binary or text, every
    combination that holds a number the user enters, one number after another, each
    pass reading the previous pass's output. Files are values here: a binary file is
    its bytes, a text file its lines; prompts and progress output are left out. */
module TrimTool {
  import opened Text
  import opened ByteCodec
  import opened DrawText

  // ---------------------------------------------------------------- reading a text record

  /** The values of the parts that are all digits, in order (part.isdigit(), with no
      stripping of the part). */
  function PartValues(parts: seq<string>): (r: seq<nat>)
    ensures |r| <= |parts|
  {
    if |parts| == 0 then []
    else
      var last := parts[|parts| - 1];
      PartValues(parts[..|parts| - 1]) + (if IsDigits(last) then [DigitsValue(last)] else [])
  }

  /** read_variant_text(line): strip the line, delete every space, split on ',' and
      keep the parts that are all digits. */
  function ReadVariantText(line: string): seq<nat>
  {
    PartValues(Split(ReplaceChar(Strip(line), ' ', ""), ','))
  }

  /** The loop of read_variant_text, appending the value of every all-digit part. */
  method ReadVariant(line: string) returns (variant: seq<nat>)
    ensures variant == ReadVariantText(line)
  {
    var parts := Split(ReplaceChar(Strip(line), ' ', ""), ',');
    variant := [];
    var i := 0;
    while i < |parts|
      invariant 0 <= i <= |parts|
      invariant variant == PartValues(parts[..i])
    {
      assert parts[..i + 1][..i] == parts[..i];
      if IsDigits(parts[i]) {
        variant := variant + [DigitsValue(parts[i])];
      }
      i := i + 1;
    }
    TakeAll(parts);
  }

  lemma {:induction false} PartValuesOfNumbers(ns: seq<nat>)
    ensures PartValues(NatStrings(ns)) == ns
  {
    if |ns| > 0 {
      var ss := NatStrings(ns);
      var init := ns[..|ns| - 1];
      assert ss[..|ss| - 1] == NatStrings(init);
      PartValuesOfNumbers(init);
      NatToStringDigits(ns[|ns| - 1]);
      assert ns == init + [ns[|ns| - 1]];
    }
  }

  lemma Pad2Blanks(n: nat)
    ensures OnlyBlanks(Pad2(n))
    ensures ReplaceChar(Pad2(n), ' ', "") == NatToString(n)
  {
    var s := NatToString(n);
    NatToStringDigits(n);
    assert Free(s, ' ');
    RemoveCharFree(s, ' ');
    if |s| < 2 {
      ReplaceCharAppend(" ", s, ' ', "");
    }
  }

  /** With the spaces taken out, a rendered combination is its numbers joined by ','. */
  lemma {:induction false} FormatNumbersBlanks(ns: seq<nat>)
    ensures OnlyBlanks(FormatNumbers(ns))
    ensures ReplaceChar(FormatNumbers(ns), ' ', "") == Join(NatStrings(ns), ",")
    decreases |ns|
  {
    if |ns| == 0 {
      FormatNumbersEmpty();
    } else if |ns| == 1 {
      FormatNumbersOne(ns[0]);
      Pad2Blanks(ns[0]);
    } else {
      FormatNumbersBlanks(ns[1..]);
      FormatNumbersBlanksStep(ns);
    }
  }

  lemma FormatNumbersBlanksStep(ns: seq<nat>)
    requires |ns| >= 2
    requires OnlyBlanks(FormatNumbers(ns[1..]))
    requires ReplaceChar(FormatNumbers(ns[1..]), ' ', "") == Join(NatStrings(ns[1..]), ",")
    ensures OnlyBlanks(FormatNumbers(ns))
    ensures ReplaceChar(FormatNumbers(ns), ' ', "") == Join(NatStrings(ns), ",")
  {
    var rest := ns[1..];
    var p := Pad2(ns[0]);
    FormatNumbersCons(ns);
    Pad2Blanks(ns[0]);
    OnlyBlanksAppend(p, ", ");
    OnlyBlanksAppend(p + ", ", FormatNumbers(rest));
    ReplaceCharAppend(p + ", ", FormatNumbers(rest), ' ', "");
    ReplaceCharAppend(p, ", ", ' ', "");
    CommaSpaceRemoved();
    NatStringsCons(ns);
  }

  lemma CommaSpaceRemoved()
    ensures ReplaceChar(", ", ' ', "") == ","
  {
  }

  /** read_variant_text reads back every combination written in the common layout
      (', '.join(f'{n:2d}' ...)): the text form of combinations round-trips. */
  lemma ReadFormatted(ns: seq<nat>)
    ensures ReadVariantText(FormatNumbers(ns)) == ns
  {
    var f := FormatNumbers(ns);
    FormatNumbersBlanks(ns);
    StripThenRemoveSpaces(f);
    var ss := NatStrings(ns);
    if |ns| == 0 {
      assert Split("", ',') == [""];
    } else {
      forall i | 0 <= i < |ss| ensures Free(ss[i], ',') {
        NatToStringDigits(ns[i]);
      }
      JoinSplit(ss, ',');
      PartValuesOfNumbers(ns);
    }
  }

  /** trim_variant(variant, number): whether the combination holds the number. */
  predicate TrimVariant(variant: seq<int>, number: int)
  {
    number in variant
  }

  // ---------------------------------------------------------------- the binary pass

  /** The numbers a binary record stands for (bin_to_var over the whole record). */
  function Decode(r: seq<Byte>): seq<Byte>
  {
    BinToVar(r, |r|)
  }

  /** The records kept by one binary pass: those whose numbers do not include num,
      in their original order. */
  function KeptRecords(rs: seq<seq<Byte>>, num: int): (kept: seq<seq<Byte>>)
    ensures |kept| <= |rs|
  {
    if |rs| == 0 then []
    else
      var last := rs[|rs| - 1];
      KeptRecords(rs[..|rs| - 1], num) + (if TrimVariant(Decode(last), num) then [] else [last])
  }

  /** A record is kept exactly when it is one of the input records without num. */
  lemma {:induction false} KeptRecordsMembers(rs: seq<seq<Byte>>, num: int)
    ensures forall r :: r in KeptRecords(rs, num) <==> r in rs && num !in Decode(r)
  {
    if |rs| > 0 {
      KeptRecordsMembers(rs[..|rs| - 1], num);
      assert rs == rs[..|rs| - 1] + [rs[|rs| - 1]];
    }
  }

  lemma KeptRecordsSnoc(rs: seq<seq<Byte>>, r: seq<Byte>, num: int)
    ensures KeptRecords(rs + [r], num) == KeptRecords(rs, num) + (if num in Decode(r) then [] else [r])
  {
    assert (rs + [r])[..|rs|] == rs;
  }

  /** Kept records keep the width of the records they come from. */
  lemma {:induction false} KeptRecordsWidth(rs: seq<seq<Byte>>, num: int, m: nat)
    requires forall i :: 0 <= i < |rs| ==> |rs[i]| == m
    ensures forall i :: 0 <= i < |KeptRecords(rs, num)| ==> |KeptRecords(rs, num)[i]| == m
  {
    if |rs| > 0 {
      KeptRecordsWidth(rs[..|rs| - 1], num, m);
    }
  }

  lemma FlattenSnoc(rs: seq<seq<Byte>>, r: seq<Byte>)
    ensures Flatten(rs + [r]) == Flatten(rs) + r
  {
    FlattenAppend(rs, [r]);
    assert Flatten([r]) == r + Flatten([]);
  }

  /** One read of max_play bytes: the next record, and the records after it. */
  lemma RecordsStep(data: seq<Byte>, pos: nat, m: nat)
    requires m > 0 && pos + m <= |data|
    ensures Records(data[pos..], m) == [data[pos..pos + m]] + Records(data[pos + m..], m)
  {
    assert data[pos..][..m] == data[pos..pos + m];
    assert data[pos..][m..] == data[pos + m..];
  }

  /** process_binary on the bytes of a file: read max_play bytes at a time until a
      read comes back short, write every record that does not hold num unchanged, and
      count the records read and the records trimmed. */
  method ProcessBinary(data: seq<Byte>, num: int, maxPlay: nat)
    returns (out: seq<Byte>, cntLine: nat, cntTrim: nat)
    requires maxPlay > 0
    ensures var rs := Records(data, maxPlay);
            && out == Flatten(KeptRecords(rs, num))
            && cntLine == |rs|
            && cntTrim == cntLine - |KeptRecords(rs, num)|
  {
    ghost var read: seq<seq<Byte>> := [];
    out, cntLine, cntTrim := [], 0, 0;
    var pos := 0;
    while true
      invariant 0 <= pos <= |data|
      invariant Records(data, maxPlay) == read + Records(data[pos..], maxPlay)
      invariant cntLine == |read|
      invariant out == Flatten(KeptRecords(read, num))
      invariant cntTrim + |KeptRecords(read, num)| == cntLine
      decreases |data| - pos
    {
      if |data| - pos < maxPlay {
        break;
      }
      var record := data[pos..pos + maxPlay];
      RecordsStep(data, pos, maxPlay);
      var variant := BinToVar(record, maxPlay);
      assert variant == Decode(record);
      KeptRecordsSnoc(read, record, num);
      if TrimVariant(variant, num) {
        assert KeptRecords(read, num) + [] == KeptRecords(read, num);
        cntTrim := cntTrim + 1;
      } else {
        FlattenSnoc(KeptRecords(read, num), record);
        out := out + record;
      }
      read := read + [record];
      cntLine := cntLine + 1;
      pos := pos + maxPlay;
    }
    assert read + [] == read;
  }

  /** The file a binary pass writes reads back, record for record, as the kept
      records. */
  lemma ProcessBinaryReadsBack(data: seq<Byte>, num: int, maxPlay: nat)
    requires maxPlay > 0
    ensures var kept := KeptRecords(Records(data, maxPlay), num);
            Records(Flatten(kept), maxPlay) == kept
  {
    var rs := Records(data, maxPlay);
    KeptRecordsWidth(rs, num, maxPlay);
    RecordsFlatten(KeptRecords(rs, num), maxPlay);
  }

  // ---------------------------------------------------------------- the text pass

  /** The lines process_text reads as combinations: not blank, starting with a digit,
      and holding exactly max_play numbers. */
  predicate Eligible(line: string, maxPlay: int)
  {
    Strip(line) != "" && |line| > 0 && IsDigit(line[0]) && |ReadVariantText(line)| == maxPlay
  }

  /** The combination lines of a text file, which process_text counts. */
  function CountedLines(lines: seq<string>, maxPlay: int): (r: seq<string>)
    ensures |r| <= |lines|
  {
    if |lines| == 0 then []
    else
      var last := lines[|lines| - 1];
      CountedLines(lines[..|lines| - 1], maxPlay) + (if Eligible(last, maxPlay) then [last] else [])
  }

  /** The lines one text pass writes: the combination lines without num, verbatim and
      in order. */
  function KeptLines(lines: seq<string>, num: int, maxPlay: int): (r: seq<string>)
    ensures |r| <= |lines|
  {
    if |lines| == 0 then []
    else
      var last := lines[|lines| - 1];
      var keep := Eligible(last, maxPlay) && !TrimVariant(ReadVariantText(last), num);
      KeptLines(lines[..|lines| - 1], num, maxPlay) + (if keep then [last] else [])
  }

  /** A line is written exactly when it is a combination line without num. */
  lemma {:induction false} KeptLinesMembers(lines: seq<string>, num: int, maxPlay: int)
    ensures forall l :: l in KeptLines(lines, num, maxPlay) <==>
              l in lines && Eligible(l, maxPlay) && num !in ReadVariantText(l)
  {
    if |lines| > 0 {
      KeptLinesMembers(lines[..|lines| - 1], num, maxPlay);
      assert lines == lines[..|lines| - 1] + [lines[|lines| - 1]];
    }
  }

  /** Every written line is also counted, so the trimmed count is never negative. */
  lemma {:induction false} KeptLinesCounted(lines: seq<string>, num: int, maxPlay: int)
    ensures |KeptLines(lines, num, maxPlay)| <= |CountedLines(lines, maxPlay)|
  {
    if |lines| > 0 {
      KeptLinesCounted(lines[..|lines| - 1], num, maxPlay);
    }
  }

  /** process_text on the lines of a file: skip the lines that are not combinations,
      count the rest, and write the ones without num unchanged. */
  method ProcessText(lines: seq<string>, num: int, maxPlay: nat)
    returns (out: seq<string>, cntLine: nat, cntTrim: nat)
    ensures out == KeptLines(lines, num, maxPlay)
    ensures cntLine == |CountedLines(lines, maxPlay)|
    ensures cntTrim == cntLine - |out|
  {
    out, cntLine, cntTrim := [], 0, 0;
    var i := 0;
    while i < |lines|
      invariant 0 <= i <= |lines|
      invariant out == KeptLines(lines[..i], num, maxPlay)
      invariant cntLine == |CountedLines(lines[..i], maxPlay)|
      invariant cntTrim + |out| == cntLine
    {
      var line := lines[i];
      PassStep(lines, i, num, maxPlay);
      if Strip(line) == "" || !IsDigit(line[0]) {
        i := i + 1;
        continue;
      }
      var variant := ReadVariant(line);
      if |variant| != maxPlay {
        i := i + 1;
        continue;
      }
      cntLine := cntLine + 1;
      if TrimVariant(variant, num) {
        cntTrim := cntTrim + 1;
      } else {
        out := out + [line];
      }
      i := i + 1;
    }
    TakeAll(lines);
  }

  lemma PassStep(lines: seq<string>, i: nat, num: int, maxPlay: int)
    requires i < |lines|
    ensures var l := lines[i];
            && KeptLines(lines[..i + 1], num, maxPlay) == KeptLines(lines[..i], num, maxPlay)
                 + (if Eligible(l, maxPlay) && !TrimVariant(ReadVariantText(l), num) then [l] else [])
            && CountedLines(lines[..i + 1], maxPlay) == CountedLines(lines[..i], maxPlay)
                 + (if Eligible(l, maxPlay) then [l] else [])
  {
    assert lines[..i + 1][..i] == lines[..i];
  }

  /** A second text pass counts every line of the first pass's output: all of them
      are combination lines. */
  lemma {:induction false} KeptLinesAllCounted(lines: seq<string>, num: int, maxPlay: int)
    ensures CountedLines(KeptLines(lines, num, maxPlay), maxPlay) == KeptLines(lines, num, maxPlay)
  {
    if |lines| > 0 {
      var init := lines[..|lines| - 1];
      var last := lines[|lines| - 1];
      var k := KeptLines(init, num, maxPlay);
      KeptLinesAllCounted(init, num, maxPlay);
      if Eligible(last, maxPlay) && !TrimVariant(ReadVariantText(last), num) {
        assert KeptLines(lines, num, maxPlay) == k + [last];
        CountedLinesSnoc(k, last, maxPlay);
      } else {
        assert KeptLines(lines, num, maxPlay) == k;
      }
    }
  }

  lemma CountedLinesSnoc(lines: seq<string>, l: string, maxPlay: int)
    requires Eligible(l, maxPlay)
    ensures CountedLines(lines + [l], maxPlay) == CountedLines(lines, maxPlay) + [l]
  {
    assert (lines + [l])[..|lines|] == lines;
  }

  // ---------------------------------------------------------------- the trim numbers

  /** The largest number a combination can hold: 47 for 7-number games, else 49. */
  function MaxTrimNumber(maxPlay: int): int
  {
    if maxPlay == 7 then 47 else 49
  }

  /** What one entered line asks for. */
  datatype Entry = Skip | Finish | Trim(number: int)

  /** One line of the trim prompt: a line that is not an integer, or an integer
      out of [1, MaxTrimNumber], is skipped; 0 finishes; any other number is trimmed. */
  function ReadEntry(s: string, maxPlay: int): (e: Entry)
    ensures e.Trim? ==> 1 <= e.number <= MaxTrimNumber(maxPlay)
    ensures e.Finish? <==> ParseInt(s) == Some(0)
    ensures e.Trim? <==> ParseInt(s).Some? && 1 <= ParseInt(s).value <= MaxTrimNumber(maxPlay)
    ensures e.Trim? ==> ParseInt(s) == Some(e.number)
  {
    match ParseInt(s)
    case None => Skip
    case Some(v) =>
      if v == 0 then Finish
      else if v < 1 || v > MaxTrimNumber(maxPlay) then Skip
      else Trim(v)
  }

  /** The numbers trim_set_played accepts from the entered lines, in order, up to the
      first 0. Lines left over after the last one give no more numbers; whether the
      session saves anything at all depends on a 0 being entered (see Finished). */
  function AcceptedNumbers(entered: seq<string>, maxPlay: int): (nums: seq<int>)
    ensures |nums| <= |entered|
  {
    if |entered| == 0 then []
    else
      match ReadEntry(entered[0], maxPlay)
      case Skip => AcceptedNumbers(entered[1..], maxPlay)
      case Finish => []
      case Trim(v) => [v] + AcceptedNumbers(entered[1..], maxPlay)
  }

  /** Whether the entered lines hold a 0 that ends the prompt. Without one the next
      input() meets the end of the input and raises EOFError, which nothing catches. */
  predicate Finished(entered: seq<string>, maxPlay: int)
  {
    |entered| > 0 && (ReadEntry(entered[0], maxPlay).Finish? || Finished(entered[1..], maxPlay))
  }

  /** The prompt is finished exactly when some entered line reads as 0. */
  lemma {:induction false} FinishedSpec(entered: seq<string>, maxPlay: int)
    ensures Finished(entered, maxPlay) <==>
              exists i :: 0 <= i < |entered| && ParseInt(entered[i]) == Some(0)
  {
    if |entered| > 0 {
      FinishedSpec(entered[1..], maxPlay);
      if Finished(entered[1..], maxPlay) {
        var i :| 0 <= i < |entered[1..]| && ParseInt(entered[1..][i]) == Some(0);
        assert ParseInt(entered[i + 1]) == Some(0);
      }
      if exists i :: 0 <= i < |entered| && ParseInt(entered[i]) == Some(0) {
        var i :| 0 <= i < |entered| && ParseInt(entered[i]) == Some(0);
        if i > 0 {
          assert ParseInt(entered[1..][i - 1]) == Some(0);
        }
      }
    }
  }

  /** What one entered line tells about the prompt being finished. */
  lemma FinishedStep(entered: seq<string>, i: nat, maxPlay: int)
    requires i <= |entered|
    ensures Finished(entered[i..], maxPlay) <==>
              i < |entered| && (ReadEntry(entered[i], maxPlay).Finish? || Finished(entered[i + 1..], maxPlay))
  {
    if i < |entered| {
      assert entered[i..][1..] == entered[i + 1..];
    }
  }

  /** Every accepted number lies in [1, 47] for 7-number games and [1, 49] otherwise. */
  lemma {:induction false} AcceptedInRange(entered: seq<string>, maxPlay: int)
    ensures forall j :: 0 <= j < |AcceptedNumbers(entered, maxPlay)| ==>
              1 <= AcceptedNumbers(entered, maxPlay)[j] <= MaxTrimNumber(maxPlay)
  {
    if |entered| > 0 {
      AcceptedInRange(entered[1..], maxPlay);
    }
  }

  /** What one entered line does to the accepted numbers. */
  lemma AcceptedStep(entered: seq<string>, i: nat, maxPlay: int)
    requires i < |entered|
    ensures var rest := AcceptedNumbers(entered[i + 1..], maxPlay);
            AcceptedNumbers(entered[i..], maxPlay) ==
              match ReadEntry(entered[i], maxPlay)
              case Skip => rest
              case Finish => []
              case Trim(v) => [v] + rest
  {
    assert entered[i..][1..] == entered[i + 1..];
  }

  // ---------------------------------------------------------------- chained passes

  /** The records left after one binary pass per number, in order. */
  function TrimAllRecords(rs: seq<seq<Byte>>, nums: seq<int>): seq<seq<Byte>>
  {
    if |nums| == 0 then rs
    else KeptRecords(TrimAllRecords(rs, nums[..|nums| - 1]), nums[|nums| - 1])
  }

  /** The records that survive all the passes are the input records holding none of
      the numbers. */
  lemma {:induction false} TrimAllRecordsMembers(rs: seq<seq<Byte>>, nums: seq<int>)
    ensures forall r :: r in TrimAllRecords(rs, nums) <==>
              r in rs && forall j :: 0 <= j < |nums| ==> nums[j] !in Decode(r)
  {
    if |nums| > 0 {
      var init := nums[..|nums| - 1];
      TrimAllRecordsMembers(rs, init);
      KeptRecordsMembers(TrimAllRecords(rs, init), nums[|nums| - 1]);
      forall r ensures r in TrimAllRecords(rs, nums) <==>
          r in rs && forall j :: 0 <= j < |nums| ==> nums[j] !in Decode(r) {
        if r in rs && forall j :: 0 <= j < |init| ==> init[j] !in Decode(r) {
          assert forall j :: 0 <= j < |init| ==> nums[j] == init[j];
        }
      }
    }
  }

  /** The lines left after one text pass per number. */
  function TrimAllLines(lines: seq<string>, nums: seq<int>, maxPlay: int): seq<string>
  {
    if |nums| == 0 then lines
    else KeptLines(TrimAllLines(lines, nums[..|nums| - 1], maxPlay), nums[|nums| - 1], maxPlay)
  }

  /** After at least one pass, the lines left are the combination lines of the input
      that hold none of the numbers. */
  lemma {:induction false} TrimAllLinesMembers(lines: seq<string>, nums: seq<int>, maxPlay: int)
    requires |nums| > 0
    ensures forall l :: l in TrimAllLines(lines, nums, maxPlay) <==>
              l in lines && Eligible(l, maxPlay) && Avoids(l, nums)
  {
    var init, v := nums[..|nums| - 1], nums[|nums| - 1];
    var prev := TrimAllLines(lines, init, maxPlay);
    KeptLinesMembers(prev, v, maxPlay);
    if |init| > 0 {
      TrimAllLinesMembers(lines, init, maxPlay);
    }
    forall l ensures l in TrimAllLines(lines, nums, maxPlay) <==>
        l in lines && Eligible(l, maxPlay) && Avoids(l, nums) {
      AvoidsSnoc(l, nums);
    }
  }

  /** None of the numbers is among the line's values. */
  predicate Avoids(l: string, nums: seq<int>)
  {
    forall j :: 0 <= j < |nums| ==> nums[j] !in ReadVariantText(l)
  }

  lemma AvoidsSnoc(l: string, nums: seq<int>)
    requires |nums| > 0
    ensures Avoids(l, nums) <==> Avoids(l, nums[..|nums| - 1]) && nums[|nums| - 1] !in ReadVariantText(l)
  {
    var init := nums[..|nums| - 1];
    assert forall j :: 0 <= j < |init| ==> init[j] == nums[j];
  }

  lemma {:induction false} TrimAllRecordsWidth(rs: seq<seq<Byte>>, nums: seq<int>, m: nat)
    requires forall i :: 0 <= i < |rs| ==> |rs[i]| == m
    ensures forall i :: 0 <= i < |TrimAllRecords(rs, nums)| ==> |TrimAllRecords(rs, nums)[i]| == m
  {
    if |nums| > 0 {
      TrimAllRecordsWidth(rs, nums[..|nums| - 1], m);
      KeptRecordsWidth(TrimAllRecords(rs, nums[..|nums| - 1]), nums[|nums| - 1], m);
    }
  }

  // ---------------------------------------------------------------- the session

  /** The name the final output is saved under: every '.' replaced by '_trimmed.',
      or '_trimmed' appended to a name without a dot. */
  function OutputName(name: string): string
  {
    var r := ReplaceChar(name, '.', "_trimmed.");
    if '.' !in r then name + "_trimmed" else r
  }

  /** For a name with a single dot the stem gets the suffix. */
  lemma OutputNameOneDot(stem: string, ext: string)
    requires Free(stem, '.') && Free(ext, '.')
    ensures OutputName(stem + "." + ext) == stem + "_trimmed." + ext
  {
    var r := stem + "_trimmed." + ext;
    ReplaceCharFree(stem, '.', "_trimmed.");
    ReplaceCharFree(ext, '.', "_trimmed.");
    ReplaceCharAppend(stem + ".", ext, '.', "_trimmed.");
    ReplaceCharAppend(stem, ".", '.', "_trimmed.");
    assert ReplaceChar(".", '.', "_trimmed.") == "_trimmed.";
    assert r[|stem| + 8] == '.';
  }

  /** A name without a dot gets the suffix appended. */
  lemma OutputNameNoDot(name: string)
    requires Free(name, '.')
    ensures OutputName(name) == name + "_trimmed"
  {
    ReplaceCharFree(name, '.', "_trimmed.");
  }

  /** The file a binary session saves: the records holding none of the numbers. */
  function TrimmedBinary(data: seq<Byte>, nums: seq<int>, maxPlay: nat): seq<Byte>
    requires maxPlay > 0
  {
    Flatten(TrimAllRecords(Records(data, maxPlay), nums))
  }

  /** The current input of a binary session: the file itself until a pass has run,
      then the last pass's output. */
  function SessionInput(data: seq<Byte>, done: seq<int>, maxPlay: nat): seq<Byte>
    requires maxPlay > 0
  {
    if |done| == 0 then data else TrimmedBinary(data, done, maxPlay)
  }

  /** A pass over the current input gives the file trimmed by one more number. */
  lemma BinaryPassStep(data: seq<Byte>, done: seq<int>, v: int, maxPlay: nat)
    requires maxPlay > 0
    ensures Flatten(KeptRecords(Records(SessionInput(data, done, maxPlay), maxPlay), v))
            == TrimmedBinary(data, done + [v], maxPlay)
  {
    var rs := Records(data, maxPlay);
    assert (done + [v])[..|done|] == done;
    if |done| > 0 {
      TrimAllRecordsWidth(rs, done, maxPlay);
      RecordsFlatten(TrimAllRecords(rs, done), maxPlay);
    }
  }

  /** What reading one more entry tells about the numbers accepted in a session. */
  lemma SessionAdvance(entered: seq<string>, i: nat, maxPlay: int, done: seq<int>)
    requires i < |entered|
    requires AcceptedNumbers(entered, maxPlay) == done + AcceptedNumbers(entered[i..], maxPlay)
    ensures ReadEntry(entered[i], maxPlay).Skip? ==>
              AcceptedNumbers(entered, maxPlay) == done + AcceptedNumbers(entered[i + 1..], maxPlay)
    ensures ReadEntry(entered[i], maxPlay).Finish? ==> AcceptedNumbers(entered, maxPlay) == done
    ensures ReadEntry(entered[i], maxPlay).Trim? ==>
              AcceptedNumbers(entered, maxPlay) ==
                (done + [ReadEntry(entered[i], maxPlay).number]) + AcceptedNumbers(entered[i + 1..], maxPlay)
  {
    AcceptedStep(entered, i, maxPlay);
    var rest := AcceptedNumbers(entered[i + 1..], maxPlay);
    match ReadEntry(entered[i], maxPlay)
    case Skip =>
    case Finish => SeqUnit(done);
    case Trim(v) => SeqAssoc(done, [v], rest);
  }

  lemma SessionDone(entered: seq<string>, maxPlay: int, done: seq<int>)
    requires AcceptedNumbers(entered, maxPlay) == done + AcceptedNumbers(entered[|entered|..], maxPlay)
    ensures AcceptedNumbers(entered, maxPlay) == done
  {
    SeqUnit(done);
  }

  /** The two temporary names differ from each other and from the file's name. */
  lemma TempNames(fName: string)
    ensures fName + "$" != fName && fName + "&" != fName && fName + "$" != fName + "&"
  {
    assert (fName + "$")[|fName|] != (fName + "&")[|fName|];
  }

  /** The trim loop of trim_set_played on a binary file: the numbers are read one by
      one, each accepted number runs a pass from the current file into the other
      temporary file, and the temporaries swap roles. The result is the last output
      when a 0 ended the prompt and at least one pass ran (the input name was
      replaced), and nothing otherwise: entries that run out before a 0 abort the
      session with EOFError before anything is saved. */
  method TrimBinarySession(fName: string, data: seq<Byte>, entered: seq<string>, maxPlay: nat)
    returns (result: Option<seq<Byte>>)
    requires maxPlay > 0
    ensures var nums := AcceptedNumbers(entered, maxPlay);
            result == if !Finished(entered, maxPlay) || |nums| == 0 then None
                      else Some(TrimmedBinary(data, nums, maxPlay))
  {
    var tempA, tempB := fName + "$", fName + "&";
    TempNames(fName);
    var current, iName, finished := BinaryPasses(fName, tempA, tempB, data, entered, maxPlay);
    if finished && iName != fName {
      result := Some(current);
    } else {
      result := None;
    }
  }

  /** The loop of a binary session, with the temporary names given. */
  method BinaryPasses(fName: string, tempA: string, tempB: string, data: seq<Byte>, entered: seq<string>, maxPlay: nat)
    returns (current: seq<Byte>, iName: string, finished: bool)
    requires maxPlay > 0
    requires tempA != fName && tempB != fName && tempA != tempB
    ensures var nums := AcceptedNumbers(entered, maxPlay);
            (iName == fName <==> |nums| == 0) && current == SessionInput(data, nums, maxPlay)
    ensures finished == Finished(entered, maxPlay)
  {
    iName := fName;
    var oName := tempA;
    current := data;
    finished := false;
    ghost var done: seq<int> := [];
    SessionStart(entered, maxPlay);
    var i := 0;
    while i < |entered|
      invariant 0 <= i <= |entered|
      invariant AcceptedNumbers(entered, maxPlay) == done + AcceptedNumbers(entered[i..], maxPlay)
      invariant current == SessionInput(data, done, maxPlay)
      invariant |done| == 0 <==> iName == fName
      invariant oName == tempA || oName == tempB
      invariant oName != iName
      invariant Finished(entered, maxPlay) == Finished(entered[i..], maxPlay)
    {
      var entry := ReadEntry(entered[i], maxPlay);
      SessionAdvance(entered, i, maxPlay, done);
      FinishedStep(entered, i, maxPlay);
      if entry.Skip? {
        i := i + 1;
        continue;
      }
      if entry.Finish? {
        finished := true;
        break;
      }
      var v := entry.number;
      var out := BinaryPass(current, v, maxPlay, data, done);
      done := done + [v];
      current := out;
      iName := oName;
      oName := if oName == tempA then tempB else tempA;
      i := i + 1;
    }
    if i == |entered| {
      SessionDone(entered, maxPlay, done);
      FinishedStep(entered, i, maxPlay);
    }
  }

  /** One binary pass of a session, from the output of the passes before it (the
      counts it prints are dropped). */
  method BinaryPass(current: seq<Byte>, v: int, maxPlay: nat, ghost data: seq<Byte>, ghost done: seq<int>)
    returns (out: seq<Byte>)
    requires maxPlay > 0
    requires current == SessionInput(data, done, maxPlay)
    ensures out == SessionInput(data, done + [v], maxPlay)
  {
    var cntLine, cntTrim;
    out, cntLine, cntTrim := ProcessBinary(current, v, maxPlay);
    BinaryPassStep(data, done, v, maxPlay);
  }

  lemma SessionStart(entered: seq<string>, maxPlay: int)
    ensures AcceptedNumbers(entered, maxPlay) == [] + AcceptedNumbers(entered[0..], maxPlay)
    ensures Finished(entered, maxPlay) == Finished(entered[0..], maxPlay)
  {
    assert entered[0..] == entered;
  }

  lemma TrimAllLinesSnoc(lines: seq<string>, done: seq<int>, v: int, maxPlay: int)
    ensures TrimAllLines(lines, done + [v], maxPlay) == KeptLines(TrimAllLines(lines, done, maxPlay), v, maxPlay)
  {
    PrefixOfAppend(done, [v]);
  }

  /** One text pass of a session, from the output of the passes before it (the
      counts it prints are dropped). */
  method TextPass(current: seq<string>, v: int, maxPlay: nat, ghost lines: seq<string>, ghost done: seq<int>)
    returns (out: seq<string>)
    requires current == TrimAllLines(lines, done, maxPlay)
    ensures out == TrimAllLines(lines, done + [v], maxPlay)
  {
    var cntLine, cntTrim;
    out, cntLine, cntTrim := ProcessText(current, v, maxPlay);
    TrimAllLinesSnoc(lines, done, v, maxPlay);
  }

  /** The trim loop of trim_set_played on a text file: the same loop, with text
      passes. */
  method TrimTextSession(fName: string, lines: seq<string>, entered: seq<string>, maxPlay: nat)
    returns (result: Option<seq<string>>)
    ensures var nums := AcceptedNumbers(entered, maxPlay);
            result == if !Finished(entered, maxPlay) || |nums| == 0 then None
                      else Some(TrimAllLines(lines, nums, maxPlay))
  {
    var tempA, tempB := fName + "$", fName + "&";
    TempNames(fName);
    var current, iName, finished := TextPasses(fName, tempA, tempB, lines, entered, maxPlay);
    if finished && iName != fName {
      result := Some(current);
    } else {
      result := None;
    }
  }

  /** The loop of a text session, with the temporary names given. */
  method TextPasses(fName: string, tempA: string, tempB: string, lines: seq<string>, entered: seq<string>, maxPlay: nat)
    returns (current: seq<string>, iName: string, finished: bool)
    requires tempA != fName && tempB != fName && tempA != tempB
    ensures var nums := AcceptedNumbers(entered, maxPlay);
            (iName == fName <==> |nums| == 0) && current == TrimAllLines(lines, nums, maxPlay)
    ensures finished == Finished(entered, maxPlay)
  {
    iName := fName;
    var oName := tempA;
    current := lines;
    finished := false;
    ghost var done: seq<int> := [];
    SessionStart(entered, maxPlay);
    var i := 0;
    while i < |entered|
      invariant 0 <= i <= |entered|
      invariant AcceptedNumbers(entered, maxPlay) == done + AcceptedNumbers(entered[i..], maxPlay)
      invariant current == TrimAllLines(lines, done, maxPlay)
      invariant |done| == 0 <==> iName == fName
      invariant oName == tempA || oName == tempB
      invariant oName != iName
      invariant Finished(entered, maxPlay) == Finished(entered[i..], maxPlay)
    {
      var entry := ReadEntry(entered[i], maxPlay);
      SessionAdvance(entered, i, maxPlay, done);
      FinishedStep(entered, i, maxPlay);
      if entry.Skip? {
        i := i + 1;
        continue;
      }
      if entry.Finish? {
        finished := true;
        break;
      }
      var v := entry.number;
      var out := TextPass(current, v, maxPlay, lines, done);
      done := done + [v];
      current := out;
      iName := oName;
      oName := if oName == tempA then tempB else tempA;
      i := i + 1;
    }
    if i == |entered| {
      SessionDone(entered, maxPlay, done);
      FinishedStep(entered, i, maxPlay);
    }
  }

  /** An input file as the two modes of open() see it: its bytes, and its lines. */
  datatype FileViews = FileViews(bytes: seq<Byte>, lines: seq<string>)

  /** The final output of a session and the name it is saved under. */
  datatype Saved = SavedBytes(name: string, data: seq<Byte>) | SavedLines(name: string, lines: seq<string>)

  /** trim_set_played: an empty name or a missing file ends the session at once; the
      file is read in binary or text mode according to its name; when a 0 ended the
      prompt and at least one pass ran, the last output is saved under OutputName,
      otherwise nothing is saved. */
  method TrimSetPlayed(fName: string, file: Option<FileViews>, entered: seq<string>, maxPlay: nat)
    returns (saved: Option<Saved>)
    requires maxPlay > 0
    ensures var nums := AcceptedNumbers(entered, maxPlay);
            saved == if fName == "" || file.None? || !Finished(entered, maxPlay) || |nums| == 0 then None
                     else if IsBinaryFile(fName) then
                       Some(SavedBytes(OutputName(fName), TrimmedBinary(file.value.bytes, nums, maxPlay)))
                     else Some(SavedLines(OutputName(fName), TrimAllLines(file.value.lines, nums, maxPlay)))
  {
    if fName == "" || file.None? {
      return None;
    }
    if IsBinaryFile(fName) {
      var result := TrimBinarySession(fName, file.value.bytes, entered, maxPlay);
      saved := if result.Some? then Some(SavedBytes(OutputName(fName), result.value)) else None;
    } else {
      var result := TrimTextSession(fName, file.value.lines, entered, maxPlay);
      saved := if result.Some? then Some(SavedLines(OutputName(fName), result.value)) else None;
    }
  }

  // ---------------------------------------------------------------- command line

  datatype Command = Usage | ArgError | Run(show: bool, maxPlay: int)

  /** main(): fewer than two arguments print the usage; show and max_play must be
      integers, and max_play 6 or 7. */
  function ParseTrimArgs(args: seq<string>): Command
  {
    if |args| < 2 then Usage
    else match (ParseInt(args[0]), ParseInt(args[1]))
      case (None, _) => ArgError
      case (_, None) => ArgError
      case (Some(show), Some(maxPlay)) =>
        if maxPlay < 6 || maxPlay > 7 then ArgError else Run(show != 0, maxPlay)
  }

  /** A run starts exactly when both arguments are integers and max_play is 6 or 7. */
  lemma ParseTrimArgsSpec(args: seq<string>)
    ensures ParseTrimArgs(args).Run? <==>
              |args| >= 2 && ParseInt(args[0]).Some? && ParseInt(args[1]).Some? &&
              6 <= ParseInt(args[1]).value <= 7
    ensures ParseTrimArgs(args).Run? ==>
              ParseTrimArgs(args).maxPlay == ParseInt(args[1]).value &&
              ParseTrimArgs(args).show == (ParseInt(args[0]).value != 0)
  {
  }

  // ---------------------------------------------------------------- lines opening with a space

  /** A rendered combination whose first number is below 10 opens with a space, so
      process_text neither counts nor writes it, although read_variant_text would
      read its numbers back. */
  lemma RenderedLineSkipped(ns: seq<nat>, num: int)
    requires |ns| > 0 && ns[0] < 10
    ensures ReadVariantText(FormatNumbers(ns)) == ns
    ensures CountedLines([FormatNumbers(ns)], |ns|) == []
    ensures KeptLines([FormatNumbers(ns)], num, |ns|) == []
  {
    ReadFormatted(ns);
    var f := FormatNumbers(ns);
    if |ns| == 1 {
      FormatNumbersOne(ns[0]);
    } else {
      FormatNumbersCons(ns);
    }
    assert f[0] == Pad2(ns[0])[0] == ' ';
    var one: seq<string> := [f];
    assert one[..0] == [];
  }

  /** The test on the stripped line, which lets such a line through. */
  predicate EligibleStripped(line: string, maxPlay: int)
  {
    var t := Strip(line);
    t != "" && IsDigit(t[0]) && |ReadVariantText(line)| == maxPlay
  }

  /** Every rendered combination passes the stripped-line test and reads back. */
  lemma RenderedLineKept(ns: seq<nat>)
    requires |ns| > 0
    ensures EligibleStripped(FormatNumbers(ns), |ns|)
    ensures ReadVariantText(FormatNumbers(ns)) == ns
  {
    ReadFormatted(ns);
    var lead := if ns[0] < 10 then " " else "";
    var x := RenderedTail(ns);
    StripSpacePrefix(lead, x);
    StripKeepsFirst(x);
  }

  /** A rendered combination is its first number's padding followed by text that
      starts with that number's first digit. */
  lemma RenderedTail(ns: seq<nat>) returns (x: string)
    requires |ns| > 0
    ensures FormatNumbers(ns) == (if ns[0] < 10 then " " else "") + x
    ensures |x| > 0 && IsDigit(x[0])
  {
    var s := NatToString(ns[0]);
    Pad2Parts(ns[0]);
    var rest := if |ns| == 1 then "" else ", " + FormatNumbers(ns[1..]);
    if |ns| == 1 {
      FormatNumbersOne(ns[0]);
    } else {
      FormatNumbersCons(ns);
    }
    x := s + rest;
    SeqAssoc(if ns[0] < 10 then " " else "", s, rest);
  }

  /** Stripping text that starts with a non-space keeps its first character. */
  lemma StripKeepsFirst(x: string)
    requires |x| > 0 && !IsSpace(x[0])
    ensures |Strip(x)| > 0 && Strip(x)[0] == x[0]
  {
    assert LStrip(x) == x;
    RStripPrefix(x);
    RStripLast(x);
  }
}
