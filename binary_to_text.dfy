/** The binary-to-text converter: it lists every fixed-width record of a binary
    combination file as a line of numbers, optionally writing the lines, after a
    four-line header, to a text file. Files are values here: the binary file is its
    bytes and the text file the lines written to it; the console echo is left out. */
module BinaryToText {
  import opened Text
  import opened ByteCodec
  import opened DrawText
  import opened TrimTool

  /** bin_to_variant(data, max_play): unchar of each of the first max_play bytes,
      appended one by one. */
  method BinToVariant(data: seq<Byte>, maxPlay: nat) returns (variant: seq<Byte>)
    requires maxPlay <= |data|
    ensures variant == BinToVar(data, maxPlay)
  {
    variant := [];
    var i := 0;
    while i < maxPlay
      invariant 0 <= i <= maxPlay
      invariant variant == BinToVar(data[..i], i)
    {
      variant := variant + [UnChar(data[i])];
      i := i + 1;
    }
  }

  /** The output line of list_binary: all numbers but the last joined by ", ", then
      ", " and the last, every number right-aligned to width two. */
  function OutputLine(variant: seq<int>): string
    requires |variant| > 0
  {
    Join(Pad2s(variant[..|variant| - 1]), ", ") + ", " + Pad2(variant[|variant| - 1])
  }

  /** For two or more numbers the line is the common layout ', '.join(f'{n:2d}' ...);
      for a single number it opens with a stray ", ". */
  lemma OutputLineLayout(variant: seq<int>)
    requires |variant| > 0
    ensures |variant| >= 2 ==> OutputLine(variant) == FormatNumbers(variant)
    ensures |variant| == 1 ==> OutputLine(variant) == ", " + Pad2(variant[0])
  {
    var init := variant[..|variant| - 1];
    var last := variant[|variant| - 1];
    if |variant| >= 2 {
      assert Pad2s(variant) == Pad2s(init) + [Pad2(last)];
      JoinSnoc(Pad2s(init), Pad2(last), ", ");
    } else {
      assert Pad2s(init) == [];
    }
  }

  /** Every output line reads back, through read_variant_text, as the numbers it
      was made from. */
  lemma OutputLineReadsBack(variant: seq<nat>)
    requires |variant| > 0
    ensures ReadVariantText(OutputLine(variant)) == variant
  {
    OutputLineLayout(variant);
    if |variant| >= 2 {
      ReadFormatted(variant);
    } else {
      SingleLineReadsBack(variant[0]);
      assert variant == [variant[0]];
    }
  }

  lemma SingleLineReadsBack(x: nat)
    ensures ReadVariantText(", " + Pad2(x)) == [x]
  {
    var line := ", " + Pad2(x);
    var s := NatToString(x);
    Pad2Blanks(x);
    OnlyBlanksAppend(", ", Pad2(x));
    StripThenRemoveSpaces(line);
    ReplaceCharAppend(", ", Pad2(x), ' ', "");
    assert ReplaceChar(", ", ' ', "") == ",";
    NatToStringDigits(x);
    SplitCommaFirst(s);
    PartValuesBlankFirst(s);
  }

  lemma SplitCommaFirst(s: string)
    requires IsDigits(s)
    ensures Split("," + s, ',') == ["", s]
  {
    assert Free(s, ',');
    SplitCons("", ',', s);
    assert "" + [','] + s == "," + s;
    SplitFree(s, ',');
  }

  lemma PartValuesBlankFirst(s: string)
    requires IsDigits(s)
    ensures PartValues(["", s]) == [DigitsValue(s)]
  {
    var parts := ["", s];
    assert parts[..1] == [""];
    assert [""][..0] == [];
  }

  /** The line listed for one record. */
  function RecordLine(r: seq<Byte>): string
    requires |r| > 0
  {
    OutputLine(BinToVar(r, |r|))
  }

  /** The lines listed for a file: one per whole record, in order. */
  function Listing(data: seq<Byte>, maxPlay: nat): (lines: seq<string>)
    requires maxPlay > 0
  {
    var rs := Records(data, maxPlay);
    seq(|rs|, i requires 0 <= i < |rs| => RecordLine(rs[i]))
  }

  /** A file of L bytes lists floor(L / max_play) lines, and the i-th line reads back
      as the numbers of the i-th record. */
  lemma ListingSpec(data: seq<Byte>, maxPlay: nat)
    requires maxPlay > 0
    ensures |Listing(data, maxPlay)| == |data| / maxPlay
    ensures forall i :: 0 <= i < |Listing(data, maxPlay)| ==>
              ReadVariantText(Listing(data, maxPlay)[i]) == Decode(Records(data, maxPlay)[i])
  {
    RecordsCover(data, maxPlay);
    var rs := Records(data, maxPlay);
    forall i | 0 <= i < |rs|
      ensures ReadVariantText(Listing(data, maxPlay)[i]) == Decode(rs[i])
    {
      OutputLineReadsBack(BinToVar(rs[i], |rs[i]|));
    }
  }

  /** The header written at the top of the text file. */
  function Header(fName: string, maxPlay: int): seq<string>
  {
    [ "# Binary Lottery File: " + fName,
      "# Max Play: " + IntToString(maxPlay),
      "# Format: N1, N2, N3, N4, N5, N6[, N7]",
      "#" ]
  }

  /** list_binary: a name without a 'b' near its end, or a file that cannot be
      opened, fails; otherwise every whole record is listed, counted and, when an
      output file is asked for, written after the header. */
  method ListBinary(fName: string, file: Option<seq<Byte>>, maxPlay: nat, toFile: bool)
    returns (ok: bool, written: seq<string>, count: nat)
    requires maxPlay > 0
    ensures ok <==> IsBinaryFile(fName) && file.Some?
    ensures ok ==> count == |file.value| / maxPlay
    ensures ok ==> written == if toFile then Header(fName, maxPlay) + Listing(file.value, maxPlay) else []
    ensures !ok ==> written == [] && count == 0
  {
    if !IsBinaryFile(fName) || file.None? {
      return false, [], 0;
    }
    var header := if toFile then Header(fName, maxPlay) else [];
    written, count := ListRecords(file.value, maxPlay, header, toFile);
    ok := true;
  }

  /** The read loop of list_binary: read max_play bytes at a time until a read comes
      back short, appending each record's line to the output when there is one. */
  method ListRecords(data: seq<Byte>, maxPlay: nat, header: seq<string>, toFile: bool)
    returns (written: seq<string>, count: nat)
    requires maxPlay > 0
    ensures count == |data| / maxPlay
    ensures written == header + if toFile then Listing(data, maxPlay) else []
  {
    written := header;
    ghost var read: seq<seq<Byte>> := [];
    count := 0;
    var pos := 0;
    while true
      invariant 0 <= pos <= |data|
      invariant Records(data, maxPlay) == read + Records(data[pos..], maxPlay)
      invariant count == |read|
      invariant forall i :: 0 <= i < |read| ==> |read[i]| == maxPlay
      invariant written == header + if toFile then seq(|read|, i requires 0 <= i < |read| => RecordLine(read[i])) else []
      decreases |data| - pos
    {
      if |data| - pos < maxPlay {
        break;
      }
      var chunk := data[pos..pos + maxPlay];
      RecordsStep(data, pos, maxPlay);
      var variant := BinToVariant(chunk, maxPlay);
      var line := OutputLine(variant);
      if toFile {
        written := written + [line];
      }
      read := read + [chunk];
      count := count + 1;
      pos := pos + maxPlay;
    }
    assert read + [] == read;
    RecordsCover(data, maxPlay);
  }

  // ---------------------------------------------------------------- command line

  datatype ConverterCommand = ConverterUsage | ConverterError | Convert(fName: string, maxPlay: int, output: Option<string>)

  /** main(): fewer than two arguments print the usage; max_play must be an integer,
      6 or 7; a third argument names the output file. */
  function ParseConverterArgs(args: seq<string>): ConverterCommand
  {
    if |args| < 2 then ConverterUsage
    else match ParseInt(args[1])
      case None => ConverterError
      case Some(maxPlay) =>
        if maxPlay < 6 || maxPlay > 7 then ConverterError
        else Convert(args[0], maxPlay, if |args| > 2 then Some(args[2]) else None)
  }

  /** A conversion runs exactly when max_play is an integer 6 or 7, and only then is
      the file read. */
  lemma ParseConverterArgsSpec(args: seq<string>)
    ensures ParseConverterArgs(args).Convert? <==>
              |args| >= 2 && ParseInt(args[1]).Some? && 6 <= ParseInt(args[1]).value <= 7
    ensures ParseConverterArgs(args).Convert? ==>
              ParseConverterArgs(args).fName == args[0] &&
              ParseConverterArgs(args).maxPlay == ParseInt(args[1]).value
  {
  }
}
