/** The whitespace normaliser: every line becomes its whitespace-separated words
    joined by single spaces, written one per input line; a missing input file is
    reported and nothing is written. */
module CleanSpaces {
  import opened Text
  import opened TxtFolder

  /** ' '.join(line.split()). */
  function CleanLine(line: string): string
  {
    Join(SplitWs(line), " ")
  }

  /** A cleaned line neither starts nor ends with whitespace, and its only
      whitespace is single spaces, each followed by a word character. */
  lemma CleanLineShape(line: string)
    ensures var c := CleanLine(line);
      && (|c| > 0 ==> !IsSpace(c[0]) && !IsSpace(c[|c| - 1]))
      && (forall i :: 0 <= i < |c| && IsSpace(c[i]) ==> c[i] == ' ' && 0 < i < |c| - 1 && !IsSpace(c[i + 1]))
  {
    JoinWordsShape(SplitWs(line));
  }

  /** The words of the line are kept, in order. */
  lemma CleanLineWords(line: string)
    ensures SplitWs(CleanLine(line)) == SplitWs(line)
  {
    SplitWsJoin(SplitWs(line));
  }

  /** Cleaning a cleaned line changes nothing. */
  lemma CleanLineIdempotent(line: string)
    ensures CleanLine(CleanLine(line)) == CleanLine(line)
  {
    CleanLineWords(line);
  }

  /** A line becomes empty exactly when it is whitespace only. */
  lemma CleanLineBlank(line: string)
    ensures CleanLine(line) == "" <==> forall i :: 0 <= i < |line| ==> IsSpace(line[i])
  {
    JoinWordsShape(SplitWs(line));
    SplitWsEmpty(line);
  }

  lemma {:induction false} SplitWsEmpty(s: string)
    ensures SplitWs(s) == [] <==> forall i :: 0 <= i < |s| ==> IsSpace(s[i])
    decreases |s|
  {
    if |s| > 0 {
      SplitWsEmpty(s[1..]);
      assert forall i :: 0 < i < |s| ==> s[i] == s[1..][i - 1];
    }
  }

  /** The newline that ends a line read from a file makes no difference. */
  lemma CleanLineNewline(line: string)
    ensures CleanLine(line + "\n") == CleanLine(line)
  {
    SplitWsTrailingSpace(line, "\n");
  }

  /** The lines written for the lines of a file. */
  function CleanedLines(lines: seq<string>): (out: seq<string>)
    ensures |out| == |lines|
  {
    Terminated(seq(|lines|, i requires 0 <= i < |lines| => CleanLine(lines[i])))
  }

  /** The writing loop: for every line read, its cleaned form and a newline. */
  method CleanLines(lines: seq<string>) returns (written: seq<string>)
    ensures written == CleanedLines(lines)
  {
    written := [];
    var i := 0;
    while i < |lines|
      invariant 0 <= i <= |lines|
      invariant |written| == i
      invariant forall k :: 0 <= k < i ==> written[k] == CleanLine(lines[k]) + "\n"
    {
      var cleaned := Join(SplitWs(lines[i]), " ");
      written := written + [cleaned + "\n"];
      i := i + 1;
    }
  }

  /** Every written line ends in a newline and holds the words of its input line. */
  lemma CleanedLinesWords(lines: seq<string>)
    ensures forall i :: 0 <= i < |lines| ==>
              EndsWith(CleanedLines(lines)[i], "\n") && SplitWs(CleanedLines(lines)[i]) == SplitWs(lines[i])
  {
    forall i | 0 <= i < |lines|
      ensures EndsWith(CleanedLines(lines)[i], "\n") && SplitWs(CleanedLines(lines)[i]) == SplitWs(lines[i])
    {
      var c := CleanLine(lines[i]);
      assert CleanedLines(lines)[i] == c + "\n";
      assert (c + "\n")[|c|..] == "\n";
      SplitWsTrailingSpace(c, "\n");
      CleanLineWords(lines[i]);
    }
  }

  /** Cleaning a cleaned file again writes the same lines. */
  lemma CleanedLinesIdempotent(lines: seq<string>)
    ensures CleanedLines(CleanedLines(lines)) == CleanedLines(lines)
  {
    forall i | 0 <= i < |lines|
      ensures CleanedLines(CleanedLines(lines))[i] == CleanedLines(lines)[i]
    {
      var c := CleanLine(lines[i]);
      CleanLineNewline(c);
      CleanLineIdempotent(lines[i]);
    }
  }

  /** clean_spaces: None when the input file does not exist; otherwise the cleaned
      lines. */
  method CleanSpacesFile(input: Option<seq<string>>) returns (output: Option<seq<string>>)
    ensures input.None? <==> output.None?
    ensures input.Some? ==> output.value == CleanedLines(input.value)
  {
    if input.None? {
      return None;
    }
    var written := CleanLines(input.value);
    output := Some(written);
  }

  /** The command line: exactly an input and an output file name, or the usage. */
  datatype CleanCommand = CleanUsage | CleanRun(input: string, output: string)

  function ParseCleanArgs(argv: seq<string>): (c: CleanCommand)
    ensures c.CleanRun? <==> |argv| == 3
    ensures c.CleanRun? ==> c.input == argv[1] && c.output == argv[2]
  {
    if |argv| != 3 then CleanUsage else CleanRun(argv[1], argv[2])
  }
}
