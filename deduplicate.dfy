/** The duplicate-line remover: every line of a file, without its trailing newlines,
    is written once, at its first occurrence, and later repeats are reported as
    duplicates; every ".txt" file of a folder gets a "_deduped" copy. */
module Deduplicate {
  import opened Text
  import opened TxtFolder

  /** line.rstrip('\n'). */
  function RStripNewlines(s: string): (r: string)
    ensures |r| <= |s| && r == s[..|r|]
    ensures |r| == 0 || r[|r| - 1] != '\n'
    ensures forall i :: |r| <= i < |s| ==> s[i] == '\n'
  {
    if |s| > 0 && s[|s| - 1] == '\n' then RStripNewlines(s[..|s| - 1]) else s
  }

  /** A line without a trailing newline reads back as itself once one is written
      after it. */
  lemma RStripNewlinesTerminated(x: string)
    requires |x| == 0 || x[|x| - 1] != '\n'
    ensures RStripNewlines(x + "\n") == x
  {
    assert (x + "\n")[..|x|] == x;
  }

  /** Every line of the file with its trailing newlines stripped. */
  function Stripped(lines: seq<string>): (r: seq<string>)
    ensures |r| == |lines|
  {
    seq(|lines|, i requires 0 <= i < |lines| => RStripNewlines(lines[i]))
  }

  // ---------------------------------------------------------------- keep-first

  /** The lines kept: each line that has not occurred before it, in file order. */
  function KeepFirst(ss: seq<string>): (out: seq<string>)
    ensures |out| <= |ss|
  {
    if |ss| == 0 then []
    else
      var init, x := ss[..|ss| - 1], ss[|ss| - 1];
      KeepFirst(init) + (if x in init then [] else [x])
  }

  /** The duplicates reported: each line that has occurred before it, in file order. */
  function Repeats(ss: seq<string>): (dups: seq<string>)
    ensures |dups| <= |ss|
  {
    if |ss| == 0 then []
    else
      var init, x := ss[..|ss| - 1], ss[|ss| - 1];
      Repeats(init) + (if x in init then [x] else [])
  }

  lemma KeepFirstStep(ss: seq<string>, i: nat)
    requires i < |ss|
    ensures KeepFirst(ss[..i + 1]) == KeepFirst(ss[..i]) + (if ss[i] in ss[..i] then [] else [ss[i]])
    ensures Repeats(ss[..i + 1]) == Repeats(ss[..i]) + (if ss[i] in ss[..i] then [ss[i]] else [])
  {
    assert ss[..i + 1][..i] == ss[..i];
  }

  /** deduplicate_file: the lines written (each followed by '\n') and the duplicates
      found, from the lines the file holds. */
  method DeduplicateLines(lines: seq<string>) returns (written: seq<string>, duplicates: seq<string>)
    ensures written == Terminated(KeepFirst(Stripped(lines)))
    ensures duplicates == Repeats(Stripped(lines))
  {
    var ss := Stripped(lines);
    var seen: set<string> := {};
    var kept: seq<string> := [];
    written := [];
    duplicates := [];
    var i := 0;
    while i < |lines|
      invariant 0 <= i <= |lines|
      invariant forall x :: x in seen <==> x in ss[..i]
      invariant kept == KeepFirst(ss[..i]) && written == Terminated(kept)
      invariant duplicates == Repeats(ss[..i])
    {
      var stripped := RStripNewlines(lines[i]);
      seen, kept, written, duplicates := VisitLine(ss, i, stripped, seen, kept, written, duplicates);
      i := i + 1;
    }
    TakeAll(ss);
  }

  /** One line of deduplicate_file: a line seen before is reported, a new one is
      remembered and written. */
  method VisitLine(ss: seq<string>, i: nat, stripped: string, seen: set<string>, kept: seq<string>,
                   written: seq<string>, duplicates: seq<string>)
    returns (seen': set<string>, kept': seq<string>, written': seq<string>, duplicates': seq<string>)
    requires i < |ss| && stripped == ss[i]
    requires forall x :: x in seen <==> x in ss[..i]
    requires kept == KeepFirst(ss[..i]) && written == Terminated(kept)
    requires duplicates == Repeats(ss[..i])
    ensures forall x :: x in seen' <==> x in ss[..i + 1]
    ensures kept' == KeepFirst(ss[..i + 1]) && written' == Terminated(kept')
    ensures duplicates' == Repeats(ss[..i + 1])
  {
    KeepFirstStep(ss, i);
    PrefixMembers(ss, i);
    if stripped in seen {
      seen', kept', written' := seen, kept, written;
      duplicates' := duplicates + [stripped];
    } else {
      seen' := seen + {stripped};
      TerminatedSnoc(kept, stripped);
      kept' := kept + [stripped];
      written' := written + [stripped + "\n"];
      duplicates' := duplicates;
    }
  }

  lemma PrefixMembers(ss: seq<string>, i: nat)
    requires i < |ss|
    ensures forall x :: x in ss[..i + 1] <==> x in ss[..i] || x == ss[i]
  {
    assert ss[..i + 1] == ss[..i] + [ss[i]];
  }

  predicate Distinct(s: seq<string>) {
    forall i, j :: 0 <= i < j < |s| ==> s[i] != s[j]
  }

  /** Every line occurs in the output exactly when it occurs in the input. */
  lemma {:induction false} KeepFirstMembers(ss: seq<string>)
    ensures forall x :: x in KeepFirst(ss) <==> x in ss
  {
    if |ss| > 0 {
      var init := ss[..|ss| - 1];
      KeepFirstMembers(init);
      SnocLast(ss);
    }
  }

  /** No line is written twice. */
  lemma {:induction false} KeepFirstDistinct(ss: seq<string>)
    ensures Distinct(KeepFirst(ss))
  {
    if |ss| > 0 {
      var init := ss[..|ss| - 1];
      KeepFirstDistinct(init);
      KeepFirstMembers(init);
    }
  }

  /** Every line is either written or reported, and only repeats of written lines
      are reported. */
  lemma {:induction false} RepeatsAccounting(ss: seq<string>)
    ensures |KeepFirst(ss)| + |Repeats(ss)| == |ss|
    ensures forall x :: x in Repeats(ss) ==> x in KeepFirst(ss)
  {
    if |ss| > 0 {
      var init := ss[..|ss| - 1];
      RepeatsAccounting(init);
      KeepFirstMembers(init);
    }
  }

  /** Lines that are all different are kept as they are, with nothing reported. */
  lemma {:induction false} KeepFirstOfDistinct(s: seq<string>)
    requires Distinct(s)
    ensures KeepFirst(s) == s && Repeats(s) == []
  {
    if |s| > 0 {
      var init := s[..|s| - 1];
      DistinctInit(s);
      KeepFirstOfDistinct(init);
      SnocLast(s);
    }
  }

  lemma DistinctInit(s: seq<string>)
    requires Distinct(s) && |s| > 0
    ensures Distinct(s[..|s| - 1]) && s[|s| - 1] !in s[..|s| - 1]
  {
  }

  /** Keeping first occurrences twice keeps the same lines. */
  lemma KeepFirstIdempotent(ss: seq<string>)
    ensures KeepFirst(KeepFirst(ss)) == KeepFirst(ss)
  {
    KeepFirstDistinct(ss);
    KeepFirstOfDistinct(KeepFirst(ss));
  }

  /** Deduplicating a written output again writes the same lines and finds no
      duplicates. */
  lemma DeduplicateTwice(lines: seq<string>)
    ensures var w := Terminated(KeepFirst(Stripped(lines)));
            Terminated(KeepFirst(Stripped(w))) == w && Repeats(Stripped(w)) == []
  {
    var ss := Stripped(lines);
    var k := KeepFirst(ss);
    var w := Terminated(k);
    KeepFirstMembers(ss);
    forall i | 0 <= i < |k|
      ensures Stripped(w)[i] == k[i]
    {
      assert k[i] in ss;
      RStripNewlinesTerminated(k[i]);
    }
    assert Stripped(w) == k;
    KeepFirstDistinct(ss);
    KeepFirstOfDistinct(k);
  }

  /** The file written for a listed name: its lines deduplicated. */
  function DedupedFile(lines: seq<string>): seq<string>
  {
    Terminated(KeepFirst(Stripped(lines)))
  }

  /** The output name: the stem, "_deduped", then the extension. */
  function DedupedName(filename: string): string
  {
    SuffixedName(filename, "_deduped")
  }

  /** process_all_txt_files: each listed ".txt" file deduplicated into its
      "_deduped" copy, in listing order. */
  method DeduplicateFolder(names: seq<string>, folder: map<string, seq<string>>)
    returns (result: Option<map<string, seq<string>>>)
    ensures result == ProcessFolder(names, folder, DedupedName, DedupedFile)
  {
    result := ProcessAllTxtFiles(names, folder, DedupedName, DedupedFile);
  }

  /** The documented name: "draws.txt" is deduplicated into "draws_deduped.txt". */
  lemma DedupedNameOneDot(stem: string)
    requires |stem| > 0 && Free(stem, '.')
    ensures DedupedName(stem + ".txt") == stem + "_deduped.txt"
  {
    assert stem + ".txt" == stem + "." + "txt";
    SuffixedNameOneDot(stem, "txt", "_deduped");
    assert stem + "_deduped" + "." + "txt" == stem + "_deduped.txt";
  }
}
