/** The folder-wide whitespace normaliser: every ".txt" file of a folder gets a
    "_cleaned" copy whose lines are the words of its lines joined by single spaces. */
module CleanAll {
  import opened Text
  import opened TxtFolder
  import opened CleanSpaces

  /** The output name: the stem, "_cleaned", then the extension. */
  function CleanedName(filename: string): string
  {
    SuffixedName(filename, "_cleaned")
  }

  /** clean_spaces_in_file: the cleaned lines of one file. */
  method CleanSpacesInFile(lines: seq<string>) returns (written: seq<string>)
    ensures written == CleanedLines(lines)
  {
    written := CleanLines(lines);
  }

  /** process_all_txt_files: each listed ".txt" file cleaned into its "_cleaned"
      copy, in listing order. */
  method CleanFolder(names: seq<string>, folder: map<string, seq<string>>)
    returns (result: Option<map<string, seq<string>>>)
    ensures result == ProcessFolder(names, folder, CleanedName, CleanedLines)
  {
    result := ProcessAllTxtFiles(names, folder, CleanedName, CleanedLines);
  }

  /** The documented name: "draws.txt" is cleaned into "draws_cleaned.txt". */
  lemma CleanedNameOneDot(stem: string)
    requires |stem| > 0 && Free(stem, '.')
    ensures CleanedName(stem + ".txt") == stem + "_cleaned.txt"
  {
    assert stem + ".txt" == stem + "." + "txt";
    SuffixedNameOneDot(stem, "txt", "_cleaned");
    assert stem + "_cleaned" + "." + "txt" == stem + "_cleaned.txt";
  }
}
