/** What the folder-wide line tools share: os.path.splitext, the case-insensitive
    ".txt" filter, the derived output name, the lines as written back with their
    newlines, and the pass over every listed file of a folder. */
module TxtFolder {
  import opened Text

  // ---------------------------------------------------------------- names

  /** The index of the last c in s, or -1. */
  function LastIndex(s: string, c: char): (i: int)
    ensures -1 <= i < |s|
    ensures i >= 0 ==> s[i] == c
    ensures forall k :: i < k < |s| ==> s[k] != c
  {
    if |s| == 0 then -1
    else if s[|s| - 1] == c then |s| - 1
    else LastIndex(s[..|s| - 1], c)
  }

  predicate OnlyDots(s: string) {
    forall k :: 0 <= k < |s| ==> s[k] == '.'
  }

  /** os.path.splitext for a bare file name: the extension runs from the last '.'
      to the end, unless everything before that '.' is dots (a hidden file such as
      ".txt" has no extension). */
  function SplitExt(name: string): (r: (string, string))
    ensures r.0 + r.1 == name
    ensures r.1 == "" || (r.1[0] == '.' && Free(r.1[1..], '.'))
    ensures r.1 != "" ==> !OnlyDots(r.0)
  {
    var i := LastIndex(name, '.');
    if i < 0 || OnlyDots(name[..i]) then
      assert name + "" == name;
      (name, "")
    else
      assert name[..i] + name[i..] == name;
      (name[..i], name[i..])
  }

  /** filename.lower().endswith('.txt'). */
  predicate IsTxtName(name: string)
  {
    EndsWith(Lower(name), ".txt")
  }

  /** f"{name}{suffix}{ext}" with name, ext = os.path.splitext(filename). */
  function SuffixedName(filename: string, suffix: string): string
  {
    var (stem, ext) := SplitExt(filename);
    stem + suffix + ext
  }

  /** A plain name with one dot gets the suffix before its extension. */
  lemma SuffixedNameOneDot(stem: string, e: string, suffix: string)
    requires |stem| > 0 && Free(stem, '.') && Free(e, '.')
    ensures SuffixedName(stem + "." + e, suffix) == stem + suffix + "." + e
  {
    var name := stem + "." + e;
    assert name[|stem|] == '.';
    assert name[..|stem|] == stem;
    assert name[|stem|..] == "." + e;
    assert !OnlyDots(stem) by {
      assert stem[0] != '.';
    }
  }

  /** A hidden file's name, a dot followed by a dot-free word, is all stem: the
      suffix goes at its end. */
  lemma SuffixedNameHidden(e: string, suffix: string)
    requires Free(e, '.')
    ensures SuffixedName("." + e, suffix) == "." + e + suffix
  {
    var name := "." + e;
    assert name[0] == '.';
    assert LastIndex(name, '.') == 0;
    assert OnlyDots(name[..0]);
    assert name + suffix + "" == name + suffix;
  }

  /** The filter ignores letter case in the extension. */
  lemma IsTxtNameAnyCase(stem: string, ext: string)
    requires |ext| == 4 && ext[0] == '.'
    requires LowerChar(ext[1]) == 't' && LowerChar(ext[2]) == 'x' && LowerChar(ext[3]) == 't'
    ensures IsTxtName(stem + ext)
  {
    var n := stem + ext;
    var l := Lower(n);
    assert l[|l| - 4..] == ".txt" by {
      assert forall k :: 0 <= k < 4 ==> l[|stem| + k] == LowerChar(ext[k]);
    }
  }

  // ---------------------------------------------------------------- written lines

  /** The lines as written: each followed by '\n'. */
  function Terminated(ls: seq<string>): (r: seq<string>)
    ensures |r| == |ls|
  {
    seq(|ls|, i requires 0 <= i < |ls| => ls[i] + "\n")
  }

  lemma TerminatedSnoc(ls: seq<string>, x: string)
    ensures Terminated(ls + [x]) == Terminated(ls) + [x + "\n"]
  {
  }

  // ---------------------------------------------------------------- the folder pass

  /** One listed name handled against the folder as it is now: a ".txt" file is
      transformed by f and written under rename(name) (None when it cannot be read);
      any other name is passed over. */
  function Step(folder: map<string, seq<string>>, name: string, rename: string -> string,
                f: seq<string> -> seq<string>): (r: Option<map<string, seq<string>>>)
    ensures r.None? <==> IsTxtName(name) && name !in folder
  {
    if !IsTxtName(name) then Some(folder)
    else if name !in folder then None
    else Some(folder[rename(name) := f(folder[name])])
  }

  /** The folder after the listed names have been handled in order; None once a
      listed ".txt" name cannot be read, which ends the run. */
  function ProcessFolder(names: seq<string>, folder: map<string, seq<string>>, rename: string -> string,
                         f: seq<string> -> seq<string>): Option<map<string, seq<string>>>
  {
    if |names| == 0 then Some(folder)
    else match ProcessFolder(names[..|names| - 1], folder, rename, f)
      case None => None
      case Some(m) => Step(m, names[|names| - 1], rename, f)
  }

  lemma ProcessFolderStep(names: seq<string>, i: nat, folder: map<string, seq<string>>,
                          rename: string -> string, f: seq<string> -> seq<string>)
    requires i < |names|
    ensures ProcessFolder(names[..i + 1], folder, rename, f) ==
              match ProcessFolder(names[..i], folder, rename, f)
                case None => None
                case Some(m) => Step(m, names[i], rename, f)
  {
    assert names[..i + 1][..i] == names[..i];
  }

  /** process_all_txt_files: every listed name in turn, each ".txt" file transformed
      by f and written under rename(name). */
  method ProcessAllTxtFiles(names: seq<string>, folder: map<string, seq<string>>, rename: string -> string,
                            f: seq<string> -> seq<string>) returns (result: Option<map<string, seq<string>>>)
    ensures result == ProcessFolder(names, folder, rename, f)
  {
    var current := folder;
    var i := 0;
    while i < |names|
      invariant 0 <= i <= |names|
      invariant ProcessFolder(names[..i], folder, rename, f) == Some(current)
    {
      ProcessFolderStep(names, i, folder, rename, f);
      var name := names[i];
      if IsTxtName(name) {
        if name !in current {
          ProcessFolderNone(names, i + 1, folder, rename, f);
          return None;
        }
        current := current[rename(name) := f(current[name])];
      }
      i := i + 1;
    }
    TakeAll(names);
    result := Some(current);
  }

  /** Once the run has ended, later names change nothing. */
  lemma {:induction false} ProcessFolderNone(names: seq<string>, i: nat, folder: map<string, seq<string>>,
                                             rename: string -> string, f: seq<string> -> seq<string>)
    requires i <= |names| && ProcessFolder(names[..i], folder, rename, f).None?
    ensures ProcessFolder(names, folder, rename, f).None?
    decreases |names| - i
  {
    if i < |names| {
      ProcessFolderStep(names, i, folder, rename, f);
      ProcessFolderNone(names, i + 1, folder, rename, f);
    } else {
      assert names[..i] == names;
    }
  }

  /** The files a run writes to. */
  function Targets(names: seq<string>, rename: string -> string): set<string>
  {
    if |names| == 0 then {}
    else
      var last := names[|names| - 1];
      Targets(names[..|names| - 1], rename) + (if IsTxtName(last) then {rename(last)} else {})
  }

  lemma {:induction false} TargetsMembers(names: seq<string>, rename: string -> string)
    ensures forall i :: 0 <= i < |names| && IsTxtName(names[i]) ==> rename(names[i]) in Targets(names, rename)
    ensures forall t :: t in Targets(names, rename) ==>
              exists i :: 0 <= i < |names| && IsTxtName(names[i]) && rename(names[i]) == t
  {
    if |names| > 0 {
      var init := names[..|names| - 1];
      TargetsMembers(init, rename);
      assert forall i :: 0 <= i < |init| ==> init[i] == names[i];
    }
  }

  /** A run over listed ".txt" names that are all readable never fails; the folder
      gains exactly the written files, and existing files that are not written to
      keep their contents. */
  lemma {:induction false} ProcessFolderFrame(names: seq<string>, folder: map<string, seq<string>>,
                                              rename: string -> string, f: seq<string> -> seq<string>)
    requires forall i :: 0 <= i < |names| && IsTxtName(names[i]) ==> names[i] in folder
    ensures ProcessFolder(names, folder, rename, f).Some?
    ensures ProcessFolder(names, folder, rename, f).value.Keys == folder.Keys + Targets(names, rename)
    ensures forall k :: k in folder && k !in Targets(names, rename) ==>
              ProcessFolder(names, folder, rename, f).value[k] == folder[k]
  {
    if |names| > 0 {
      var init := names[..|names| - 1];
      assert forall i :: 0 <= i < |init| ==> init[i] == names[i];
      ProcessFolderFrame(init, folder, rename, f);
    }
  }

  /** When no written file is itself a listed name and no two listed ".txt" names
      share an output name, every output holds the transformed original. */
  lemma {:induction false} ProcessFolderOutputs(names: seq<string>, folder: map<string, seq<string>>,
                                                rename: string -> string, f: seq<string> -> seq<string>)
    requires forall i :: 0 <= i < |names| && IsTxtName(names[i]) ==> names[i] in folder
    requires forall i, j :: 0 <= i < |names| && 0 <= j < |names| && IsTxtName(names[i]) ==>
               rename(names[i]) != names[j]
    requires forall i, j :: 0 <= i < j < |names| && IsTxtName(names[i]) && IsTxtName(names[j]) ==>
               rename(names[i]) != rename(names[j])
    ensures ProcessFolder(names, folder, rename, f).Some?
    ensures forall i :: 0 <= i < |names| && IsTxtName(names[i]) ==>
              rename(names[i]) in ProcessFolder(names, folder, rename, f).value &&
              ProcessFolder(names, folder, rename, f).value[rename(names[i])] == f(folder[names[i]])
  {
    ProcessFolderFrame(names, folder, rename, f);
    if |names| > 0 {
      var init := names[..|names| - 1];
      assert forall i :: 0 <= i < |init| ==> init[i] == names[i];
      ProcessFolderOutputs(init, folder, rename, f);
      OutputsStep(names, folder, rename, f);
    }
  }

  /** The last name's step: earlier outputs are not overwritten, and the last file
      is read before anything was written to it. */
  lemma OutputsStep(names: seq<string>, folder: map<string, seq<string>>,
                    rename: string -> string, f: seq<string> -> seq<string>)
    requires |names| > 0
    requires forall i :: 0 <= i < |names| && IsTxtName(names[i]) ==> names[i] in folder
    requires forall i, j :: 0 <= i < |names| && 0 <= j < |names| && IsTxtName(names[i]) ==>
               rename(names[i]) != names[j]
    requires forall i, j :: 0 <= i < j < |names| && IsTxtName(names[i]) && IsTxtName(names[j]) ==>
               rename(names[i]) != rename(names[j])
    requires ProcessFolder(names[..|names| - 1], folder, rename, f).Some?
    requires forall i :: 0 <= i < |names| - 1 && IsTxtName(names[i]) ==>
               rename(names[i]) in ProcessFolder(names[..|names| - 1], folder, rename, f).value &&
               ProcessFolder(names[..|names| - 1], folder, rename, f).value[rename(names[i])] == f(folder[names[i]])
    ensures ProcessFolder(names, folder, rename, f).Some?
    ensures forall i :: 0 <= i < |names| && IsTxtName(names[i]) ==>
              rename(names[i]) in ProcessFolder(names, folder, rename, f).value &&
              ProcessFolder(names, folder, rename, f).value[rename(names[i])] == f(folder[names[i]])
  {
    var init := names[..|names| - 1];
    var last := names[|names| - 1];
    assert forall i :: 0 <= i < |init| ==> init[i] == names[i];
    ProcessFolderFrame(init, folder, rename, f);
    TargetsMembers(init, rename);
    var m0 := ProcessFolder(init, folder, rename, f).value;
    if IsTxtName(last) {
      assert last !in Targets(init, rename);
      assert m0[last] == folder[last];
    }
  }
}
