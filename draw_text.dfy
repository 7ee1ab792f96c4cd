/** The text layout every tool shares for a combination: the numbers right-aligned to
    width two and joined by ", " (', '.join(f'{n:2d}' for n in combo)), and the way
    the draw loaders read such a list back: split on ',', strip each part and keep
    the parts that are all digits. */
module DrawText {
  import opened Text

  /** f'{n:2d}' for every number. */
  function Pad2s(ns: seq<int>): (ps: seq<string>)
    ensures |ps| == |ns|
  {
    seq(|ns|, i requires 0 <= i < |ns| => Pad2(ns[i]))
  }

  /** ', '.join(f'{n:2d}' for n in ns). */
  function FormatNumbers(ns: seq<int>): string
  {
    Join(Pad2s(ns), ", ")
  }

  /** One comma-separated part: its value when, stripped, it is all digits. */
  function TokenValue(part: string): (r: seq<nat>)
    ensures |r| <= 1
  {
    var t := Strip(part);
    if IsDigits(t) then [DigitsValue(t)] else []
  }

  /** The numbers a loader collects from the comma-separated parts of a number field,
      in order: each part stripped and kept when str.isdigit() holds. */
  function DigitTokens(parts: seq<string>): (r: seq<nat>)
    ensures |r| <= |parts|
  {
    if |parts| == 0 then [] else TokenValue(parts[0]) + DigitTokens(parts[1..])
  }

  /** The number-collecting loop of the draw loaders: for every comma-separated part,
      strip it and append its value when it is all digits. */
  method CollectNumbers(parts: seq<string>) returns (numbers: seq<nat>)
    ensures numbers == DigitTokens(parts)
  {
    numbers := [];
    var i := 0;
    while i < |parts|
      invariant 0 <= i <= |parts|
      invariant numbers == DigitTokens(parts[..i])
    {
      var t := Strip(parts[i]);
      DigitTokensStep(parts, i);
      if IsDigits(t) {
        numbers := numbers + [DigitsValue(t)];
      }
      i := i + 1;
    }
    TakeAll(parts);
  }

  /** One more part read: its value, if any, follows the values before it. */
  lemma DigitTokensStep(parts: seq<string>, i: nat)
    requires i < |parts|
    ensures DigitTokens(parts[..i + 1]) == DigitTokens(parts[..i]) + TokenValue(parts[i])
  {
    assert parts[..i + 1] == parts[..i] + [parts[i]];
    DigitTokensAppend(parts[..i], [parts[i]]);
    DigitTokensCons(parts[i], []);
    assert TokenValue(parts[i]) + [] == TokenValue(parts[i]);
  }

  /** The numbers of ns within [lo, hi], in order: the range check the 4-combo and
      JSON loaders apply before counting. */
  function InRange(ns: seq<nat>, lo: int, hi: int): (r: seq<nat>)
    ensures |r| <= |ns|
  {
    if |ns| == 0 then []
    else InRange(ns[..|ns| - 1], lo, hi) + (if lo <= ns[|ns| - 1] <= hi then [ns[|ns| - 1]] else [])
  }

  /** The range filter keeps exactly the numbers of ns within [lo, hi]. */
  lemma {:induction false} InRangeMembers(ns: seq<nat>, lo: int, hi: int)
    ensures forall x :: x in InRange(ns, lo, hi) <==> x in ns && lo <= x <= hi
  {
    if |ns| > 0 {
      InRangeMembers(ns[..|ns| - 1], lo, hi);
      assert ns == ns[..|ns| - 1] + [ns[|ns| - 1]];
    }
  }

  lemma {:induction false} InRangeAppend(a: seq<nat>, b: seq<nat>, lo: int, hi: int)
    ensures InRange(a + b, lo, hi) == InRange(a, lo, hi) + InRange(b, lo, hi)
    decreases |b|
  {
    if |b| == 0 {
      assert a + b == a;
    } else {
      assert (a + b)[..|a + b| - 1] == a + b[..|b| - 1];
      InRangeAppend(a, b[..|b| - 1], lo, hi);
    }
  }

  /** One more part read, with the range check. */
  lemma InRangeStep(parts: seq<string>, i: nat, lo: int, hi: int)
    requires i < |parts|
    ensures var t := Strip(parts[i]);
            InRange(DigitTokens(parts[..i + 1]), lo, hi) ==
              InRange(DigitTokens(parts[..i]), lo, hi) +
              (if IsDigits(t) && lo <= DigitsValue(t) <= hi then [DigitsValue(t)] else [])
  {
    DigitTokensStep(parts, i);
    InRangeAppend(DigitTokens(parts[..i]), TokenValue(parts[i]), lo, hi);
    var t := Strip(parts[i]);
    if IsDigits(t) {
      var num := DigitsValue(t);
      assert InRange([num], lo, hi) == InRange([], lo, hi) + (if lo <= num <= hi then [num] else []);
    }
  }

  /** The number-collecting loop with the range check: a stripped all-digit part is
      appended only when its value lies in [lo, hi]. */
  method CollectInRange(parts: seq<string>, lo: int, hi: int) returns (numbers: seq<nat>)
    ensures numbers == InRange(DigitTokens(parts), lo, hi)
  {
    numbers := [];
    var i := 0;
    while i < |parts|
      invariant 0 <= i <= |parts|
      invariant numbers == InRange(DigitTokens(parts[..i]), lo, hi)
    {
      var t := Strip(parts[i]);
      InRangeStep(parts, i, lo, hi);
      if IsDigits(t) {
        var num := DigitsValue(t);
        if lo <= num <= hi {
          numbers := numbers + [num];
        }
      }
      i := i + 1;
    }
    TakeAll(parts);
  }

  lemma {:induction false} DigitTokensAppend(a: seq<string>, b: seq<string>)
    ensures DigitTokens(a + b) == DigitTokens(a) + DigitTokens(b)
  {
    if |a| > 0 {
      assert (a + b)[1..] == a[1..] + b;
      DigitTokensAppend(a[1..], b);
    } else {
      assert a + b == b;
    }
  }

  /** The numbers written by FormatNumbers are read back unchanged, whatever
      whitespace precedes the list. */
  lemma {:induction false} FormatNumbersParse(ns: seq<nat>, w: string)
    requires forall i :: 0 <= i < |w| ==> IsSpace(w[i])
    ensures DigitTokens(Split(w + FormatNumbers(ns), ',')) == ns
    decreases |ns|
  {
    if |ns| == 0 {
      FormatParseEmpty(w);
    } else if |ns| == 1 {
      assert ns == [ns[0]];
      FormatParseOne(ns[0], w);
    } else {
      var head := w + Pad2(ns[0]);
      var rest := FormatNumbers(ns[1..]);
      PaddedToken(w, ns[0]);
      FormatNumbersCons(ns);
      assert w + FormatNumbers(ns) == head + [','] + (" " + rest);
      SplitCons(head, ',', " " + rest);
      FormatNumbersParse(ns[1..], " ");
      DigitTokensCons(head, Split(" " + rest, ','));
      assert ns == [ns[0]] + ns[1..];
    }
  }

  lemma FormatParseEmpty(w: string)
    requires forall i :: 0 <= i < |w| ==> IsSpace(w[i])
    ensures DigitTokens(Split(w + FormatNumbers([]), ',')) == []
  {
    FormatNumbersEmpty();
    assert w + FormatNumbers([]) == w;
    assert Free(w, ',');
    SplitFree(w, ',');
    BlankToken(w);
    DigitTokensCons(w, []);
  }

  lemma FormatNumbersEmpty()
    ensures FormatNumbers([]) == ""
  {
    assert Pad2s([]) == [];
  }

  /** A whitespace-only part holds no number. */
  lemma BlankToken(w: string)
    requires forall i :: 0 <= i < |w| ==> IsSpace(w[i])
    ensures TokenValue(w) == []
  {
    AllSpaceStrip(w);
  }

  lemma FormatParseOne(n: nat, w: string)
    requires forall i :: 0 <= i < |w| ==> IsSpace(w[i])
    ensures DigitTokens(Split(w + FormatNumbers([n]), ',')) == [n]
  {
    var head := w + Pad2(n);
    FormatNumbersOne(n);
    PaddedToken(w, n);
    SplitFree(head, ',');
    DigitTokensCons(head, []);
  }

  lemma FormatNumbersOne(n: int)
    ensures FormatNumbers([n]) == Pad2(n)
  {
    assert Pad2s([n]) == [Pad2(n)];
  }

  lemma PaddedToken(w: string, n: nat)
    requires forall i :: 0 <= i < |w| ==> IsSpace(w[i])
    ensures TokenValue(w + Pad2(n)) == [n]
    ensures Free(w + Pad2(n), ',')
  {
    var p := Pad2(n);
    Pad2OfNat(n);
    StripSpacePrefix(w, p);
    var t := Strip(w + p);
    assert t == Strip(p);
    assert IsDigits(t) && DigitsValue(t) == n;
    forall i | 0 <= i < |w + p| ensures (w + p)[i] != ',' {
      if i < |w| {
        assert (w + p)[i] == w[i];
      } else {
        assert (w + p)[i] == p[i - |w|];
      }
    }
  }

  lemma FormatNumbersCons(ns: seq<int>)
    requires |ns| >= 2
    ensures FormatNumbers(ns) == Pad2(ns[0]) + ", " + FormatNumbers(ns[1..])
  {
    assert Pad2s(ns)[1..] == Pad2s(ns[1..]);
  }

  lemma DigitTokensCons(p: string, parts: seq<string>)
    ensures DigitTokens([p] + parts) == TokenValue(p) + DigitTokens(parts)
  {
    assert ([p] + parts)[1..] == parts;
  }

  /** str(n) for every number. */
  function NatStrings(ns: seq<nat>): (ss: seq<string>)
    ensures |ss| == |ns|
  {
    seq(|ns|, i requires 0 <= i < |ns| => NatToString(ns[i]))
  }

  /** The words str(n) are read back, by the strip-and-isdigit filter, as the
      numbers they spell. */
  lemma {:induction false} DigitTokensOfNatStrings(ns: seq<nat>)
    ensures DigitTokens(NatStrings(ns)) == ns
  {
    if |ns| > 0 {
      var ss := NatStrings(ns);
      assert ss == [NatToString(ns[0])] + NatStrings(ns[1..]);
      DigitTokensCons(NatToString(ns[0]), NatStrings(ns[1..]));
      DigitTokensOfNatStrings(ns[1..]);
      NatToStringDigits(ns[0]);
      DigitsHaveNoSpace(NatToString(ns[0]));
      StripNoSpace(NatToString(ns[0]));
      assert ns == [ns[0]] + ns[1..];
    }
  }

  /** f'{n:2d}' for a non-negative n is str(n), after one space when n < 10. */
  lemma Pad2Parts(n: nat)
    ensures Pad2(n) == (if n < 10 then " " else "") + NatToString(n)
    ensures IsDigits(NatToString(n)) && NoSpace(NatToString(n))
  {
    NatToStringDigits(n);
    DigitsHaveNoSpace(NatToString(n));
  }

  /** The common layout with its commas turned into spaces. */
  function SpacedNumbers(ns: seq<int>): string
  {
    ReplaceChar(FormatNumbers(ns), ',', " ")
  }

  lemma SpacedNumbersCons(ns: seq<int>)
    requires |ns| >= 2
    ensures SpacedNumbers(ns) == Pad2(ns[0]) + "  " + SpacedNumbers(ns[1..])
  {
    var p := Pad2(ns[0]);
    var rest := FormatNumbers(ns[1..]);
    var sep := ", ";
    FormatNumbersCons(ns);
    SeqAssoc(p, sep, rest);
    ReplaceCharAppend(p, sep + rest, ',', " ");
    ReplaceCharAppend(sep, rest, ',', " ");
    CommaSpace();
    Pad2NoComma(ns[0]);
    SeqAssoc(p, "  ", SpacedNumbers(ns[1..]));
  }

  lemma CommaSpace()
    ensures ReplaceChar(", ", ',', " ") == "  "
  {
  }

  lemma Pad2NoComma(n: int)
    ensures ReplaceChar(Pad2(n), ',', " ") == Pad2(n)
  {
    var m := if n < 0 then -n else n;
    assert Free(NatToString(m), ',') by {
      NatToStringDigits(m);
    }
    assert Free(Pad2(n), ',');
    ReplaceCharFree(Pad2(n), ',', " ");
  }

  /** str.split() on the common layout with its commas turned into spaces gives the
      numbers' decimal words, whatever follows after whitespace. */
  lemma {:induction false} SplitWsSpacedNumbers(ns: seq<nat>, t: string)
    requires |ns| > 0
    requires |t| == 0 || IsSpace(t[0])
    ensures SplitWs(SpacedNumbers(ns) + t) == NatStrings(ns) + SplitWs(t)
    decreases |ns|
  {
    if |ns| == 1 {
      SpacedNumbersOne(ns[0]);
      SplitWsPad2(ns[0], t);
      NatStringsCons(ns);
    } else {
      SplitWsSpacedNumbers(ns[1..], t);
      SplitWsSpacedStep(ns, t);
    }
  }

  lemma SplitWsSpacedStep(ns: seq<nat>, t: string)
    requires |ns| >= 2
    requires |t| == 0 || IsSpace(t[0])
    requires SplitWs(SpacedNumbers(ns[1..]) + t) == NatStrings(ns[1..]) + SplitWs(t)
    ensures SplitWs(SpacedNumbers(ns) + t) == NatStrings(ns) + SplitWs(t)
  {
    SplitWsSpacedHead(ns, t);
    NatStringsCons(ns);
    SeqAssoc([NatToString(ns[0])], NatStrings(ns[1..]), SplitWs(t));
  }

  /** The first number of the spaced layout is its first word. */
  lemma SplitWsSpacedHead(ns: seq<nat>, t: string)
    requires |ns| >= 2
    ensures SplitWs(SpacedNumbers(ns) + t) == [NatToString(ns[0])] + SplitWs(SpacedNumbers(ns[1..]) + t)
  {
    var rest := SpacedNumbers(ns[1..]);
    SpacedNumbersCons(ns);
    Regroup(Pad2(ns[0]), "  ", rest, t);
    SplitWsPad2(ns[0], "  " + (rest + t));
    SplitWsLeadingSpace("  ", rest + t);
  }

  lemma NatStringsCons(ns: seq<nat>)
    requires |ns| > 0
    ensures NatStrings(ns) == [NatToString(ns[0])] + NatStrings(ns[1..])
  {
  }

  lemma SplitWsPad2(n: nat, t: string)
    requires |t| == 0 || IsSpace(t[0])
    ensures SplitWs(Pad2(n) + t) == [NatToString(n)] + SplitWs(t)
  {
    var lead := if n < 10 then " " else "";
    Pad2Parts(n);
    SplitWsWord(lead, NatToString(n), t);
  }

  lemma SpacedNumbersOne(n: nat)
    ensures SpacedNumbers([n]) == Pad2(n)
  {
    FormatNumbersOne(n);
    Pad2NoComma(n);
  }

  /** The numbers written in the common layout are read back unchanged, whatever
      whitespace surrounds the list. */
  lemma {:induction false} FormatNumbersParseBetween(ns: seq<nat>, w: string, v: string)
    requires forall i :: 0 <= i < |w| ==> IsSpace(w[i])
    requires forall i :: 0 <= i < |v| ==> IsSpace(v[i])
    ensures DigitTokens(Split(w + FormatNumbers(ns) + v, ',')) == ns
    decreases |ns|
  {
    if |ns| == 0 {
      FormatNumbersEmpty();
      SeqUnit(w);
      BlankParse(w, v);
    } else if |ns| == 1 {
      FormatNumbersOne(ns[0]);
      OneParse(w, ns[0], v);
    } else {
      var head := w + Pad2(ns[0]);
      var rest := FormatNumbers(ns[1..]);
      PaddedToken(w, ns[0]);
      FormatNumbersCons(ns);
      CommaRegroup(w, Pad2(ns[0]), rest, v);
      SplitCons(head, ',', " " + rest + v);
      FormatNumbersParseBetween(ns[1..], " ", v);
      DigitTokensCons(head, Split(" " + rest + v, ','));
      HeadTail(ns);
    }
  }

  lemma CommaRegroup(w: string, p: string, rest: string, v: string)
    ensures w + (p + ", " + rest) + v == (w + p) + [','] + (" " + rest + v)
  {
  }

  lemma BlankParse(w: string, v: string)
    requires forall i :: 0 <= i < |w| ==> IsSpace(w[i])
    requires forall i :: 0 <= i < |v| ==> IsSpace(v[i])
    ensures DigitTokens(Split(w + v, ',')) == []
  {
    SpacesAppend(w, v);
    SpacesFree(w + v);
    SplitFree(w + v, ',');
    BlankToken(w + v);
    DigitTokensCons(w + v, []);
  }

  lemma SpacesAppend(w: string, v: string)
    requires forall i :: 0 <= i < |w| ==> IsSpace(w[i])
    requires forall i :: 0 <= i < |v| ==> IsSpace(v[i])
    ensures forall i :: 0 <= i < |w + v| ==> IsSpace((w + v)[i])
  {
  }

  lemma SpacesFree(b: string)
    requires forall i :: 0 <= i < |b| ==> IsSpace(b[i])
    ensures Free(b, ',')
  {
  }

  lemma OneParse(w: string, n: nat, v: string)
    requires forall i :: 0 <= i < |w| ==> IsSpace(w[i])
    requires forall i :: 0 <= i < |v| ==> IsSpace(v[i])
    ensures DigitTokens(Split(w + Pad2(n) + v, ',')) == [n]
  {
    var head := w + Pad2(n);
    PaddedToken(w, n);
    StripSpaceSuffix(head, v);
    SpacesFree(v);
    FreeAppend(head, v, ',');
    SplitFree(head + v, ',');
    DigitTokensCons(head + v, []);
  }

  /** The range filter keeps a list whose numbers all lie in the range. */
  lemma {:induction false} InRangeAll(ns: seq<nat>, lo: int, hi: int)
    requires forall i :: 0 <= i < |ns| ==> lo <= ns[i] <= hi
    ensures InRange(ns, lo, hi) == ns
  {
    if |ns| > 0 {
      InRangeAll(ns[..|ns| - 1], lo, hi);
      assert ns == ns[..|ns| - 1] + [ns[|ns| - 1]];
    }
  }

  /** The common layout is made of digits, spaces and commas only. */
  lemma {:induction false} FormatNumbersChars(ns: seq<nat>)
    ensures forall i :: 0 <= i < |FormatNumbers(ns)| ==>
              IsDigit(FormatNumbers(ns)[i]) || FormatNumbers(ns)[i] == ' ' || FormatNumbers(ns)[i] == ','
    decreases |ns|
  {
    if |ns| == 1 {
      FormatNumbersOne(ns[0]);
      Pad2Chars(ns[0]);
    } else if |ns| >= 2 {
      var f := FormatNumbers(ns);
      var p := Pad2(ns[0]);
      var rest := FormatNumbers(ns[1..]);
      FormatNumbersCons(ns);
      Pad2Chars(ns[0]);
      FormatNumbersChars(ns[1..]);
      forall i | 0 <= i < |f| ensures IsDigit(f[i]) || f[i] == ' ' || f[i] == ',' {
        if i < |p| {
          assert f[i] == p[i];
        } else if i >= |p| + 2 {
          assert f[i] == rest[i - |p| - 2];
        }
      }
    } else {
      FormatNumbersEmpty();
    }
  }

  lemma Pad2Chars(n: nat)
    ensures forall i :: 0 <= i < |Pad2(n)| ==> IsDigit(Pad2(n)[i]) || Pad2(n)[i] == ' '
    ensures |Pad2(n)| > 0 && IsDigit(Pad2(n)[|Pad2(n)| - 1])
  {
    Pad2Parts(n);
    var s := NatToString(n);
    if n < 10 {
      assert forall i :: 1 <= i < |Pad2(n)| ==> Pad2(n)[i] == s[i - 1];
    }
  }

  /** The number field of a "YYMMDD:  n1, ..., n6 / bonus" line:
      line.split(':')[1].split('/')[0].strip(), for a line that holds a ':'. */
  function NumberField(line: string): string
    requires ':' in line
  {
    SplitHasSep(line, ':');
    Strip(Split(Split(line, ':')[1], '/')[0])
  }
}
