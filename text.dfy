/** Python's string operations on ASCII text, as the lottery tools use them:
    str.strip, str.split (with and without a separator), str.join, str.isdigit,
    int(), str.lower, str.replace, str.endswith and the f'{n:2d}' / f'{n:,}' formats. */
module Text {

  /** The ASCII characters Python's str.split() and str.strip() treat as whitespace:
      \t \n \x0b \x0c \r, the separators \x1c..\x1f and the space. */
  predicate IsSpace(c: char) {
    9 <= c as int <= 13 || 28 <= c as int <= 32
  }

  predicate IsDigit(c: char) {
    '0' <= c <= '9'
  }

  /** str.isdigit() on ASCII text: non-empty and made of decimal digits only. */
  predicate IsDigits(s: string) {
    |s| > 0 && forall i :: 0 <= i < |s| ==> IsDigit(s[i])
  }

  predicate NoSpace(s: string) {
    forall i :: 0 <= i < |s| ==> !IsSpace(s[i])
  }

  function DigitValue(c: char): nat
    requires IsDigit(c)
  {
    c as int - '0' as int
  }

  function DigitChar(d: nat): (c: char)
    requires d < 10
    ensures IsDigit(c) && DigitValue(c) == d
  {
    ('0' as int + d) as char
  }

  /** The value of a string of decimal digits (int(s) when s.isdigit()). */
  function DigitsValue(s: string): nat
    requires forall i :: 0 <= i < |s| ==> IsDigit(s[i])
  {
    if |s| == 0 then 0 else DigitsValue(s[..|s| - 1]) * 10 + DigitValue(s[|s| - 1])
  }

  /** str(n) for a non-negative integer. */
  function NatToString(n: nat): string
  {
    if n < 10 then [DigitChar(n)] else NatToString(n / 10) + [DigitChar(n % 10)]
  }

  lemma {:induction false} NatToStringDigits(n: nat)
    ensures IsDigits(NatToString(n))
    ensures DigitsValue(NatToString(n)) == n
    ensures |NatToString(n)| == 1 <==> n < 10
  {
    if n >= 10 {
      NatToStringDigits(n / 10);
      var s := NatToString(n);
      assert s[..|s| - 1] == NatToString(n / 10);
    }
  }

  /** str(i) for any integer. */
  function IntToString(i: int): string
  {
    if i < 0 then "-" + NatToString(-i) else NatToString(i)
  }

  /** f'{i:2d}': str(i) right-aligned in a field of width two. */
  function Pad2(i: int): string
  {
    var s := IntToString(i);
    if |s| < 2 then " " + s else s
  }

  lemma Pad2OfNat(n: nat)
    ensures Strip(Pad2(n)) == NatToString(n)
    ensures IsDigits(Strip(Pad2(n))) && DigitsValue(Strip(Pad2(n))) == n
    ensures NoComma(Pad2(n))
  {
    NatToStringDigits(n);
    var s := NatToString(n);
    DigitsHaveNoSpace(s);
    StripNoSpace(s);
    DigitsNoComma(s);
    if |s| < 2 {
      PadStrip(s);
    }
  }

  lemma PadStrip(s: string)
    requires NoSpace(s)
    ensures Strip(" " + s) == s
  {
    StripSpacePrefix(" ", s);
    StripNoSpace(s);
  }

  lemma DigitsNoComma(s: string)
    requires IsDigits(s)
    ensures NoComma(s) && NoComma(" " + s)
  {
    assert forall i :: 0 <= i < |s| ==> (" " + s)[i + 1] == s[i];
  }

  predicate NoComma(s: string) {
    forall i :: 0 <= i < |s| ==> s[i] != ','
  }

  lemma DigitsHaveNoSpace(s: string)
    requires IsDigits(s)
    ensures NoSpace(s) && |s| > 0
  {
  }

  /** f'{n:,}': decimal digits with a comma between groups of three. */
  function Thousands(n: nat): string
  {
    if n < 1000 then NatToString(n)
    else Thousands(n / 1000) + "," + Pad3(n % 1000)
  }

  function Pad3(n: nat): string
    requires n < 1000
  {
    [DigitChar(n / 100), DigitChar(n / 10 % 10), DigitChar(n % 10)]
  }

  // ---------------------------------------------------------------- strip

  function LStrip(s: string): string
  {
    if |s| > 0 && IsSpace(s[0]) then LStrip(s[1..]) else s
  }

  function RStrip(s: string): string
  {
    if |s| > 0 && IsSpace(s[|s| - 1]) then RStrip(s[..|s| - 1]) else s
  }

  /** rstrip() keeps a prefix of s. */
  lemma {:induction false} RStripPrefix(s: string)
    ensures |RStrip(s)| <= |s| && RStrip(s) == s[..|RStrip(s)|]
  {
    if |s| > 0 && IsSpace(s[|s| - 1]) {
      RStripPrefix(s[..|s| - 1]);
    }
  }

  /** str.strip(): whitespace removed at both ends. */
  function Strip(s: string): string
  {
    RStrip(LStrip(s))
  }

  lemma StripEnds(s: string)
    ensures var r := Strip(s);
      (|r| == 0 || (!IsSpace(r[0]) && !IsSpace(r[|r| - 1])))
  {
    var l := LStrip(s);
    LStripFirst(s);
    RStripLast(l);
    var r := RStrip(l);
    RStripPrefix(l);
    if |r| > 0 {
      assert r[0] == l[0];
    }
  }

  lemma {:induction false} LStripFirst(s: string)
    ensures var l := LStrip(s); |l| == 0 || !IsSpace(l[0])
    ensures (forall i :: 0 <= i < |s| ==> IsSpace(s[i])) <==> LStrip(s) == ""
  {
    if |s| > 0 && IsSpace(s[0]) {
      LStripFirst(s[1..]);
      if LStrip(s[1..]) == "" {
        forall i | 0 <= i < |s| ensures IsSpace(s[i]) {
          if i > 0 { assert s[1..][i - 1] == s[i]; }
        }
      }
    }
  }

  lemma {:induction false} RStripLast(s: string)
    ensures var r := RStrip(s); |r| == 0 || !IsSpace(r[|r| - 1])
    ensures (forall i :: 0 <= i < |s| ==> IsSpace(s[i])) <==> RStrip(s) == ""
  {
    if |s| > 0 && IsSpace(s[|s| - 1]) {
      RStripLast(s[..|s| - 1]);
      if RStrip(s[..|s| - 1]) == "" {
        forall i | 0 <= i < |s| ensures IsSpace(s[i]) {
          if i < |s| - 1 { assert s[..|s| - 1][i] == s[i]; }
        }
      }
    }
  }

  /** Leading whitespace makes no difference once a string is stripped. */
  lemma {:induction false} StripSpacePrefix(w: string, x: string)
    requires forall i :: 0 <= i < |w| ==> IsSpace(w[i])
    ensures Strip(w + x) == Strip(x)
    decreases |w|
  {
    if |w| > 0 {
      StripSpacePrefix(w[1..], x);
      assert (w + x)[1..] == w[1..] + x;
      assert LStrip(w + x) == LStrip(w[1..] + x);
    } else {
      assert w + x == x;
    }
  }

  lemma StripNoSpace(s: string)
    ensures NoSpace(s) ==> Strip(s) == s
  {
    if NoSpace(s) && |s| > 0 {
      assert LStrip(s) == s;
      assert RStrip(s) == s;
    }
  }

  lemma AllSpaceStrip(s: string)
    ensures (forall i :: 0 <= i < |s| ==> IsSpace(s[i])) <==> Strip(s) == ""
  {
    LStripFirst(s);
    var l := LStrip(s);
    RStripLast(l);
  }

  /** Trailing whitespace makes no difference once a string is stripped. */
  lemma StripSpaceSuffix(x: string, w: string)
    requires forall i :: 0 <= i < |w| ==> IsSpace(w[i])
    ensures Strip(x + w) == Strip(x)
  {
    if LStrip(x) == "" {
      LStripFirst(x);
      assert forall i :: 0 <= i < |x + w| ==> IsSpace((x + w)[i]) by {
        forall i | 0 <= i < |x + w| ensures IsSpace((x + w)[i]) {
          if i >= |x| {
            assert (x + w)[i] == w[i - |x|];
          }
        }
      }
      AllSpaceStrip(x + w);
    } else {
      LStripAppend(x, w);
      RStripSpaceSuffix(LStrip(x), w);
    }
  }

  lemma {:induction false} LStripAppend(x: string, w: string)
    requires LStrip(x) != ""
    ensures LStrip(x + w) == LStrip(x) + w
  {
    if |x| > 0 && IsSpace(x[0]) {
      assert (x + w)[1..] == x[1..] + w;
      LStripAppend(x[1..], w);
    }
  }

  lemma {:induction false} RStripSpaceSuffix(y: string, w: string)
    requires forall i :: 0 <= i < |w| ==> IsSpace(w[i])
    ensures RStrip(y + w) == RStrip(y)
    decreases |w|
  {
    if |w| > 0 {
      var v := w[..|w| - 1];
      assert (y + w)[..|y + w| - 1] == y + v;
      RStripSpaceSuffix(y, v);
    } else {
      assert y + w == y;
    }
  }

  /** A string with no whitespace at either end is its own strip. */
  lemma StripTrimmed(s: string)
    requires |s| > 0 && !IsSpace(s[0]) && !IsSpace(s[|s| - 1])
    ensures Strip(s) == s
  {
    assert LStrip(s) == s;
  }

  /** lstrip() drops a whitespace prefix and rstrip() a whitespace suffix. */
  lemma {:induction false} LStripDrop(s: string)
    ensures |LStrip(s)| <= |s| && LStrip(s) == s[|s| - |LStrip(s)|..]
    ensures forall i :: 0 <= i < |s| - |LStrip(s)| ==> IsSpace(s[i])
  {
    if |s| > 0 && IsSpace(s[0]) {
      LStripDrop(s[1..]);
    }
  }

  lemma {:induction false} RStripKeep(s: string)
    ensures |RStrip(s)| <= |s| && RStrip(s) == s[..|RStrip(s)|]
    ensures forall i :: |RStrip(s)| <= i < |s| ==> IsSpace(s[i])
  {
    if |s| > 0 && IsSpace(s[|s| - 1]) {
      RStripKeep(s[..|s| - 1]);
    }
  }

  // ---------------------------------------------------------------- split and join

  /** str.split(sep) for a one-character separator: always at least one part,
      one more part than there are separators. */
  function Split(s: string, sep: char): (parts: seq<string>)
    ensures |parts| >= 1
    decreases |s|
  {
    if |s| == 0 then [""]
    else
      var rest := Split(s[1..], sep);
      if s[0] == sep then [""] + rest else [[s[0]] + rest[0]] + rest[1..]
  }

  /** sep.join(parts). */
  function Join(parts: seq<string>, sep: string): string
  {
    if |parts| == 0 then ""
    else if |parts| == 1 then parts[0]
    else parts[0] + sep + Join(parts[1..], sep)
  }

  predicate Free(s: string, c: char) {
    forall i :: 0 <= i < |s| ==> s[i] != c
  }

  lemma Regroup(a: string, b: string, c: string, d: string)
    ensures a + b + c + d == a + (b + (c + d))
  {
  }

  lemma SeqUnit<T>(a: seq<T>)
    ensures a + [] == a
  {
  }

  lemma HeadTail<T>(s: seq<T>)
    requires |s| > 0
    ensures [s[0]] + s[1..] == s
  {
  }

  lemma SplitAt<T>(s: seq<T>, k: nat)
    requires k <= |s|
    ensures s[..k] + s[k..] == s
  {
  }

  lemma PrefixOfAppend<T>(a: seq<T>, b: seq<T>)
    ensures (a + b)[..|a|] == a
  {
  }

  lemma SnocLast<T>(s: seq<T>)
    requires |s| > 0
    ensures s[..|s| - 1] + [s[|s| - 1]] == s
  {
  }

  lemma TakeAll<T>(s: seq<T>)
    ensures s[..|s|] == s
  {
  }

  /** A nonzero multiple of a positive factor is at least that factor in size. */
  lemma MulBound(x: int, f: int)
    requires f > 0
    ensures x >= 1 ==> x * f >= f
    ensures x <= -1 ==> x * f <= -f
  {
    if x >= 1 {
      assert x * f == (x - 1) * f + f;
    } else if x <= -1 {
      assert x * f == (x + 1) * f - f;
    }
  }

  lemma SeqAssoc<T>(a: seq<T>, b: seq<T>, c: seq<T>)
    ensures a + (b + c) == (a + b) + c
  {
  }

  lemma FreeAppend(a: string, b: string, c: char)
    requires Free(a, c) && Free(b, c)
    ensures Free(a + b, c)
  {
    forall i | 0 <= i < |a + b| ensures (a + b)[i] != c {
      if i < |a| {
        assert (a + b)[i] == a[i];
      } else {
        assert (a + b)[i] == b[i - |a|];
      }
    }
  }

  /** The parts of a split never contain the separator, and joining them back
      with the separator gives the original string. */
  lemma {:induction false} SplitJoin(s: string, sep: char)
    ensures forall i :: 0 <= i < |Split(s, sep)| ==> Free(Split(s, sep)[i], sep)
    ensures Join(Split(s, sep), [sep]) == s
    decreases |s|
  {
    if |s| > 0 {
      var rest := Split(s[1..], sep);
      SplitJoin(s[1..], sep);
      if s[0] == sep {
        assert Split(s, sep) == [""] + rest;
        assert s == [sep] + s[1..];
      } else {
        var parts := Split(s, sep);
        assert parts == [[s[0]] + rest[0]] + rest[1..];
        if |rest| == 1 {
          assert Join(parts, [sep]) == [s[0]] + rest[0];
        } else {
          assert parts[1..] == rest[1..];
          assert Join(rest, [sep]) == rest[0] + [sep] + Join(rest[1..], [sep]);
          assert Join(parts, [sep]) == [s[0]] + rest[0] + [sep] + Join(rest[1..], [sep]);
        }
        assert s == [s[0]] + s[1..];
      }
    }
  }

  /** Splitting a joined list of separator-free parts gives the parts back. */
  lemma {:induction false} JoinSplit(parts: seq<string>, sep: char)
    requires |parts| >= 1
    requires forall i :: 0 <= i < |parts| ==> Free(parts[i], sep)
    ensures Split(Join(parts, [sep]), sep) == parts
    decreases |parts|
  {
    if |parts| == 1 {
      SplitFree(parts[0], sep);
    } else {
      JoinSplit(parts[1..], sep);
      SplitCons(parts[0], sep, Join(parts[1..], [sep]));
      HeadTail(parts);
    }
  }

  /** There is a second part exactly when the separator occurs. */
  lemma {:induction false} SplitHasSep(s: string, sep: char)
    ensures sep in s <==> |Split(s, sep)| >= 2
    decreases |s|
  {
    if |s| > 0 {
      SplitHasSep(s[1..], sep);
      assert sep in s <==> s[0] == sep || sep in s[1..];
    }
  }

  /** A separator-free head followed by the separator becomes the first part. */
  lemma {:induction false} SplitCons(a: string, sep: char, b: string)
    requires Free(a, sep)
    ensures Split(a + [sep] + b, sep) == [a] + Split(b, sep)
    decreases |a|
  {
    if |a| == 0 {
      assert a + [sep] + b == [sep] + b;
      assert ([sep] + b)[1..] == b;
    } else {
      SplitCons(a[1..], sep, b);
      var s := a + [sep] + b;
      assert s[0] == a[0] && s[1..] == a[1..] + [sep] + b;
      assert [a[0]] + a[1..] == a;
    }
  }

  lemma {:induction false} SplitFree(s: string, sep: char)
    requires Free(s, sep)
    ensures Split(s, sep) == [s]
    decreases |s|
  {
    if |s| > 0 {
      SplitFree(s[1..], sep);
      assert [s[0]] + s[1..] == s;
    }
  }

  // ---------------------------------------------------------------- whitespace split

  /** Length of the run of non-whitespace characters at the start of s. */
  function WordLen(s: string): (n: nat)
    ensures n <= |s|
    ensures forall i :: 0 <= i < n ==> !IsSpace(s[i])
    ensures n < |s| ==> IsSpace(s[n])
  {
    if |s| == 0 || IsSpace(s[0]) then 0 else 1 + WordLen(s[1..])
  }

  /** str.split() with no argument: the maximal runs of non-whitespace characters. */
  function SplitWs(s: string): (words: seq<string>)
    ensures forall i :: 0 <= i < |words| ==> |words[i]| > 0 && NoSpace(words[i])
    decreases |s|
  {
    if |s| == 0 then []
    else if IsSpace(s[0]) then SplitWs(s[1..])
    else
      var n := WordLen(s);
      [s[..n]] + SplitWs(s[n..])
  }

  lemma {:induction false} SplitWsLeadingSpace(w: string, s: string)
    requires forall i :: 0 <= i < |w| ==> IsSpace(w[i])
    ensures SplitWs(w + s) == SplitWs(s)
    decreases |w|
  {
    if |w| > 0 {
      assert (w + s)[0] == w[0];
      assert (w + s)[1..] == w[1..] + s;
      assert SplitWs(w + s) == SplitWs((w + s)[1..]);
      SplitWsLeadingSpace(w[1..], s);
    } else {
      assert w + s == s;
    }
  }

  /** Trailing whitespace adds no word. */
  lemma {:induction false} SplitWsTrailingSpace(x: string, w: string)
    requires forall i :: 0 <= i < |w| ==> IsSpace(w[i])
    ensures SplitWs(x + w) == SplitWs(x)
    decreases |x|
  {
    if |x| == 0 {
      SplitWsLeadingSpace(w, "");
      assert x + w == w + "";
    } else if IsSpace(x[0]) {
      assert (x + w)[1..] == x[1..] + w;
      SplitWsTrailingSpace(x[1..], w);
    } else {
      var n := WordLen(x);
      WordLenSpaceAfter(x, w);
      assert (x + w)[..n] == x[..n];
      assert (x + w)[n..] == x[n..] + w;
      SplitWsTrailingSpace(x[n..], w);
    }
  }

  lemma {:induction false} WordLenSpaceAfter(x: string, w: string)
    requires |w| == 0 || IsSpace(w[0])
    ensures WordLen(x + w) == WordLen(x)
  {
    if |x| > 0 && !IsSpace(x[0]) {
      assert (x + w)[1..] == x[1..] + w;
      WordLenSpaceAfter(x[1..], w);
    } else if |x| == 0 {
      assert x + w == w;
    }
  }

  /** A word between whitespace and text that starts with whitespace is split off
      on its own. */
  lemma SplitWsWord(w: string, x: string, t: string)
    requires forall i :: 0 <= i < |w| ==> IsSpace(w[i])
    requires |x| > 0 && NoSpace(x)
    requires |t| == 0 || IsSpace(t[0])
    ensures SplitWs(w + x + t) == [x] + SplitWs(t)
  {
    assert w + x + t == w + (x + t);
    SplitWsLeadingSpace(w, x + t);
    WordLenAll(x, t);
    assert (x + t)[0] == x[0];
    assert (x + t)[..|x|] == x;
    assert (x + t)[|x|..] == t;
  }

  /** Replacing a non-whitespace character by a space commutes with stripping as far
      as str.split() can tell. */
  lemma SplitWsReplaceStrip(s: string, c: char)
    requires !IsSpace(c)
    ensures SplitWs(ReplaceChar(Strip(s), c, " ")) == SplitWs(ReplaceChar(s, c, " "))
  {
    var w1, w2 := StripDecompose(s);
    var x := Strip(s);
    ReplaceCharFree(w1, c, " ");
    ReplaceCharFree(w2, c, " ");
    ReplaceCharAppend(w1 + x, w2, c, " ");
    ReplaceCharAppend(w1, x, c, " ");
    SplitWsPadded(w1, ReplaceChar(x, c, " "), w2);
  }

  /** s is its strip with whitespace on either side. */
  lemma StripDecompose(s: string) returns (w1: string, w2: string)
    ensures s == w1 + Strip(s) + w2
    ensures forall i :: 0 <= i < |w1| ==> IsSpace(w1[i])
    ensures forall i :: 0 <= i < |w2| ==> IsSpace(w2[i])
  {
    var l := LStrip(s);
    LStripDrop(s);
    w1 := s[..|s| - |l|];
    SplitAt(s, |s| - |l|);
    SpacePrefix(s, |s| - |l|);
    var r := RStrip(l);
    RStripKeep(l);
    w2 := l[|r|..];
    SplitAt(l, |r|);
    SpaceSuffix(l, |r|);
    SeqAssoc(w1, r, w2);
  }

  lemma SpacePrefix(s: string, k: nat)
    requires k <= |s|
    requires forall i :: 0 <= i < k ==> IsSpace(s[i])
    ensures forall i :: 0 <= i < |s[..k]| ==> IsSpace(s[..k][i])
  {
  }

  lemma SpaceSuffix(s: string, k: nat)
    requires k <= |s|
    requires forall i :: k <= i < |s| ==> IsSpace(s[i])
    ensures forall i :: 0 <= i < |s[k..]| ==> IsSpace(s[k..][i])
  {
  }

  lemma SplitWsPadded(w1: string, x: string, w2: string)
    requires forall i :: 0 <= i < |w1| ==> IsSpace(w1[i])
    requires forall i :: 0 <= i < |w2| ==> IsSpace(w2[i])
    ensures SplitWs(w1 + x + w2) == SplitWs(x)
  {
    assert w1 + x + w2 == w1 + (x + w2);
    SplitWsLeadingSpace(w1, x + w2);
    SplitWsTrailingSpace(x, w2);
  }

  /** Splitting single-space-joined words gives the words back. */
  lemma {:induction false} SplitWsJoin(words: seq<string>)
    requires forall i :: 0 <= i < |words| ==> |words[i]| > 0 && NoSpace(words[i])
    ensures SplitWs(Join(words, " ")) == words
    decreases |words|
  {
    if |words| == 1 {
      var w := words[0];
      assert WordLen(w) == |w| by { WordLenAll(w, ""); assert w + "" == w; }
      assert !IsSpace(w[0]);
      TakeAll(w);
      assert SplitWs(w[|w|..]) == [];
    } else if |words| > 1 {
      var w := words[0];
      var rest := Join(words[1..], " ");
      var j := Join(words, " ");
      assert j == w + (" " + rest);
      WordLenAll(w, " " + rest);
      assert j[..|w|] == w;
      assert j[|w|..] == " " + rest;
      SplitWsLeadingSpace(" ", rest);
      SplitWsJoin(words[1..]);
      assert words == [w] + words[1..];
    }
  }

  lemma {:induction false} WordLenAll(w: string, s: string)
    requires NoSpace(w)
    requires |s| == 0 || IsSpace(s[0])
    ensures WordLen(w + s) == |w|
    decreases |w|
  {
    if |w| > 0 {
      assert (w + s)[1..] == w[1..] + s;
      WordLenAll(w[1..], s);
    } else {
      assert w + s == s;
    }
  }

  /** A single-space join of whitespace-free words starts and ends with no whitespace,
      and its only whitespace characters are single spaces between words. */
  lemma {:induction false} JoinWordsShape(words: seq<string>)
    requires forall i :: 0 <= i < |words| ==> |words[i]| > 0 && NoSpace(words[i])
    ensures var j := Join(words, " ");
      && (|j| == 0 <==> |words| == 0)
      && (|j| > 0 ==> !IsSpace(j[0]) && !IsSpace(j[|j| - 1]))
      && (forall i :: 0 <= i < |j| && IsSpace(j[i]) ==> j[i] == ' ' && 0 < i < |j| - 1 && !IsSpace(j[i + 1]))
    decreases |words|
  {
    if |words| > 1 {
      var w := words[0];
      var rest := Join(words[1..], " ");
      JoinWordsShape(words[1..]);
      var j := Join(words, " ");
      assert j == w + " " + rest;
      assert forall i :: 0 <= i < |w| ==> j[i] == w[i];
      assert j[|w|] == ' ' && j[|w| + 1] == rest[0];
      assert forall i :: |w| < i < |j| ==> j[i] == rest[i - |w| - 1];
    }
  }

  // ---------------------------------------------------------------- other str methods

  function StartsWith(s: string, p: string): bool {
    |p| <= |s| && s[..|p|] == p
  }

  function EndsWith(s: string, p: string): bool {
    |p| <= |s| && s[|s| - |p|..] == p
  }

  function LowerChar(c: char): char {
    if 'A' <= c <= 'Z' then (c as int + 32) as char else c
  }

  /** str.lower() on ASCII letters. */
  function Lower(s: string): (r: string)
    ensures |r| == |s| && forall i :: 0 <= i < |s| ==> r[i] == LowerChar(s[i])
  {
    if |s| == 0 then "" else [LowerChar(s[0])] + Lower(s[1..])
  }

  /** str.replace(c, rep) for a one-character pattern: every occurrence replaced. */
  function ReplaceChar(s: string, c: char, rep: string): string
  {
    if |s| == 0 then ""
    else (if s[0] == c then rep else [s[0]]) + ReplaceChar(s[1..], c, rep)
  }

  lemma {:induction false} RemoveCharFree(s: string, c: char)
    ensures Free(ReplaceChar(s, c, ""), c)
    ensures Free(s, c) ==> ReplaceChar(s, c, "") == s
  {
    if |s| > 0 {
      RemoveCharFree(s[1..], c);
      if Free(s, c) {
        assert Free(s[1..], c);
        assert s == [s[0]] + s[1..];
      }
    }
  }

  /** Replacing a character the text does not hold changes nothing. */
  lemma {:induction false} ReplaceCharFree(s: string, c: char, rep: string)
    requires Free(s, c)
    ensures ReplaceChar(s, c, rep) == s
  {
    if |s| > 0 {
      assert Free(s[1..], c);
      ReplaceCharFree(s[1..], c, rep);
      assert s == [s[0]] + s[1..];
    }
  }

  lemma {:induction false} ReplaceCharAppend(a: string, b: string, c: char, rep: string)
    ensures ReplaceChar(a + b, c, rep) == ReplaceChar(a, c, rep) + ReplaceChar(b, c, rep)
  {
    if |a| > 0 {
      assert (a + b)[0] == a[0];
      assert (a + b)[1..] == a[1..] + b;
      ReplaceCharAppend(a[1..], b, c, rep);
    } else {
      assert a + b == b;
    }
  }

  /** s.replace(pat, rep): every occurrence of pat, scanning left to right without
      overlap, replaced by rep. */
  function ReplaceStr(s: string, pat: string, rep: string): string
    requires |pat| > 0
    decreases |s|
  {
    if |s| < |pat| then s
    else if s[..|pat|] == pat then rep + ReplaceStr(s[|pat|..], pat, rep)
    else [s[0]] + ReplaceStr(s[1..], pat, rep)
  }

  /** An occurrence at the front is replaced and the scan continues after it. */
  lemma ReplaceStrMatch(t: string, pat: string, rep: string)
    requires |pat| > 0
    ensures ReplaceStr(pat + t, pat, rep) == rep + ReplaceStr(t, pat, rep)
  {
    assert (pat + t)[..|pat|] == pat;
    assert (pat + t)[|pat|..] == t;
  }

  /** A name that ends in the pattern ends in the replacement afterwards, provided the
      pattern cannot overlap itself (its first character does not recur in it). */
  lemma {:induction false} ReplaceStrKeepsSuffix(s: string, pat: string, rep: string)
    requires |pat| > 0 && Free(pat[1..], pat[0])
    requires EndsWith(s, pat)
    ensures EndsWith(ReplaceStr(s, pat, rep), rep)
    decreases |s|
  {
    if s[..|pat|] == pat {
      var t := s[|pat|..];
      if |t| == 0 {
        assert ReplaceStr(t, pat, rep) == "";
        assert rep + "" == rep;
      } else {
        assert |t| >= |pat|;
        assert t[|t| - |pat|..] == s[|s| - |pat|..];
        ReplaceStrKeepsSuffix(t, pat, rep);
        var r := ReplaceStr(t, pat, rep);
        assert (rep + r)[|rep + r| - |rep|..] == r[|r| - |rep|..];
      }
    } else {
      assert |s| > |pat|;
      var t := s[1..];
      assert t[|t| - |pat|..] == s[|s| - |pat|..];
      ReplaceStrKeepsSuffix(t, pat, rep);
      var r := ReplaceStr(t, pat, rep);
      assert ([s[0]] + r)[|[s[0]] + r| - |rep|..] == r[|r| - |rep|..];
    }
  }

  /** A head without the pattern's first character passes through unchanged. */
  lemma {:induction false} ReplaceStrFreeHead(s: string, t: string, pat: string, rep: string)
    requires |pat| > 0 && Free(s, pat[0])
    ensures ReplaceStr(s + t, pat, rep) == s + ReplaceStr(t, pat, rep)
    decreases |s|
  {
    if |s| > 0 {
      var st := s + t;
      assert st[0] == s[0];
      if |st| >= |pat| {
        assert st[..|pat|][0] == s[0];
      }
      assert st[1..] == s[1..] + t;
      ReplaceStrFreeHead(s[1..], t, pat, rep);
      assert s == [s[0]] + s[1..];
      SeqAssoc([s[0]], s[1..], ReplaceStr(t, pat, rep));
    } else {
      assert s + t == t;
    }
  }

  /** The only whitespace in s is the plain space. */
  predicate OnlyBlanks(s: string) {
    forall i :: 0 <= i < |s| && IsSpace(s[i]) ==> s[i] == ' '
  }

  /** When s has no whitespace but spaces, removing its spaces after strip() gives
      the same text as removing them without it. */
  lemma StripThenRemoveSpaces(s: string)
    requires OnlyBlanks(s)
    ensures ReplaceChar(Strip(s), ' ', "") == ReplaceChar(s, ' ', "")
  {
    LStripBlanks(s);
    RStripBlanks(LStrip(s));
  }

  lemma {:induction false} LStripBlanks(s: string)
    requires OnlyBlanks(s)
    ensures OnlyBlanks(LStrip(s))
    ensures ReplaceChar(LStrip(s), ' ', "") == ReplaceChar(s, ' ', "")
  {
    if |s| > 0 && IsSpace(s[0]) {
      assert OnlyBlanks(s[1..]) by {
        forall i | 0 <= i < |s[1..]| && IsSpace(s[1..][i]) ensures s[1..][i] == ' ' {
          assert s[1..][i] == s[i + 1];
        }
      }
      LStripBlanks(s[1..]);
    }
  }

  lemma {:induction false} RStripBlanks(s: string)
    requires OnlyBlanks(s)
    ensures ReplaceChar(RStrip(s), ' ', "") == ReplaceChar(s, ' ', "")
  {
    if |s| > 0 && IsSpace(s[|s| - 1]) {
      var t := s[..|s| - 1];
      assert OnlyBlanks(t) by {
        forall i | 0 <= i < |t| && IsSpace(t[i]) ensures t[i] == ' ' {
          assert t[i] == s[i];
        }
      }
      RStripBlanks(t);
      assert s == t + [' '];
      ReplaceCharAppend(t, [' '], ' ', "");
    }
  }

  lemma OnlyBlanksAppend(a: string, b: string)
    requires OnlyBlanks(a) && OnlyBlanks(b)
    ensures OnlyBlanks(a + b)
  {
    forall i | 0 <= i < |a + b| && IsSpace((a + b)[i]) ensures (a + b)[i] == ' ' {
      if i >= |a| {
        assert (a + b)[i] == b[i - |a|];
      }
    }
  }

  /** A join of at least one part, extended by one more part. */
  lemma {:induction false} JoinSnoc(ps: seq<string>, p: string, sep: string)
    requires |ps| >= 1
    ensures Join(ps + [p], sep) == Join(ps, sep) + sep + p
    decreases |ps|
  {
    if |ps| == 1 {
      assert ps + [p] == [ps[0], p];
      assert Join([ps[0], p], sep) == ps[0] + sep + Join([p], sep);
    } else {
      assert (ps + [p])[0] == ps[0];
      assert (ps + [p])[1..] == ps[1..] + [p];
      JoinSnoc(ps[1..], p, sep);
    }
  }

  // ---------------------------------------------------------------- int()

  /** The digits of a Python integer literal body: digits, with single underscores
      allowed between two digits. */
  predicate IsIntBody(s: string) {
    && |s| > 0 && IsDigit(s[0]) && IsDigit(s[|s| - 1])
    && (forall i :: 0 <= i < |s| ==> IsDigit(s[i]) || s[i] == '_')
    && (forall i :: 0 <= i < |s| - 1 ==> !(s[i] == '_' && s[i + 1] == '_'))
  }

  lemma RemoveUnderscoreDigits(s: string)
    requires forall i :: 0 <= i < |s| ==> IsDigit(s[i]) || s[i] == '_'
    ensures forall i :: 0 <= i < |ReplaceChar(s, '_', "")| ==> IsDigit(ReplaceChar(s, '_', "")[i])
  {
    if |s| > 0 {
      RemoveUnderscoreDigits(s[1..]);
    }
  }

  /** int(s) for a str argument: surrounding whitespace, an optional sign, then
      decimal digits (underscores allowed between digits); None where Python raises
      ValueError. */
  function ParseInt(s: string): Option<int>
  {
    var t := Strip(s);
    var neg := |t| > 0 && t[0] == '-';
    var body := if |t| > 0 && (t[0] == '-' || t[0] == '+') then t[1..] else t;
    if !IsIntBody(body) then None
    else
      RemoveUnderscoreDigits(body);
      var v: int := DigitsValue(ReplaceChar(body, '_', ""));
      Some(if neg then -v else v)
  }

  lemma ParseIntOfDigits(s: string)
    requires IsDigits(s)
    ensures ParseInt(s) == Some(DigitsValue(s))
  {
    DigitsHaveNoSpace(s);
    StripNoSpace(s);
    RemoveCharFree(s, '_');
  }

  datatype Option<+T> = None | Some(value: T)
}
