/** The draw record the text-to-JSON converters produce, with its two derived fields
    (holes: neighbours of the sorted main numbers more than two apart; odd: how many
    main numbers are odd), the stable sort of the draws by date string, and the rule
    all three converters share for counting skipped lines. */
module DrawRecords {
  import opened Text

  /** One draw as written to JSON: date "YYYY-MM-DD", the six main numbers in input
      order, the bonus number and the two derived counts. */
  datatype Draw = Draw(date: string, numbers: seq<nat>, bonus: nat, holes: nat, odd: nat)

  /** f"{century}{yy}-{mm}-{dd}" for a six-character YYMMDD field. */
  function DashedDate(century: string, yymmdd: string): (r: string)
    requires |yymmdd| == 6
    ensures |r| == |century| + 8
    ensures r[..|century|] == century && r[|century| + 2] == '-' && r[|century| + 5] == '-'
  {
    century + yymmdd[..2] + "-" + yymmdd[2..4] + "-" + yymmdd[4..6]
  }

  /** What a text-to-JSON conversion reports: the draws in date order and the
      number of skipped lines. */
  datatype Conversion = Conversion(draws: seq<Draw>, skipped: nat)

  // ---------------------------------------------------------------- holes

  /** How many neighbours s[i-1], s[i] differ by more than two. */
  function Gaps(s: seq<int>): (g: nat)
    ensures g <= if |s| == 0 then 0 else |s| - 1
  {
    if |s| < 2 then 0
    else Gaps(s[..|s| - 1]) + (if s[|s| - 1] - s[|s| - 2] > 2 then 1 else 0)
  }

  /** The holes loop: for i in range(1, len(sorted_nums)), count a hole whenever the
      step from the previous number is more than two. */
  method CountHoles(sorted: seq<int>) returns (holes: nat)
    ensures holes == Gaps(sorted)
  {
    holes := 0;
    if |sorted| == 0 {
      return;
    }
    var i := 1;
    while i < |sorted|
      invariant 1 <= i <= |sorted|
      invariant holes == Gaps(sorted[..i])
    {
      GapsStep(sorted, i);
      if sorted[i] - sorted[i - 1] > 2 {
        holes := holes + 1;
      }
      i := i + 1;
    }
    TakeAll(sorted);
  }

  lemma GapsStep(s: seq<int>, i: nat)
    requires 1 <= i < |s|
    ensures Gaps(s[..i + 1]) == Gaps(s[..i]) + (if s[i] - s[i - 1] > 2 then 1 else 0)
  {
    assert s[..i + 1][..i] == s[..i];
  }

  /** The count reaches its maximum |s| - 1 exactly when every step is a hole. */
  lemma {:induction false} GapsAll(s: seq<int>)
    requires |s| > 0
    ensures Gaps(s) == |s| - 1 <==> forall i :: 1 <= i < |s| ==> s[i] - s[i - 1] > 2
  {
    if |s| >= 2 {
      var init := s[..|s| - 1];
      GapsAll(init);
      assert forall i :: 0 <= i < |init| ==> init[i] == s[i];
    }
  }

  /** The count is zero exactly when no step is a hole. */
  lemma {:induction false} GapsNone(s: seq<int>)
    ensures Gaps(s) == 0 <==> forall i :: 1 <= i < |s| ==> s[i] - s[i - 1] <= 2
  {
    if |s| >= 2 {
      var init := s[..|s| - 1];
      GapsNone(init);
      assert forall i :: 0 <= i < |init| ==> init[i] == s[i];
    }
  }

  /** The step into position i, from s[i - 1], is more than two. */
  predicate IsHole(s: seq<int>, i: int)
  {
    1 <= i < |s| && s[i] - s[i - 1] > 2
  }

  /** The positions of the holes of s. */
  function HolePositions(s: seq<int>): set<int>
  {
    set i | 0 <= i < |s| && IsHole(s, i)
  }

  /** The count is the number of hole positions. */
  lemma {:induction false} GapsCountsHoles(s: seq<int>)
    ensures Gaps(s) == |HolePositions(s)|
  {
    if |s| < 2 {
      assert HolePositions(s) == {};
    } else {
      var init := s[..|s| - 1];
      var n := |s| - 1;
      GapsCountsHoles(init);
      forall i | 0 <= i < n
        ensures IsHole(init, i) == IsHole(s, i)
      {
        if 1 <= i {
          assert init[i] == s[i] && init[i - 1] == s[i - 1];
        }
      }
      if IsHole(s, n) {
        assert HolePositions(s) == HolePositions(init) + {n};
      } else {
        assert HolePositions(s) == HolePositions(init);
      }
    }
  }

  // ---------------------------------------------------------------- odd

  /** sum(1 for n in numbers if n % 2 == 1). */
  function OddCount(ns: seq<int>): (c: nat)
    ensures c <= |ns|
  {
    if |ns| == 0 then 0
    else OddCount(ns[..|ns| - 1]) + (if ns[|ns| - 1] % 2 == 1 then 1 else 0)
  }

  /** Every number is odd exactly when the count is the length, and none is exactly
      when it is zero. */
  lemma {:induction false} OddCountExtremes(ns: seq<int>)
    ensures OddCount(ns) == |ns| <==> forall i :: 0 <= i < |ns| ==> ns[i] % 2 == 1
    ensures OddCount(ns) == 0 <==> forall i :: 0 <= i < |ns| ==> ns[i] % 2 == 0
  {
    if |ns| > 0 {
      var init := ns[..|ns| - 1];
      OddCountExtremes(init);
      assert forall i :: 0 <= i < |init| ==> init[i] == ns[i];
    }
  }

  lemma {:induction false} OddCountAppend(a: seq<int>, b: seq<int>)
    ensures OddCount(a + b) == OddCount(a) + OddCount(b)
    decreases |b|
  {
    if |b| == 0 {
      assert a + b == a;
    } else {
      assert (a + b)[..|a + b| - 1] == a + b[..|b| - 1];
      OddCountAppend(a, b[..|b| - 1]);
    }
  }

  /** The odd count does not depend on the order of the numbers: counting the main
      numbers as drawn gives the same as counting them sorted. */
  lemma {:induction false} OddCountPermutation(a: seq<int>, b: seq<int>)
    requires multiset(a) == multiset(b)
    ensures OddCount(a) == OddCount(b)
    decreases |a|
  {
    if |a| == 0 {
      assert |b| == |multiset(b)|;
    } else {
      var init, x := a[..|a| - 1], a[|a| - 1];
      assert a == init + [x];
      assert x in multiset(b);
      var j :| 0 <= j < |b| && b[j] == x;
      var rest := b[..j] + b[j + 1..];
      assert b == b[..j] + [x] + b[j + 1..];
      assert multiset(a) == multiset(init) + multiset{x};
      assert multiset(b) == multiset(b[..j]) + multiset{x} + multiset(b[j + 1..]);
      assert multiset(rest) == multiset(b[..j]) + multiset(b[j + 1..]);
      assert multiset(init) == multiset(a) - multiset{x};
      assert multiset(rest) == multiset(b) - multiset{x};
      OddCountPermutation(init, rest);
      OddCountAppend(b[..j] + [x], b[j + 1..]);
      OddCountAppend(b[..j], [x]);
      OddCountAppend(b[..j], b[j + 1..]);
      assert [x][..0] == [];
    }
  }

  // ---------------------------------------------------------------- sort by date

  /** Python's order on str: lexicographic by code point, a proper prefix first. */
  predicate StrLeq(a: string, b: string)
  {
    |a| == 0 || (|b| > 0 && (a[0] < b[0] || (a[0] == b[0] && StrLeq(a[1..], b[1..]))))
  }

  lemma {:induction false} StrLeqRefl(a: string)
    ensures StrLeq(a, a)
  {
    if |a| > 0 {
      StrLeqRefl(a[1..]);
    }
  }

  lemma {:induction false} StrLeqTotal(a: string, b: string)
    ensures StrLeq(a, b) || StrLeq(b, a)
  {
    if |a| > 0 && |b| > 0 && a[0] == b[0] {
      StrLeqTotal(a[1..], b[1..]);
    }
  }

  lemma {:induction false} StrLeqTrans(a: string, b: string, c: string)
    requires StrLeq(a, b) && StrLeq(b, c)
    ensures StrLeq(a, c)
  {
    if |a| > 0 && a[0] == b[0] && b[0] == c[0] {
      StrLeqTrans(a[1..], b[1..], c[1..]);
    }
  }

  /** Two strings each at most the other are equal. */
  lemma {:induction false} StrLeqAntisym(a: string, b: string)
    requires StrLeq(a, b) && StrLeq(b, a)
    ensures a == b
  {
    if |a| > 0 {
      StrLeqAntisym(a[1..], b[1..]);
      assert a == [a[0]] + a[1..] && b == [b[0]] + b[1..];
    }
  }

  predicate DateOrdered(ds: seq<Draw>)
  {
    forall i, j :: 0 <= i < j < |ds| ==> StrLeq(ds[i].date, ds[j].date)
  }

  /** d placed before the first draw whose date is not earlier than its own. */
  function InsertByDate(d: Draw, ds: seq<Draw>): (r: seq<Draw>)
    ensures |r| == |ds| + 1
  {
    if |ds| == 0 then [d]
    else if StrLeq(d.date, ds[0].date) then [d] + ds
    else [ds[0]] + InsertByDate(d, ds[1..])
  }

  /** list.sort(key=lambda x: x['date']) on the draws, as a value: an insertion
      sort that places each draw before the later draws of the same date. */
  function SortByDate(ds: seq<Draw>): seq<Draw>
  {
    if |ds| == 0 then [] else InsertByDate(ds[0], SortByDate(ds[1..]))
  }

  /** The draws of ds dated k, in their order in ds. */
  function DatedOn(ds: seq<Draw>, k: string): seq<Draw>
  {
    if |ds| == 0 then []
    else (if ds[0].date == k then [ds[0]] else []) + DatedOn(ds[1..], k)
  }

  lemma {:induction false} InsertByDateMembers(d: Draw, ds: seq<Draw>)
    ensures multiset(InsertByDate(d, ds)) == multiset(ds) + multiset{d}
  {
    if |ds| > 0 && !StrLeq(d.date, ds[0].date) {
      InsertByDateMembers(d, ds[1..]);
      assert ds == [ds[0]] + ds[1..];
    }
  }

  lemma {:induction false} InsertByDateOrdered(d: Draw, ds: seq<Draw>)
    requires DateOrdered(ds)
    ensures DateOrdered(InsertByDate(d, ds))
  {
    var r := InsertByDate(d, ds);
    if |ds| == 0 {
    } else if StrLeq(d.date, ds[0].date) {
      forall i, j | 0 <= i < j < |r| ensures StrLeq(r[i].date, r[j].date) {
        if i == 0 && j > 1 {
          StrLeqTrans(d.date, ds[0].date, ds[j - 1].date);
        }
      }
    } else {
      var t := InsertByDate(d, ds[1..]);
      InsertByDateOrdered(d, ds[1..]);
      StrLeqTotal(d.date, ds[0].date);
      InsertByDateBound(d, ds[1..], ds[0].date);
      forall i, j | 0 <= i < j < |r| ensures StrLeq(r[i].date, r[j].date) {
        assert r[j] == t[j - 1];
        if i > 0 {
          assert r[i] == t[i - 1];
        }
      }
    }
  }

  /** A lower bound on the dates of d and of every draw in ds bounds the dates after
      the insertion too. */
  lemma {:induction false} InsertByDateBound(d: Draw, ds: seq<Draw>, lo: string)
    requires StrLeq(lo, d.date)
    requires forall i :: 0 <= i < |ds| ==> StrLeq(lo, ds[i].date)
    ensures forall i :: 0 <= i < |InsertByDate(d, ds)| ==> StrLeq(lo, InsertByDate(d, ds)[i].date)
  {
    var r := InsertByDate(d, ds);
    if |ds| > 0 && !StrLeq(d.date, ds[0].date) {
      var t := InsertByDate(d, ds[1..]);
      InsertByDateBound(d, ds[1..], lo);
      forall i | 0 <= i < |r| ensures StrLeq(lo, r[i].date) {
        if i > 0 {
          assert r[i] == t[i - 1];
        }
      }
    } else if |ds| > 0 {
      forall i | 0 <= i < |r| ensures StrLeq(lo, r[i].date) {
        if i > 0 {
          assert r[i] == ds[i - 1];
        }
      }
    }
  }

  /** Inserting d adds it to the draws of its own date, as the first of them, and
      leaves the draws of every other date as they were. */
  lemma {:induction false} InsertByDateStable(d: Draw, ds: seq<Draw>, k: string)
    ensures DatedOn(InsertByDate(d, ds), k) == if d.date == k then [d] + DatedOn(ds, k) else DatedOn(ds, k)
  {
    if |ds| > 0 && !StrLeq(d.date, ds[0].date) {
      InsertByDateStable(d, ds[1..], k);
      StrLeqRefl(d.date);
      var r := InsertByDate(d, ds);
      assert r[0] == ds[0] && r[1..] == InsertByDate(d, ds[1..]);
    } else if |ds| > 0 {
      var r := [d] + ds;
      assert r[0] == d && r[1..] == ds;
    }
  }

  /** The sort is stable and complete: the result is ordered by date, holds the same
      draws as often as the input, and the draws of each date keep their input order. */
  lemma SortByDateSpec(ds: seq<Draw>)
    ensures |SortByDate(ds)| == |ds|
    ensures DateOrdered(SortByDate(ds))
    ensures multiset(SortByDate(ds)) == multiset(ds)
    ensures forall k :: DatedOn(SortByDate(ds), k) == DatedOn(ds, k)
  {
    SortByDateSorted(ds);
    forall k ensures DatedOn(SortByDate(ds), k) == DatedOn(ds, k) {
      SortByDateStable(ds, k);
    }
  }

  lemma {:induction false} SortByDateSorted(ds: seq<Draw>)
    ensures |SortByDate(ds)| == |ds|
    ensures DateOrdered(SortByDate(ds))
    ensures multiset(SortByDate(ds)) == multiset(ds)
  {
    SortByDateOrder(ds);
    SortByDateMultiset(ds);
  }

  lemma {:induction false} SortByDateOrder(ds: seq<Draw>)
    ensures DateOrdered(SortByDate(ds))
  {
    if |ds| > 0 {
      SortByDateOrder(ds[1..]);
      InsertByDateOrdered(ds[0], SortByDate(ds[1..]));
    }
  }

  lemma {:induction false} SortByDateMultiset(ds: seq<Draw>)
    ensures |SortByDate(ds)| == |ds|
    ensures multiset(SortByDate(ds)) == multiset(ds)
  {
    if |ds| > 0 {
      SortByDateMultiset(ds[1..]);
      InsertByDateMembers(ds[0], SortByDate(ds[1..]));
      assert ds == [ds[0]] + ds[1..];
    }
  }

  lemma {:induction false} SortByDateStable(ds: seq<Draw>, k: string)
    ensures DatedOn(SortByDate(ds), k) == DatedOn(ds, k)
  {
    if |ds| > 0 {
      SortByDateStable(ds[1..], k);
      InsertByDateStable(ds[0], SortByDate(ds[1..]), k);
    }
  }

  /** Sorting draws already in date order changes nothing. */
  lemma {:induction false} SortByDateIdempotent(ds: seq<Draw>)
    requires DateOrdered(ds)
    ensures SortByDate(ds) == ds
  {
    if |ds| > 0 {
      SortByDateIdempotent(ds[1..]);
      assert SortByDate(ds[1..]) == ds[1..];
      if |ds| > 1 {
        assert StrLeq(ds[0].date, ds[1].date);
      }
    }
  }

  // ---------------------------------------------------------------- line accounting

  /** A line that is neither blank nor a '#' comment once stripped: a line that
      counts as skipped when it cannot be converted. */
  predicate IsRecordLine(line: string)
  {
    var t := Strip(line);
    t != "" && !StartsWith(t, "#")
  }

  /** The results of the lines that parse, in line order. */
  function Accepted<T>(lines: seq<string>, parse: string -> Option<T>): (r: seq<T>)
    ensures |r| <= |lines|
  {
    if |lines| == 0 then []
    else
      var last := lines[|lines| - 1];
      Accepted(lines[..|lines| - 1], parse) + (if parse(last).Some? then [parse(last).value] else [])
  }

  /** The skipped-lines counter: lines that do not parse and are neither blank nor
      comments. */
  function SkippedCount<T>(lines: seq<string>, parse: string -> Option<T>): nat
  {
    if |lines| == 0 then 0
    else
      var last := lines[|lines| - 1];
      SkippedCount(lines[..|lines| - 1], parse) + (if parse(last).None? && IsRecordLine(last) then 1 else 0)
  }

  /** One more line read: the accepted results and the skip count after it. */
  lemma AcceptedStep<T>(lines: seq<string>, i: nat, parse: string -> Option<T>)
    requires i < |lines|
    ensures Accepted(lines[..i + 1], parse) ==
              Accepted(lines[..i], parse) + (if parse(lines[i]).Some? then [parse(lines[i]).value] else [])
    ensures SkippedCount(lines[..i + 1], parse) ==
              SkippedCount(lines[..i], parse) + (if parse(lines[i]).None? && IsRecordLine(lines[i]) then 1 else 0)
  {
    assert lines[..i + 1][..i] == lines[..i];
  }

  function RecordLineCount(lines: seq<string>): (c: nat)
    ensures c <= |lines|
  {
    if |lines| == 0 then 0
    else RecordLineCount(lines[..|lines| - 1]) + (if IsRecordLine(lines[|lines| - 1]) then 1 else 0)
  }

  /** When a parser accepts only record lines, every record line is either converted
      or counted as skipped, and no other line is either. */
  lemma {:induction false} Accounting<T>(lines: seq<string>, parse: string -> Option<T>)
    requires forall l :: parse(l).Some? ==> IsRecordLine(l)
    ensures |Accepted(lines, parse)| + SkippedCount(lines, parse) == RecordLineCount(lines)
  {
    if |lines| > 0 {
      Accounting(lines[..|lines| - 1], parse);
    }
  }
}
