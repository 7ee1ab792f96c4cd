/** The 4-of-6 coverage check: every 6-number draw holds C(6, 4) = 15 four-number
    combinations; the union of these over all draws is the "drawn" set, the 4-subsets
    of the number range outside it are the "remaining" ones, and a 6-combination is
    rated by how many of its own 4-subsets are still undrawn. The script fixes the
    range to 1..49; here it is a parameter n, and Total4CombosValue ties the
    script's constant to C(49, 4). */
module FourComboCoverage {
  import opened Text
  import opened Combinatorics
  import opened Sorting
  import opened DrawText
  import opened DistanceElimination

  /** MAX, MAX_PLAY and TOTAL_4_COMBOS. */
  const MaxNumber: nat := 49
  const DrawSize: nat := 6
  const Total4Combos: nat := 211876

  /** The constant the script uses for the 4-subsets of 1..49 is C(49, 4). */
  lemma Total4CombosValue(n: nat)
    requires n == MaxNumber
    ensures Total4Combos == Choose(n, 4)
  {
    ChooseSteps(n);
  }

  // ---------------------------------------------------------------- the 4-subsets of a draw

  /** tuple(sorted(combo)) for every entry. */
  function SortEach(cs: seq<seq<int>>): (r: seq<seq<int>>)
    ensures |r| == |cs|
  {
    seq(|cs|, i requires 0 <= i < |cs| => Sort(cs[i]))
  }

  /** get_4combos_from_6(numbers): the 4-element selections of numbers in the order
      itertools.combinations yields them, each sorted. */
  function FourCombos(numbers: seq<int>): seq<seq<int>>
  {
    SortEach(Choices(numbers, 4))
  }

  method Get4CombosFrom6(numbers: seq<int>) returns (combos: seq<seq<int>>)
    ensures combos == FourCombos(numbers)
  {
    var all := Choices(numbers, 4);
    combos := [];
    var i := 0;
    while i < |all|
      invariant 0 <= i <= |all|
      invariant combos == SortEach(all[..i])
    {
      SortEachStep(all, i);
      combos := combos + [Sort(all[i])];
      i := i + 1;
    }
    TakeAll(all);
  }

  lemma SortEachStep(cs: seq<seq<int>>, i: nat)
    requires i < |cs|
    ensures SortEach(cs[..i + 1]) == SortEach(cs[..i]) + [Sort(cs[i])]
  {
    var a, b := SortEach(cs[..i + 1]), SortEach(cs[..i]) + [Sort(cs[i])];
    forall j | 0 <= j < i + 1 ensures a[j] == b[j] {
      assert cs[..i + 1][j] == cs[j];
    }
  }

  /** On an increasing list of numbers the 4-subsets are listed once each, already
      sorted, in lexicographic order: they are exactly the increasing 4-selections of
      the list, C(|numbers|, 4) of them. */
  lemma FourCombosSpec(numbers: seq<int>)
    requires Increasing(numbers)
    ensures FourCombos(numbers) == Choices(numbers, 4)
    ensures |FourCombos(numbers)| == Choose(|numbers|, 4)
    ensures forall c :: c in FourCombos(numbers) <==> SelectionOf(c, numbers, 4)
    ensures LexSorted(FourCombos(numbers))
  {
    var cs := Choices(numbers, 4);
    ChoicesElems(numbers, 4);
    ChoicesSorted(numbers, 4);
    ChoicesLength(numbers, 4);
    forall i | 0 <= i < |cs| ensures Sort(cs[i]) == cs[i] {
      assert cs[i] in cs;
      SortAscending(cs[i]);
    }
    assert SortEach(cs) == cs;
    forall c | SelectionOf(c, numbers, 4) ensures c in cs {
      ChoicesComplete(numbers, 4, c);
    }
  }

  /** A draw of six increasing numbers holds fifteen distinct 4-subsets. */
  lemma SixHoldsFifteen(six: seq<int>)
    requires |six| == 6 && Increasing(six)
    ensures |FourCombos(six)| == 15
    ensures forall i, j :: 0 <= i < j < 15 ==> FourCombos(six)[i] != FourCombos(six)[j]
  {
    FourCombosSpec(six);
    LexSortedDistinct(FourCombos(six));
    ChooseSixFour(|six|);
  }

  /** C(6, 4) = 15. */
  lemma ChooseSixFour(m: nat)
    requires m == 6
    ensures Choose(m, 4) == 15
  {
    ChooseOne(m);
    AbsorbValue(m, 1, 6, 30);
    AbsorbValue(m, 2, 15, 60);
    AbsorbValue(m, 3, 20, 60);
  }

  // ---------------------------------------------------------------- reading the draw file

  /** What load_draws keeps of one line: the all-digit parts of the number field with
      a value in [1, n]; the line is a draw when exactly six such numbers remain,
      stored sorted. */
  function ParseCoverageLine(raw: string, n: int): (r: Option<seq<int>>)
    ensures r.Some? ==> |r.value| == DrawSize && Ascending(r.value)
  {
    var line := Strip(raw);
    if |line| == 0 || StartsWith(line, "#") || ':' !in line then None
    else
      var numbers := InRange(DigitTokens(Split(NumberField(line), ',')), 1, n);
      if |numbers| == DrawSize then Some(Sort(numbers)) else None
  }

  /** A parsed draw holds six numbers of [1, n] in ascending order; when no number
      repeats, it is a 6-of-n combination. */
  lemma ParseCoverageLineRange(raw: string, n: int)
    requires ParseCoverageLine(raw, n).Some?
    ensures var d := ParseCoverageLine(raw, n).value;
            && (forall i :: 0 <= i < |d| ==> 1 <= d[i] <= n)
            && ((forall i, j :: 0 <= i < j < |d| ==> d[i] != d[j]) ==> IsCombo(d, n, DrawSize))
  {
    var d := ParseCoverageLine(raw, n).value;
    var line := Strip(raw);
    var tokens := DigitTokens(Split(NumberField(line), ','));
    var numbers := InRange(tokens, 1, n);
    InRangeMembers(tokens, 1, n);
    forall i | 0 <= i < |d| ensures 1 <= d[i] <= n {
      assert d[i] in multiset(d);
      assert d[i] in multiset(numbers);
      assert d[i] in numbers;
    }
  }

  /** The draws of a file: the lines that parse, in file order. */
  function CoverageDraws(lines: seq<string>, n: int): (ds: seq<seq<int>>)
    ensures |ds| <= |lines|
  {
    if |lines| == 0 then []
    else
      var p := ParseCoverageLine(lines[|lines| - 1], n);
      CoverageDraws(lines[..|lines| - 1], n) + (if p.Some? then [p.value] else [])
  }

  /** load_draws(filename) with the file given as its lines, or None when it is
      missing, which yields no draws. */
  method LoadCoverageDraws(file: Option<seq<string>>, n: int) returns (draws: seq<seq<int>>)
    ensures draws == if file.Some? then CoverageDraws(file.value, n) else []
  {
    draws := [];
    if file.None? {
      return;
    }
    var lines := file.value;
    var i := 0;
    while i < |lines|
      invariant 0 <= i <= |lines|
      invariant draws == CoverageDraws(lines[..i], n)
    {
      CoverageDrawsStep(lines, i, n);
      var parsed := ParseCoverageLineMethod(lines[i], n);
      if parsed.Some? {
        draws := draws + [parsed.value];
      }
      i := i + 1;
    }
    TakeAll(lines);
  }

  lemma CoverageDrawsStep(lines: seq<string>, i: nat, n: int)
    requires i < |lines|
    ensures var p := ParseCoverageLine(lines[i], n);
            CoverageDraws(lines[..i + 1], n) == CoverageDraws(lines[..i], n) + (if p.Some? then [p.value] else [])
  {
    assert lines[..i + 1][..i] == lines[..i];
  }

  method ParseCoverageLineMethod(raw: string, n: int) returns (r: Option<seq<int>>)
    ensures r == ParseCoverageLine(raw, n)
  {
    var line := Strip(raw);
    if |line| == 0 || StartsWith(line, "#") || ':' !in line {
      return None;
    }
    var numbers := CollectInRange(Split(NumberField(line), ','), 1, n);
    if |numbers| == DrawSize {
      return Some(Sort(numbers));
    }
    return None;
  }

  // ---------------------------------------------------------------- coverage

  /** The 4-subsets of all draws, as a set. */
  function Covered(draws: seq<seq<int>>): set<seq<int>>
  {
    if |draws| == 0 then {}
    else Covered(draws[..|draws| - 1]) + SeqSet(FourCombos(draws[|draws| - 1]))
  }

  /** analyze_4combos(draws): the union, draw after draw, of each draw's 4-subsets. */
  method Analyze4Combos(draws: seq<seq<int>>) returns (drawn: set<seq<int>>)
    ensures drawn == Covered(draws)
  {
    drawn := {};
    var i := 0;
    while i < |draws|
      invariant 0 <= i <= |draws|
      invariant drawn == Covered(draws[..i])
    {
      CoveredStep(draws, i);
      var combos := Get4CombosFrom6(draws[i]);
      drawn := drawn + SeqSet(combos);
      i := i + 1;
    }
    TakeAll(draws);
  }

  lemma CoveredStep(draws: seq<seq<int>>, i: nat)
    requires i < |draws|
    ensures Covered(draws[..i + 1]) == Covered(draws[..i]) + SeqSet(FourCombos(draws[i]))
  {
    assert draws[..i + 1][..i] == draws[..i];
  }

  /** The covered set only grows as draws are added: what the first j draws cover is
      covered by all of them. */
  lemma {:induction false} CoveredGrows(draws: seq<seq<int>>, j: nat)
    requires j <= |draws|
    ensures Covered(draws[..j]) <= Covered(draws)
    decreases |draws|
  {
    if j < |draws| {
      var before := draws[..|draws| - 1];
      assert before[..j] == draws[..j];
      CoveredGrows(before, j);
    } else {
      assert draws[..j] == draws;
    }
  }

  /** Each draw's 4-subsets are covered. */
  lemma {:induction false} CoveredHas(draws: seq<seq<int>>, i: nat)
    requires i < |draws|
    ensures SeqSet(FourCombos(draws[i])) <= Covered(draws)
    decreases |draws|
  {
    if i < |draws| - 1 {
      var before := draws[..|draws| - 1];
      CoveredHas(before, i);
      assert before[i] == draws[i];
    }
  }

  /** Every covered 4-combination comes from some draw. */
  lemma {:induction false} CoveredWitness(draws: seq<seq<int>>, c: seq<int>) returns (i: nat)
    requires c in Covered(draws)
    ensures i < |draws| && c in FourCombos(draws[i])
    decreases |draws|
  {
    var last := |draws| - 1;
    if c in SeqSet(FourCombos(draws[last])) {
      i := last;
    } else {
      var before := draws[..last];
      i := CoveredWitness(before, c);
      assert before[i] == draws[i];
    }
  }

  /** No more than fifteen new 4-combinations per draw: the drawn set has at most
      15 times as many entries as there are draws, so the overlap is never negative. */
  lemma {:induction false} CoveredBound(draws: seq<seq<int>>)
    requires forall i :: 0 <= i < |draws| ==> |draws[i]| == DrawSize && Increasing(draws[i])
    ensures |Covered(draws)| <= 15 * |draws|
    decreases |draws|
  {
    if |draws| > 0 {
      var before := draws[..|draws| - 1];
      var last := draws[|draws| - 1];
      CoveredBound(before);
      SixHoldsFifteen(last);
      SeqSetBound(FourCombos(last));
    }
  }

  lemma {:induction false} SeqSetBound(cs: seq<seq<int>>)
    ensures |SeqSet(cs)| <= |cs|
  {
    if |cs| > 0 {
      SeqSetSnoc(cs);
      SeqSetBound(cs[..|cs| - 1]);
    } else {
      assert SeqSet(cs) == {};
    }
  }

  /** Every covered 4-combination of draws that are 6-of-n combinations is itself a
      4-of-n combination. */
  lemma CoveredInUniverse(draws: seq<seq<int>>, n: nat)
    requires forall i :: 0 <= i < |draws| ==> IsCombo(draws[i], n, DrawSize)
    ensures forall c :: c in Covered(draws) ==> c in Universe(n, 4)
  {
    forall c | c in Covered(draws) ensures c in Universe(n, 4) {
      var i := CoveredWitness(draws, c);
      SubComboInUniverse(draws[i], n, c);
    }
  }

  lemma SubComboInUniverse(d: seq<int>, n: nat, c: seq<int>)
    requires IsCombo(d, n, DrawSize) && c in FourCombos(d)
    ensures c in Universe(n, 4)
  {
    FourCombosSpec(d);
    assert SelectionOf(c, d, 4);
    UniverseSpec(n, 4);
    forall i | 0 <= i < |c| ensures 1 <= c[i] <= n {
      var j :| 0 <= j < |d| && d[j] == c[i];
    }
    assert IsCombo(c, n, 4);
  }

  // ---------------------------------------------------------------- totals

  /** verify_totals(drawn_4combos, total_draws): the remaining count
      TOTAL_4_COMBOS - |drawn| and the overlap 15 total_draws - |drawn|. */
  function Totals(drawnCount: nat, totalDraws: nat): (r: (int, int))
  {
    (Total4Combos - drawnCount, totalDraws * 15 - drawnCount)
  }

  /** For draws that are 6-of-n combinations, where C(n, 4) is the script's constant
      (n == MaxNumber, by Total4CombosValue), the reported remaining count is the
      number of 4-subsets of 1..n that no draw holds, and neither count is negative. */
  lemma TotalsSound(draws: seq<seq<int>>, n: nat)
    requires Total4Combos == Choose(n, 4)
    requires forall i :: 0 <= i < |draws| ==> IsCombo(draws[i], n, DrawSize)
    ensures var r := Totals(|Covered(draws)|, |draws|);
            && r.0 == |RemainingPool(n, 4, Covered(draws))| && r.0 >= 0
            && r.1 >= 0
  {
    CoveredCount(draws, n);
    OverlapNonNegative(draws, n);
  }

  /** The loader keeps a line with a repeated number, and the 4-tuples of such a draw
      are not combinations. One such tuple in the drawn set makes the reported remaining
      count TOTAL_4_COMBOS - |drawn| smaller than the number of 4-subsets of 1..n that
      no draw holds. */
  lemma TotalsUndercount(draws: seq<seq<int>>, n: nat, x: seq<int>)
    requires Total4Combos == Choose(n, 4)
    requires x in Covered(draws) && !IsCombo(x, n, 4)
    ensures Totals(|Covered(draws)|, |draws|).0 < |RemainingPool(n, 4, Covered(draws))|
  {
    var covered := Covered(draws);
    var u := Universe(n, 4);
    var inside := covered * SeqSet(u);
    UnlistedAgree(u, covered, inside);
    RemainingPoolSpec(n, 4, inside);
    UniverseSpec(n, 4);
    assert x !in inside;
    assert covered == inside + (covered - inside);
    assert x in covered - inside;
  }

  /** The line "250101:  1, 1, 2, 3, 4, 5 / 7" loads as the draw 1, 1, 2, 3, 4, 5. For
      any such sorted draw whose smallest number repeats, the first 4-tuple is no
      combination: with the script's constant (n == MaxNumber, by Total4CombosValue)
      the reported remaining count for that one draw falls short of the true one. */
  lemma RepeatedDrawUndercount(draws: seq<seq<int>>, n: nat)
    requires |draws| == 1 && |draws[0]| == DrawSize && Ascending(draws[0]) && draws[0][0] == draws[0][1]
    requires Total4Combos == Choose(n, 4)
    ensures Totals(|Covered(draws)|, |draws|).0 < |RemainingPool(n, 4, Covered(draws))|
  {
    var d := draws[0];
    assert draws == [d];
    FirstTupleCovered(draws, d);
    var x := d[..4];
    assert Ascending(x) by {
      assert forall i :: 0 <= i < 4 ==> x[i] == d[i];
    }
    SortAscending(x);
    assert !(x[0] < x[1]);
    TotalsUndercount(draws, n, x);
  }

  /** The first 4-tuple of a single draw, sorted, is in the drawn set. */
  lemma FirstTupleCovered(draws: seq<seq<int>>, d: seq<int>)
    requires draws == [d] && |d| >= 4
    ensures Sort(d[..4]) in Covered(draws)
  {
    ChoicesFirst(d, 4);
    assert FourCombos(d)[0] == Sort(d[..4]);
    assert draws[..0] == [];
  }

  lemma OverlapNonNegative(draws: seq<seq<int>>, n: nat)
    requires forall i :: 0 <= i < |draws| ==> IsCombo(draws[i], n, DrawSize)
    ensures |Covered(draws)| <= 15 * |draws|
  {
    CoveredBound(draws);
  }

  /** The 4-subsets of 1..n that no draw holds number C(n, 4) less the drawn ones. */
  lemma CoveredCount(draws: seq<seq<int>>, n: nat)
    requires forall i :: 0 <= i < |draws| ==> IsCombo(draws[i], n, DrawSize)
    ensures |RemainingPool(n, 4, Covered(draws))| == Choose(n, 4) - |Covered(draws)|
  {
    CoveredInUniverse(draws, n);
    RemainingPoolSpec(n, 4, Covered(draws));
  }

  // ---------------------------------------------------------------- rating a 6-combination

  /** check_6combo_contains_undrawn_4combos(six, drawn): the number of its 4-subsets
      not in drawn, and the number of its 4-subsets. */
  function Check6Combo(six: seq<int>, drawn: set<seq<int>>): (nat, nat)
  {
    (|Unlisted(FourCombos(six), drawn)|, |FourCombos(six)|)
  }

  /** For six increasing numbers the second figure is 15, and the first counts the
      distinct 4-subsets outside drawn, so it lies in [0, 15]. */
  lemma Check6ComboSpec(six: seq<int>, drawn: set<seq<int>>)
    requires |six| == DrawSize && Increasing(six)
    ensures Check6Combo(six, drawn).1 == 15
    ensures Check6Combo(six, drawn).0 == 15 - |SeqSet(FourCombos(six)) * drawn|
    ensures Check6Combo(six, drawn).0 <= 15
  {
    SixHoldsFifteen(six);
    UnlistedCount(FourCombos(six), drawn);
  }

  // ---------------------------------------------------------------- samples

  /** sample_remaining_4combos(drawn, count): the first undrawn 4-combinations of
      1..n in lexicographic order; found is compared with count after it grows, so a
      count below one still yields one. */
  method SampleRemaining4Combos(drawn: set<seq<int>>, count: int, n: nat) returns (shown: seq<seq<int>>)
    ensures shown == RemainingPool(n, 4, drawn)[..SampleSize(count, |RemainingPool(n, 4, drawn)|)]
  {
    var all := Universe(n, 4);
    ghost var want := if count < 1 then 1 else count;
    shown := [];
    var found := 0;
    var i := 0;
    while i < |all|
      invariant 0 <= i <= |all|
      invariant shown == Unlisted(all[..i], drawn) && found == |shown|
      invariant found < want
    {
      UnlistedStep(all, i, drawn);
      if all[i] !in drawn {
        shown := shown + [all[i]];
        found := found + 1;
        if found >= count {
          SamplePrefix(all, i + 1, drawn);
          return;
        }
      }
      i := i + 1;
    }
    TakeAll(all);
  }

  /** A 6-combination worth showing: at least ten of its 4-subsets are undrawn. */
  predicate IsGood(six: seq<int>, drawn: set<seq<int>>)
  {
    Check6Combo(six, drawn).0 >= 10
  }

  /** The entries of cs worth showing, in the order of cs. */
  function GoodCombos(cs: seq<seq<int>>, drawn: set<seq<int>>): seq<seq<int>>
  {
    if |cs| == 0 then []
    else GoodCombos(cs[..|cs| - 1], drawn) + (if IsGood(cs[|cs| - 1], drawn) then [cs[|cs| - 1]] else [])
  }

  lemma GoodStep(cs: seq<seq<int>>, i: nat, drawn: set<seq<int>>)
    requires i < |cs|
    ensures GoodCombos(cs[..i + 1], drawn) == GoodCombos(cs[..i], drawn) + (if IsGood(cs[i], drawn) then [cs[i]] else [])
  {
    assert cs[..i + 1][..i] == cs[..i];
  }

  lemma {:induction false} GoodAppend(a: seq<seq<int>>, b: seq<seq<int>>, drawn: set<seq<int>>)
    ensures GoodCombos(a + b, drawn) == GoodCombos(a, drawn) + GoodCombos(b, drawn)
    decreases |b|
  {
    if |b| == 0 {
      assert a + b == a;
    } else {
      assert (a + b)[..|a + b| - 1] == a + b[..|b| - 1];
      GoodAppend(a, b[..|b| - 1], drawn);
    }
  }

  /** The good entries are exactly the entries of cs that are good. */
  lemma {:induction false} GoodMembers(cs: seq<seq<int>>, drawn: set<seq<int>>)
    ensures forall c :: c in GoodCombos(cs, drawn) <==> c in cs && IsGood(c, drawn)
    decreases |cs|
  {
    if |cs| > 0 {
      GoodMembers(cs[..|cs| - 1], drawn);
      assert cs == cs[..|cs| - 1] + [cs[|cs| - 1]];
    }
  }

  /** Filtering a lexicographically sorted list keeps it sorted. */
  lemma {:induction false} GoodSorted(cs: seq<seq<int>>, drawn: set<seq<int>>)
    requires LexSorted(cs)
    ensures LexSorted(GoodCombos(cs, drawn))
    decreases |cs|
  {
    if |cs| > 0 {
      var cs' := cs[..|cs| - 1];
      var last := cs[|cs| - 1];
      assert LexSorted(cs');
      GoodSorted(cs', drawn);
      GoodMembers(cs', drawn);
      var r := GoodCombos(cs', drawn);
      if IsGood(last, drawn) {
        forall i | 0 <= i < |r| ensures LexLess(r[i], last) {
          assert r[i] in cs';
          var j :| 0 <= j < |cs'| && cs'[j] == r[i];
          assert cs[j] == r[i];
        }
      }
    }
  }

  /** sample_good_6combos(drawn, count): the first 6-combinations of 1..n, in
      lexicographic order, with at least ten undrawn 4-subsets, stopping once count
      have been shown (one when count is below one). */
  method SampleGood6Combos(drawn: set<seq<int>>, count: int, n: nat) returns (shown: seq<seq<int>>)
    ensures var good := GoodCombos(Universe(n, DrawSize), drawn);
            shown == good[..SampleSize(count, |good|)]
  {
    var all := Universe(n, DrawSize);
    ghost var want := if count < 1 then 1 else count;
    shown := [];
    var found := 0;
    var i := 0;
    while i < |all|
      invariant 0 <= i <= |all|
      invariant shown == GoodCombos(all[..i], drawn) && found == |shown|
      invariant found < want
    {
      GoodStep(all, i, drawn);
      var rating := Check6Combo(all[i], drawn);
      if rating.0 >= 10 {
        shown := shown + [all[i]];
        found := found + 1;
        if found >= count {
          GoodStopEarly(all, i, drawn, count);
          return;
        }
      }
      i := i + 1;
    }
    GoodExhausted(all, drawn, count);
  }

  /** The sample is complete at the i-th combination: what was found so far is the
      head of all the good combinations. */
  lemma GoodStopEarly(all: seq<seq<int>>, i: nat, drawn: set<seq<int>>, count: int)
    requires i < |all| && IsGood(all[i], drawn)
    requires |GoodCombos(all[..i], drawn)| < (if count < 1 then 1 else count)
    requires |GoodCombos(all[..i], drawn)| + 1 >= count
    ensures GoodCombos(all[..i], drawn) + [all[i]] ==
              GoodCombos(all, drawn)[..SampleSize(count, |GoodCombos(all, drawn)|)]
  {
    GoodStep(all, i, drawn);
    var g := GoodCombos(all[..i + 1], drawn);
    var r := GoodCombos(all[i + 1..], drawn);
    GoodAppend(all[..i + 1], all[i + 1..], drawn);
    SplitAt(all, i + 1);
    SampleSizeExact(count, |g|, |g + r|);
    PrefixOfAppend(g, r);
  }

  /** A sample that reached the count on its last entry has exactly that many. */
  lemma SampleSizeExact(count: int, found: nat, m: nat)
    requires found - 1 < (if count < 1 then 1 else count) && found >= count && 1 <= found <= m
    ensures SampleSize(count, m) == found
  {
  }

  /** The walk ended before the sample was complete: everything good is shown. */
  lemma GoodExhausted(all: seq<seq<int>>, drawn: set<seq<int>>, count: int)
    requires |GoodCombos(all[..|all|], drawn)| < (if count < 1 then 1 else count)
    ensures GoodCombos(all[..|all|], drawn) ==
              GoodCombos(all, drawn)[..SampleSize(count, |GoodCombos(all, drawn)|)]
  {
    TakeAll(all);
  }

  /** What sample_good_6combos shows are 6-of-n combinations with at least ten
      undrawn 4-subsets, in lexicographic order. */
  lemma GoodSampleSpec(drawn: set<seq<int>>, n: nat)
    ensures var good := GoodCombos(Universe(n, DrawSize), drawn);
            && LexSorted(good)
            && forall c :: c in good <==> IsCombo(c, n, DrawSize) && Check6Combo(c, drawn).0 >= 10
  {
    UniverseSpec(n, DrawSize);
    GoodSorted(Universe(n, DrawSize), drawn);
    GoodMembers(Universe(n, DrawSize), drawn);
  }
}
