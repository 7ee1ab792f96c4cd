/** The combination space the lottery tools walk: binomial coefficients, factorials,
    itertools.combinations over a sequence, the k-of-n universe in its canonical
    (lexicographic) order, and the count of combinations that share exactly m
    numbers with a given draw. */
module Combinatorics {
  import opened Text

  // ---------------------------------------------------------------- numbers

  /** C(n, k) by Pascal's rule. */
  function Choose(n: nat, k: nat): nat
  {
    if k == 0 then 1 else if n == 0 then 0 else Choose(n - 1, k - 1) + Choose(n - 1, k)
  }

  function Fact(n: nat): (f: nat)
    ensures f >= 1
  {
    if n == 0 then 1 else n * Fact(n - 1)
  }

  lemma {:induction false} ChooseOne(n: nat)
    ensures Choose(n, 1) == n
  {
    if n > 0 {
      ChooseOne(n - 1);
    }
  }

  lemma {:induction false} ChooseAll(n: nat)
    ensures Choose(n, n) == 1
  {
    if n > 0 {
      ChooseAll(n - 1);
      ChooseAbove(n - 1, n);
    }
  }

  lemma {:induction false} ChooseAbove(n: nat, k: nat)
    requires k > n
    ensures Choose(n, k) == 0
  {
    if n > 0 {
      ChooseAbove(n - 1, k - 1);
      ChooseAbove(n - 1, k);
    }
  }

  /** The absorption identity (k + 1) C(n, k + 1) = (n - k) C(n, k). */
  lemma {:induction false} Absorb(n: nat, k: nat)
    ensures Choose(n, k + 1) * (k + 1) == Choose(n, k) * (n - k)
  {
    if n == 0 {
    } else if k == 0 {
      ChooseOne(n);
    } else {
      var m, j := n - 1, k - 1;
      Absorb(m, j + 1);
      Absorb(m, j);
      var a, b, c := Choose(m, j), Choose(m, j + 1), Choose(m, j + 2);
      assert Choose(n, k + 1) == b + c;
      assert Choose(n, k) == a + b;
      AbsorbStep(a, b, c, m, j);
    }
  }

  lemma AbsorbStep(a: int, b: int, c: int, m: int, j: int)
    requires c * (j + 2) == b * (m - j - 1)
    requires b * (j + 1) == a * (m - j)
    ensures (b + c) * (j + 2) == (a + b) * (m - j)
  {
    calc {
      (b + c) * (j + 2);
      b * (j + 2) + c * (j + 2);
      b * (j + 2) + b * (m - j - 1);
      b * (m + 1);
      b * (j + 1) + b * (m - j);
      a * (m - j) + b * (m - j);
      (a + b) * (m - j);
    }
  }

  /** C(n, k) k! (n - k)! = n! */
  lemma {:induction false} ChooseFact(n: nat, k: nat)
    requires k <= n
    ensures Choose(n, k) * (Fact(k) * Fact(n - k)) == Fact(n)
  {
    if k > 0 {
      ChooseFact(n, k - 1);
      Absorb(n, k - 1);
      var c, c' := Choose(n, k), Choose(n, k - 1);
      var f, g := Fact(k - 1), Fact(n - k);
      assert Fact(k) == k * f;
      assert Fact(n - (k - 1)) == (n - k + 1) * g;
      FactStep(c, c', k, n, f, g);
    }
  }

  lemma FactStep(c: int, c': int, k: int, n: int, f: int, g: int)
    requires c * k == c' * (n - k + 1)
    ensures c * ((k * f) * g) == c' * (f * ((n - k + 1) * g))
  {
    calc {
      c * ((k * f) * g);
      (c * k) * (f * g);
      (c' * (n - k + 1)) * (f * g);
      c' * (f * ((n - k + 1) * g));
    }
  }

  lemma DivExact(c: nat, f: nat)
    requires f > 0
    ensures (c * f) / f == c
  {
    var q, r := (c * f) / f, (c * f) % f;
    assert (c - q) * f == r;
    MulBound(c - q, f);
  }

  /** calculate_total_combinations: n! // (k! (n - k)!), which raises for a negative
      argument or k > n; otherwise it is the number of k-subsets of n numbers. */
  function TotalCombinations(n: int, k: int): (r: Option<nat>)
    ensures r.Some? <==> 0 <= k <= n
    ensures r.Some? ==> r.value == Choose(n, k)
  {
    if n < 0 || k < 0 || k > n then None
    else
      ChooseFact(n, k);
      DivExact(Choose(n, k), Fact(k) * Fact(n - k));
      Some(Fact(n) / (Fact(k) * Fact(n - k)))
  }

  /** C(49, 4) = 211876 and C(49, 6) = 13983816, the sizes of the 4-of-49 and
      6-of-49 universes. */
  lemma Choose49()
    ensures Choose(49, 4) == 211876
    ensures Choose(49, 6) == 13983816
  {
    ChooseSteps(49);
  }

  lemma {:induction false} ChooseSteps(n: nat)
    requires n == 49
    ensures Choose(n, 4) == 211876
    ensures Choose(n, 6) == 13983816
  {
    ChooseOne(n);
    AbsorbValue(n, 1, 49, 2352);
    AbsorbValue(n, 2, 1176, 55272);
    AbsorbValue(n, 3, 18424, 847504);
    AbsorbValue(n, 4, 211876, 9534420);
    AbsorbValue(n, 5, 1906884, 83902896);
  }

  lemma AbsorbValue(n: nat, k: nat, v: nat, p: int)
    requires Choose(n, k) == v && p == v * (n - k)
    ensures Choose(n, k + 1) * (k + 1) == p
  {
    Absorb(n, k);
  }

  // ---------------------------------------------------------------- sequences as combinations

  function Elems(s: seq<int>): set<int>
  {
    set x | x in s
  }

  /** Strictly increasing: the canonical form of a combination. */
  predicate Increasing(s: seq<int>)
  {
    forall i, j :: 0 <= i < j < |s| ==> s[i] < s[j]
  }

  lemma {:induction false} IncreasingCard(s: seq<int>)
    requires Increasing(s)
    ensures |Elems(s)| == |s|
  {
    if |s| > 0 {
      IncreasingCard(s[1..]);
      assert Elems(s) == {s[0]} + Elems(s[1..]);
      assert s[0] !in Elems(s[1..]);
    }
  }

  /** Python's tuple comparison a < b. */
  predicate LexLess(a: seq<int>, b: seq<int>)
  {
    |b| > 0 && (|a| == 0 || a[0] < b[0] || (a[0] == b[0] && LexLess(a[1..], b[1..])))
  }

  lemma {:induction false} LexLessIrreflexive(a: seq<int>)
    ensures !LexLess(a, a)
  {
    if |a| > 0 {
      LexLessIrreflexive(a[1..]);
    }
  }

  /** Every pair in order is lexicographically increasing, so no element repeats. */
  predicate LexSorted(cs: seq<seq<int>>)
  {
    forall i, j :: 0 <= i < j < |cs| ==> LexLess(cs[i], cs[j])
  }

  lemma LexSortedDistinct(cs: seq<seq<int>>)
    requires LexSorted(cs)
    ensures forall i, j :: 0 <= i < j < |cs| ==> cs[i] != cs[j]
  {
    forall i, j | 0 <= i < j < |cs| ensures cs[i] != cs[j] {
      LexLessIrreflexive(cs[i]);
    }
  }

  /** The integers lo, lo + 1, ..., hi. */
  function Range(lo: int, hi: int): (r: seq<int>)
    ensures |r| == if hi < lo then 0 else hi - lo + 1
    ensures forall i :: 0 <= i < |r| ==> r[i] == lo + i
  {
    if hi < lo then [] else seq(hi - lo + 1, i => lo + i)
  }

  /** [x] + c for every entry c of cs, in order. */
  function Prepend(x: int, cs: seq<seq<int>>): (r: seq<seq<int>>)
    ensures |r| == |cs|
  {
    if |cs| == 0 then [] else [[x] + cs[0]] + Prepend(x, cs[1..])
  }

  lemma {:induction false} PrependIndex(x: int, cs: seq<seq<int>>)
    ensures forall i :: 0 <= i < |cs| ==> Prepend(x, cs)[i] == [x] + cs[i]
  {
    if |cs| > 0 {
      PrependIndex(x, cs[1..]);
      forall i | 1 <= i < |cs| ensures Prepend(x, cs)[i] == [x] + cs[i] {
        assert Prepend(x, cs)[i] == Prepend(x, cs[1..])[i - 1];
        assert cs[1..][i - 1] == cs[i];
      }
    }
  }

  /** An entry of Prepend(x, cs) is x followed by an entry of cs. */
  lemma PrependMember(x: int, cs: seq<seq<int>>, c: seq<int>)
    requires c in Prepend(x, cs)
    ensures |c| > 0 && c[0] == x && c[1..] in cs
  {
    PrependIndex(x, cs);
    var i :| 0 <= i < |cs| && Prepend(x, cs)[i] == c;
    assert c == [x] + cs[i];
    assert c[1..] == cs[i];
  }

  lemma PrependHas(x: int, cs: seq<seq<int>>, c: seq<int>)
    requires c in cs
    ensures [x] + c in Prepend(x, cs)
  {
    PrependIndex(x, cs);
    var i :| 0 <= i < |cs| && cs[i] == c;
    assert Prepend(x, cs)[i] == [x] + c;
  }

  /** itertools.combinations(s, r): the r-element selections of s, by position, in
      the order itertools produces them. */
  function Choices(s: seq<int>, r: nat): seq<seq<int>>
    decreases |s|, 1
  {
    if r == 0 then [[]]
    else if |s| == 0 then []
    else ChoicesFrom(s, r)
  }

  /** The selections that take s[0], then those that leave it out. */
  function ChoicesFrom(s: seq<int>, r: nat): seq<seq<int>>
    requires r > 0 && |s| > 0
    decreases |s|, 0
  {
    Prepend(s[0], Choices(s[1..], r - 1)) + Choices(s[1..], r)
  }

  /** The first selection is the first r elements. */
  lemma {:induction false} ChoicesFirst(s: seq<int>, r: nat)
    requires r <= |s|
    ensures |Choices(s, r)| > 0 && Choices(s, r)[0] == s[..r]
    decreases |s|
  {
    if r > 0 {
      ChoicesFirst(s[1..], r - 1);
      var rest := Choices(s[1..], r - 1);
      assert Prepend(s[0], rest)[0] == [s[0]] + rest[0];
      assert s[..r] == [s[0]] + s[1..][..r - 1];
    }
  }

  /** itertools.combinations(range(1, n + 1), k): the k-of-n universe. */
  function Universe(n: nat, k: nat): seq<seq<int>>
  {
    Choices(Range(1, n), k)
  }

  /** A combination of the k-of-n universe: k strictly increasing numbers in [1, n]. */
  predicate IsCombo(c: seq<int>, n: int, k: int)
  {
    |c| == k && Increasing(c) && forall i :: 0 <= i < |c| ==> 1 <= c[i] <= n
  }

  lemma {:induction false} ChoicesLength(s: seq<int>, r: nat)
    ensures |Choices(s, r)| == Choose(|s|, r)
    decreases |s|
  {
    if r > 0 && |s| > 0 {
      ChoicesLength(s[1..], r - 1);
      ChoicesLength(s[1..], r);
    }
  }

  /** c is an r-selection of s: r increasing numbers, each taken from s. */
  predicate SelectionOf(c: seq<int>, s: seq<int>, r: nat)
  {
    |c| == r && Increasing(c) && forall i :: 0 <= i < |c| ==> c[i] in s
  }

  /** An r-selection of s either starts with s[0] or leaves s[0] out. */
  lemma ChoicesMember(s: seq<int>, r: nat, c: seq<int>)
    requires r > 0 && |s| > 0 && c in Choices(s, r)
    ensures c in Prepend(s[0], Choices(s[1..], r - 1)) || c in Choices(s[1..], r)
  {
  }

  /** Each selection from an increasing sequence has r elements, is increasing and
      draws its elements from s. */
  lemma {:induction false} ChoicesElems(s: seq<int>, r: nat)
    requires Increasing(s)
    ensures forall c :: c in Choices(s, r) ==> SelectionOf(c, s, r)
    decreases |s|
  {
    if r == 0 {
      assert Choices(s, r) == [[]];
    } else if |s| > 0 {
      ChoicesElems(s[1..], r - 1);
      ChoicesElems(s[1..], r);
      forall c | c in Choices(s, r) ensures SelectionOf(c, s, r) {
        SelectionStep(s, r, r - 1, c);
      }
    }
  }

  /** The inductive step of ChoicesElems, for r = p + 1. */
  lemma SelectionStep(s: seq<int>, r: nat, p: nat, c: seq<int>)
    requires Increasing(s) && |s| > 0 && r == p + 1 && c in Choices(s, r)
    requires forall c' :: c' in Choices(s[1..], p) ==> SelectionOf(c', s[1..], p)
    requires forall c' :: c' in Choices(s[1..], r) ==> SelectionOf(c', s[1..], r)
    ensures SelectionOf(c, s, r)
  {
    ChoicesMember(s, r, c);
    if c in Prepend(s[0], Choices(s[1..], p)) {
      PrependMember(s[0], Choices(s[1..], p), c);
      ConsSelection(s, c[1..], r);
      assert c == [s[0]] + c[1..];
    } else {
      TailSelection(s, c, r);
    }
  }

  /** s[0] before an (r - 1)-selection of s[1..] is an r-selection of s. */
  lemma ConsSelection(s: seq<int>, c: seq<int>, r: nat)
    requires Increasing(s) && |s| > 0 && r > 0 && SelectionOf(c, s[1..], r - 1)
    ensures SelectionOf([s[0]] + c, s, r)
  {
    forall i | 0 <= i < |c| ensures s[0] < c[i] && c[i] in s {
      var j :| 0 <= j < |s[1..]| && s[1..][j] == c[i];
      assert s[1..][j] == s[j + 1];
    }
    var e := [s[0]] + c;
    forall i, j | 0 <= i < j < |e| ensures e[i] < e[j] {
      assert e[j] == c[j - 1];
      if i > 0 {
        assert e[i] == c[i - 1];
      }
    }
  }

  /** An r-selection of s[1..] is an r-selection of s. */
  lemma TailSelection(s: seq<int>, c: seq<int>, r: nat)
    requires |s| > 0 && SelectionOf(c, s[1..], r)
    ensures SelectionOf(c, s, r)
  {
    forall i | 0 <= i < |c| ensures c[i] in s {
      var j :| 0 <= j < |s[1..]| && s[1..][j] == c[i];
      assert s[1..][j] == s[j + 1];
    }
  }

  /** The selections from an increasing sequence come out in strictly increasing
      lexicographic order. */
  lemma {:induction false} ChoicesSorted(s: seq<int>, r: nat)
    requires Increasing(s)
    ensures LexSorted(Choices(s, r))
    decreases |s|
  {
    if r > 0 && |s| > 0 {
      var s' := s[1..];
      ChoicesSorted(s', r - 1);
      ChoicesSorted(s', r);
      PrependSorted(s[0], Choices(s', r - 1));
      ChoicesAfterFirst(s, r);
      SortedAppend(Prepend(s[0], Choices(s', r - 1)), Choices(s', r));
    }
  }

  /** The selections starting with s[0] all come before the ones that leave it out. */
  lemma ChoicesAfterFirst(s: seq<int>, r: nat)
    requires Increasing(s) && r > 0 && |s| > 0
    ensures forall a, b :: a in Prepend(s[0], Choices(s[1..], r - 1)) && b in Choices(s[1..], r)
              ==> LexLess(a, b)
  {
    ChoicesElems(s[1..], r);
    forall a, b | a in Prepend(s[0], Choices(s[1..], r - 1)) && b in Choices(s[1..], r)
      ensures LexLess(a, b)
    {
      PrependMember(s[0], Choices(s[1..], r - 1), a);
      assert SelectionOf(b, s[1..], r);
      assert b[0] in s[1..];
      var t :| 0 <= t < |s[1..]| && s[1..][t] == b[0];
      assert s[1..][t] == s[t + 1];
    }
  }

  lemma PrependSorted(x: int, cs: seq<seq<int>>)
    requires LexSorted(cs)
    ensures LexSorted(Prepend(x, cs))
  {
    PrependIndex(x, cs);
    var p := Prepend(x, cs);
    forall i, j | 0 <= i < j < |p| ensures LexLess(p[i], p[j]) {
      assert p[i] == [x] + cs[i] && p[j] == [x] + cs[j];
      assert p[i][1..] == cs[i] && p[j][1..] == cs[j];
    }
  }

  lemma SortedAppend(p: seq<seq<int>>, q: seq<seq<int>>)
    requires LexSorted(p) && LexSorted(q)
    requires forall a, b :: a in p && b in q ==> LexLess(a, b)
    ensures LexSorted(p + q)
  {
    var all := p + q;
    forall i, j | 0 <= i < j < |all| ensures LexLess(all[i], all[j]) {
      if j < |p| {
        assert all[i] == p[i] && all[j] == p[j];
      } else if i >= |p| {
        assert all[i] == q[i - |p|] && all[j] == q[j - |p|];
      } else {
        assert all[i] == p[i] && all[j] == q[j - |p|];
      }
    }
  }

  /** Every increasing r-element sequence whose elements come from s is selected. */
  lemma {:induction false} ChoicesComplete(s: seq<int>, r: nat, c: seq<int>)
    requires Increasing(s) && SelectionOf(c, s, r)
    ensures c in Choices(s, r)
    decreases |s|
  {
    if r == 0 {
      assert c == [];
    } else {
      assert c[0] in s;
      var s' := s[1..];
      if c[0] == s[0] {
        var c' := c[1..];
        HeadSelection(s, c, r);
        ChoicesComplete(s', r - 1, c');
        PrependHas(s[0], Choices(s', r - 1), c');
        assert c == [s[0]] + c';
      } else {
        SkipSelection(s, c, r);
        ChoicesComplete(s', r, c);
      }
    }
  }

  lemma HeadSelection(s: seq<int>, c: seq<int>, r: nat)
    requires Increasing(s) && SelectionOf(c, s, r) && r > 0 && |s| > 0 && c[0] == s[0]
    ensures SelectionOf(c[1..], s[1..], r - 1)
  {
    var c' := c[1..];
    forall i | 0 <= i < |c'| ensures c'[i] in s[1..] {
      var u :| 0 <= u < |s| && s[u] == c'[i];
      assert c'[i] == c[i + 1] > c[0];
      assert u != 0;
      assert s[1..][u - 1] == s[u];
    }
  }

  lemma SkipSelection(s: seq<int>, c: seq<int>, r: nat)
    requires Increasing(s) && SelectionOf(c, s, r) && r > 0 && |s| > 0 && c[0] != s[0]
    ensures SelectionOf(c, s[1..], r)
  {
    var t :| 0 <= t < |s| && s[t] == c[0];
    assert t > 0;
    forall i | 0 <= i < |c| ensures c[i] in s[1..] {
      var u :| 0 <= u < |s| && s[u] == c[i];
      assert c[i] >= c[0] == s[t] > s[0];
      assert u != 0;
      assert s[1..][u - 1] == s[u];
    }
  }

  lemma RangeIncreasing(lo: int, hi: int)
    ensures Increasing(Range(lo, hi))
    ensures forall x :: x in Range(lo, hi) <==> lo <= x <= hi
  {
    var r := Range(lo, hi);
    forall x | lo <= x <= hi ensures x in r {
      assert r[x - lo] == x;
    }
  }

  /** The universe lists exactly the k-of-n combinations, each once, in strictly
      increasing lexicographic order, and there are C(n, k) of them. */
  lemma UniverseSpec(n: nat, k: nat)
    ensures |Universe(n, k)| == Choose(n, k)
    ensures forall c :: c in Universe(n, k) <==> IsCombo(c, n, k)
    ensures LexSorted(Universe(n, k))
    ensures forall i, j :: 0 <= i < j < |Universe(n, k)| ==> Universe(n, k)[i] != Universe(n, k)[j]
  {
    var s := Range(1, n);
    RangeIncreasing(1, n);
    ChoicesLength(s, k);
    ChoicesElems(s, k);
    ChoicesSorted(s, k);
    LexSortedDistinct(Universe(n, k));
    forall c | c in Universe(n, k) ensures IsCombo(c, n, k) {
      assert SelectionOf(c, s, k);
    }
    forall c | IsCombo(c, n, k) ensures c in Universe(n, k) {
      assert SelectionOf(c, s, k);
      ChoicesComplete(s, k, c);
    }
  }

  // ---------------------------------------------------------------- counting overlaps

  /** The number of positions of c that hold a number of d. */
  function Hits(c: seq<int>, d: set<int>): (h: nat)
    ensures h <= |c|
  {
    if |c| == 0 then 0 else (if c[0] in d then 1 else 0) + Hits(c[1..], d)
  }

  /** The number of entries of cs that hit d exactly m times. */
  function CountHits(cs: seq<seq<int>>, d: set<int>, m: int): nat
  {
    if |cs| == 0 then 0 else (if Hits(cs[0], d) == m then 1 else 0) + CountHits(cs[1..], d, m)
  }

  lemma {:induction false} CountHitsAppend(a: seq<seq<int>>, b: seq<seq<int>>, d: set<int>, m: int)
    ensures CountHits(a + b, d, m) == CountHits(a, d, m) + CountHits(b, d, m)
  {
    if |a| > 0 {
      assert (a + b)[1..] == a[1..] + b;
      CountHitsAppend(a[1..], b, d, m);
    } else {
      assert a + b == b;
    }
  }

  lemma {:induction false} CountHitsPrepend(x: int, cs: seq<seq<int>>, d: set<int>, m: int)
    ensures CountHits(Prepend(x, cs), d, m) == CountHits(cs, d, m - (if x in d then 1 else 0))
  {
    if |cs| > 0 {
      var p := Prepend(x, cs);
      assert p[0] == [x] + cs[0];
      assert ([x] + cs[0])[1..] == cs[0];
      assert p[1..] == Prepend(x, cs[1..]);
      CountHitsPrepend(x, cs[1..], d, m);
    }
  }

  /** Of the r-element selections from s, exactly C(a, m) C(b, r - m) hit d m times,
      where a positions of s hold numbers of d and b positions do not. */
  lemma ChoicesHitCount(s: seq<int>, r: nat, d: set<int>, m: int)
    ensures CountHits(Choices(s, r), d, m) == HitFormula(Hits(s, d), Misses(s, d), r, m)
  {
    ChoicesCountIsSplitCount(s, r, d, m);
    SplitCountFormula(s, r, d, m);
  }

  /** The count of r-selections of s hitting d m times, by the recursion of Choices. */
  function SplitCount(s: seq<int>, r: nat, d: set<int>, m: int): nat
    decreases |s|
  {
    if r == 0 then (if m == 0 then 1 else 0)
    else if |s| == 0 then 0
    else
      var h := if s[0] in d then 1 else 0;
      SplitCount(s[1..], r - 1, d, m - h) + SplitCount(s[1..], r, d, m)
  }

  lemma {:induction false} ChoicesCountIsSplitCount(s: seq<int>, r: nat, d: set<int>, m: int)
    ensures CountHits(Choices(s, r), d, m) == SplitCount(s, r, d, m)
    decreases |s|
  {
    if r == 0 {
      ChoicesNone(s, d, m);
    } else if |s| > 0 {
      var h := if s[0] in d then 1 else 0;
      ChoicesCountIsSplitCount(s[1..], r - 1, d, m - h);
      ChoicesCountIsSplitCount(s[1..], r, d, m);
      ChoicesCountSplit(s, r, d, m, h);
    }
  }

  lemma ChoicesNone(s: seq<int>, d: set<int>, m: int)
    ensures CountHits(Choices(s, 0), d, m) == if m == 0 then 1 else 0
  {
    assert Choices(s, 0) == [[]];
    assert CountHits([[]], d, m) == if m == 0 then 1 else 0;
  }

  lemma {:induction false} SplitCountFormula(s: seq<int>, r: nat, d: set<int>, m: int)
    ensures SplitCount(s, r, d, m) == HitFormula(Hits(s, d), Misses(s, d), r, m)
    decreases |s|
  {
    if r == 0 || |s| == 0 {
      if r > 0 && 0 <= m <= r {
        if m > 0 {
          assert Choose(0, m) == 0;
        } else {
          assert Choose(0, r - m) == 0;
        }
      }
    } else {
      var h := if s[0] in d then 1 else 0;
      SplitCountFormula(s[1..], r - 1, d, m - h);
      SplitCountFormula(s[1..], r, d, m);
      HitFormulaStep(Hits(s, d), Misses(s, d), Hits(s[1..], d), Misses(s[1..], d), h, r, m);
    }
  }

  /** The number of positions of c that hold a number outside d. */
  function Misses(c: seq<int>, d: set<int>): (k: nat)
    ensures Hits(c, d) + k == |c|
  {
    if |c| == 0 then 0 else (if c[0] in d then 0 else 1) + Misses(c[1..], d)
  }

  /** The selections with s[0] hit d once more than the selections of s[1..] they extend. */
  lemma ChoicesCountSplit(s: seq<int>, r: nat, d: set<int>, m: int, h: int)
    requires r > 0 && |s| > 0 && h == if s[0] in d then 1 else 0
    ensures CountHits(Choices(s, r), d, m)
         == CountHits(Choices(s[1..], r - 1), d, m - h) + CountHits(Choices(s[1..], r), d, m)
  {
    CountHitsAppend(Prepend(s[0], Choices(s[1..], r - 1)), Choices(s[1..], r), d, m);
    CountHitsPrepend(s[0], Choices(s[1..], r - 1), d, m);
  }

  /** Pascal's rule for HitFormula: a first number that is in d (h = 1) adds one
      hit, one that is not (h = 0) adds one miss. */
  lemma HitFormulaStep(a: nat, b: nat, a': nat, b': nat, h: int, r: nat, m: int)
    requires 0 <= h <= 1 && r > 0 && a == a' + h && b == b' + 1 - h
    ensures HitFormula(a, b, r, m) == HitFormula(a', b', r - 1, m - h) + HitFormula(a', b', r, m)
  {
    if h == 1 {
      HitFormulaHit(a', b', r, m);
    } else {
      HitFormulaMiss(a', b', r, m);
    }
  }

  /** C(a, m) C(b, r - m) for 0 <= m <= r, and 0 otherwise. */
  function HitFormula(a: nat, b: nat, r: nat, m: int): nat
  {
    if 0 <= m <= r then Choose(a, m) * Choose(b, r - m) else 0
  }

  lemma HitFormulaHit(a: nat, b: nat, r: nat, m: int)
    requires r > 0
    ensures HitFormula(a + 1, b, r, m) == HitFormula(a, b, r - 1, m - 1) + HitFormula(a, b, r, m)
  {
    if 1 <= m <= r {
      assert Choose(a + 1, m) == Choose(a, m - 1) + Choose(a, m);
      assert r - 1 - (m - 1) == r - m;
      SumProd(Choose(a, m - 1), Choose(a, m), Choose(b, r - m));
    }
  }

  lemma HitFormulaMiss(a: nat, b: nat, r: nat, m: int)
    requires r > 0
    ensures HitFormula(a, b + 1, r, m) == HitFormula(a, b, r - 1, m) + HitFormula(a, b, r, m)
  {
    if 0 <= m < r {
      assert Choose(b + 1, r - m) == Choose(b, r - m - 1) + Choose(b, r - m);
      SumProd(Choose(b, r - m - 1), Choose(b, r - m), Choose(a, m));
    }
  }

  lemma SumProd(x: int, y: int, z: int)
    ensures (x + y) * z == x * z + y * z
    ensures z * (x + y) == z * x + z * y
  {
  }

  /** For a combination with no repeated number, hits are the size of the intersection. */
  lemma {:induction false} HitsCard(c: seq<int>, d: set<int>)
    requires Increasing(c)
    ensures Hits(c, d) == |Elems(c) * d|
  {
    if |c| > 0 {
      var c' := c[1..];
      IncreasingTail(c);
      HitsCard(c', d);
      ElemsCons(c);
      CardAddOne(c[0], Elems(c'), d);
    }
  }

  lemma IncreasingTail(c: seq<int>)
    requires Increasing(c) && |c| > 0
    ensures Increasing(c[1..]) && c[0] !in Elems(c[1..])
  {
  }

  lemma ElemsCons(c: seq<int>)
    requires |c| > 0
    ensures Elems(c) == {c[0]} + Elems(c[1..])
  {
    assert c == [c[0]] + c[1..];
  }

  /** Adding a new element to a set adds one to its intersection with d exactly
      when the element is in d. */
  lemma CardAddOne(x: int, e: set<int>, d: set<int>)
    requires x !in e
    ensures |({x} + e) * d| == |e * d| + (if x in d then 1 else 0)
  {
    if x in d {
      assert ({x} + e) * d == {x} + (e * d);
    } else {
      assert ({x} + e) * d == e * d;
    }
  }

  /** The entries of cs that hit d exactly m times, as a set. */
  ghost function HitSet(cs: seq<seq<int>>, d: set<int>, m: int): set<seq<int>>
  {
    set c | c in cs && Hits(c, d) == m
  }

  /** When cs has no repeated entry, the set of entries that hit d exactly m times
      has as many elements as the count of such entries. */
  lemma {:induction false} DistinctCountHits(cs: seq<seq<int>>, d: set<int>, m: int)
    requires forall i, j :: 0 <= i < j < |cs| ==> cs[i] != cs[j]
    ensures |HitSet(cs, d, m)| == CountHits(cs, d, m)
  {
    if |cs| == 0 {
      assert HitSet(cs, d, m) == {};
    } else {
      var rest := HitSet(cs[1..], d, m);
      DistinctCountHits(cs[1..], d, m);
      assert cs[0] !in cs[1..] by {
        forall j | 0 <= j < |cs[1..]| ensures cs[1..][j] != cs[0] {
          assert cs[1..][j] == cs[j + 1];
        }
      }
      assert forall c :: c in cs <==> c == cs[0] || c in cs[1..];
      if Hits(cs[0], d) == m {
        assert HitSet(cs, d, m) == {cs[0]} + rest;
        assert cs[0] !in rest;
      } else {
        assert HitSet(cs, d, m) == rest;
      }
    }
  }


  /** For any set d, the combinations of the k-of-n universe holding exactly m of its
      numbers are C(a, m) C(n - a, k - m), where a counts the numbers of d in [1, n]. */
  lemma UniverseHitCount(n: nat, k: nat, d: set<int>, m: int)
    ensures var a := Hits(Range(1, n), d);
            |HitSet(Universe(n, k), d, m)| == HitFormula(a, n - a, k, m)
  {
    UniverseSpec(n, k);
    DistinctCountHits(Universe(n, k), d, m);
    ChoicesHitCount(Range(1, n), k, d, m);
  }

  /** When d holds the numbers of a k-of-n combination, C(k, m) C(n - k, k - m)
      combinations of the universe share exactly m numbers with it. */
  lemma ComboHitCount(n: nat, k: nat, draw: seq<int>, m: int)
    requires k <= n && IsCombo(draw, n, k)
    ensures |HitSet(Universe(n, k), Elems(draw), m)| == HitFormula(k, n - k, k, m)
  {
    var r := Range(1, n);
    RangeIncreasing(1, n);
    HitsCard(r, Elems(draw));
    assert Elems(r) * Elems(draw) == Elems(draw);
    IncreasingCard(draw);
    UniverseHitCount(n, k, Elems(draw), m);
  }
}
