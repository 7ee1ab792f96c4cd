/** The distance-based eliminator for a k-of-n lottery: the distance of a combination
    from a draw is k minus the numbers they share; eliminating at distance d from a
    draw removes from the k-of-n universe every combination at that distance, and the
    combinations never removed are the "remaining" pool that is saved or sampled. */
module DistanceElimination {
  import opened Text
  import opened Combinatorics
  import opened Sorting
  import opened ByteCodec
  import opened DrawText

  // ---------------------------------------------------------------- distance

  /** calculate_distance(combo1, combo2): max_play minus the size of
      set(combo1) & set(combo2). */
  function Distance(maxPlay: int, a: seq<int>, b: seq<int>): int
  {
    maxPlay - |Elems(a) * Elems(b)|
  }

  lemma DistanceSymmetric(maxPlay: int, a: seq<int>, b: seq<int>)
    ensures Distance(maxPlay, a, b) == Distance(maxPlay, b, a)
  {
    assert Elems(a) * Elems(b) == Elems(b) * Elems(a);
  }

  lemma ElemsCard(a: seq<int>)
    ensures |Elems(a)| <= |a|
  {
    if |a| > 0 {
      ElemsCard(a[1..]);
      assert Elems(a) == {a[0]} + Elems(a[1..]);
    }
  }

  /** Two combinations of max_play numbers are between 0 and max_play apart. */
  lemma DistanceBounds(maxPlay: int, a: seq<int>, b: seq<int>)
    requires |a| == maxPlay
    ensures 0 <= Distance(maxPlay, a, b) <= maxPlay
  {
    ElemsCard(a);
    assert Elems(a) * Elems(b) <= Elems(a);
    SubsetCard(Elems(a) * Elems(b), Elems(a));
  }

  lemma SubsetCard(x: set<int>, y: set<int>)
    requires x <= y
    ensures |x| <= |y|
  {
    assert y == x + (y - x);
  }

  /** Two combinations of the k-of-n universe are at distance 0 exactly when they
      are the same combination. */
  lemma DistanceZero(n: int, k: int, a: seq<int>, b: seq<int>)
    requires IsCombo(a, n, k) && IsCombo(b, n, k)
    ensures Distance(k, a, b) == 0 <==> a == b
  {
    IncreasingCard(a);
    IncreasingCard(b);
    assert Elems(a) * Elems(a) == Elems(a);
    if Distance(k, a, b) == 0 {
      var common := Elems(a) * Elems(b);
      assert common <= Elems(a) && |common| == |Elems(a)|;
      SameCardSubset(common, Elems(a));
      SameCardSubset(common, Elems(b));
      IncreasingEqual(a, b);
    }
  }

  lemma SameCardSubset(x: set<int>, y: set<int>)
    requires x <= y && |x| == |y|
    ensures x == y
  {
    assert |y - x| == 0;
  }

  lemma ElemsEmpty(s: seq<int>)
    ensures Elems(s) == {} <==> |s| == 0
  {
    if |s| > 0 {
      assert s[0] in Elems(s);
    }
  }

  /** Two strictly increasing sequences with the same numbers are equal. */
  lemma {:induction false} IncreasingEqual(a: seq<int>, b: seq<int>)
    requires Increasing(a) && Increasing(b) && Elems(a) == Elems(b)
    ensures a == b
    decreases |a|
  {
    ElemsEmpty(a);
    ElemsEmpty(b);
    if |a| > 0 {
      assert a[0] in Elems(b);
      assert |b| > 0;
      assert b[0] in Elems(a);
      assert a[0] == b[0] by {
        assert a[0] <= b[0] by {
          var j :| 0 <= j < |a| && a[j] == b[0];
        }
        assert b[0] <= a[0] by {
          var j :| 0 <= j < |b| && b[j] == a[0];
        }
      }
      assert Elems(a) == {a[0]} + Elems(a[1..]) && a[0] !in Elems(a[1..]);
      assert Elems(b) == {b[0]} + Elems(b[1..]) && b[0] !in Elems(b[1..]);
      assert Elems(a[1..]) == Elems(b[1..]);
      IncreasingEqual(a[1..], b[1..]);
      assert a == [a[0]] + a[1..] && b == [b[0]] + b[1..];
    }
  }

  // ---------------------------------------------------------------- what one elimination removes

  /** The combinations of the k-of-n universe at the given distance from a draw. */
  ghost function MatchSet(n: nat, k: nat, draw: seq<int>, distance: int): set<seq<int>>
  {
    MatchesIn(Universe(n, k), k, draw, distance)
  }

  lemma MatchSetCombos(n: nat, k: nat, draw: seq<int>, distance: int)
    ensures forall c :: c in MatchSet(n, k, draw, distance) ==> c in Universe(n, k)
  {
    MatchesInMembers(Universe(n, k), k, draw, distance);
  }

  /** The entries of cs at the given distance from a draw. */
  ghost function MatchesIn(cs: seq<seq<int>>, k: nat, draw: seq<int>, distance: int): set<seq<int>>
  {
    if |cs| == 0 then {}
    else
      var last := cs[|cs| - 1];
      MatchesIn(cs[..|cs| - 1], k, draw, distance) + (if Distance(k, draw, last) == distance then {last} else {})
  }

  lemma {:induction false} MatchesInMembers(cs: seq<seq<int>>, k: nat, draw: seq<int>, distance: int)
    ensures forall c :: c in MatchesIn(cs, k, draw, distance) <==> c in cs && Distance(k, draw, c) == distance
  {
    if |cs| > 0 {
      MatchesInMembers(cs[..|cs| - 1], k, draw, distance);
      assert cs == cs[..|cs| - 1] + [cs[|cs| - 1]];
    }
  }

  lemma MatchesInStep(cs: seq<seq<int>>, i: nat, k: nat, draw: seq<int>, distance: int)
    requires i < |cs|
    ensures MatchesIn(cs[..i + 1], k, draw, distance)
         == MatchesIn(cs[..i], k, draw, distance)
            + (if Distance(k, draw, cs[i]) == distance then {cs[i]} else {})
  {
    assert cs[..i + 1][..i] == cs[..i];
  }

  /** Around a draw of the k-of-n universe, C(k, k - d) C(n - k, d) combinations lie at
      distance d: k - d of its numbers kept and d of the other n - k chosen. */
  lemma MatchSetSize(n: nat, k: nat, draw: seq<int>, d: int)
    requires k <= n && IsCombo(draw, n, k) && 0 <= d <= k
    ensures |MatchSet(n, k, draw, d)| == Choose(k, k - d) * Choose(n - k, d)
  {
    MatchSetIsHitSet(n, k, draw, d);
    ComboHitCount(n, k, draw, k - d);
    HitFormulaKept(k, n - k, d);
  }

  lemma HitFormulaKept(k: nat, rest: nat, d: nat)
    requires d <= k
    ensures HitFormula(k, rest, k, k - d) == Choose(k, k - d) * Choose(rest, d)
  {
  }

  /** Within the universe, distance d from a draw means exactly k - d shared numbers. */
  lemma MatchSetIsHitSet(n: nat, k: nat, draw: seq<int>, d: int)
    ensures MatchSet(n, k, draw, d) == HitSet(Universe(n, k), Elems(draw), k - d)
  {
    MatchesInMembers(Universe(n, k), k, draw, d);
    forall c | c in Universe(n, k)
      ensures Distance(k, draw, c) == k - Hits(c, Elems(draw))
    {
      UniverseMember(n, k, c);
      DistanceHits(k, draw, c);
    }
  }

  lemma UniverseMember(n: nat, k: nat, c: seq<int>)
    requires c in Universe(n, k)
    ensures Increasing(c)
  {
    UniverseSpec(n, k);
  }

  /** The distance counts the numbers of c the draw does not share. */
  lemma DistanceHits(k: nat, draw: seq<int>, c: seq<int>)
    requires Increasing(c)
    ensures Distance(k, draw, c) == k - Hits(c, Elems(draw))
  {
    HitsCard(c, Elems(draw));
    assert Elems(c) * Elems(draw) == Elems(draw) * Elems(c);
  }

  // ---------------------------------------------------------------- the remaining pool

  /** The entries of cs that are not in elim, in the order of cs. */
  function Unlisted(cs: seq<seq<int>>, elim: set<seq<int>>): seq<seq<int>>
  {
    if |cs| == 0 then []
    else Unlisted(cs[..|cs| - 1], elim) + (if cs[|cs| - 1] in elim then [] else [cs[|cs| - 1]])
  }

  /** The filter consults elim only about the entries of cs. */
  lemma {:induction false} UnlistedAgree(cs: seq<seq<int>>, e1: set<seq<int>>, e2: set<seq<int>>)
    requires forall c :: c in cs ==> (c in e1 <==> c in e2)
    ensures Unlisted(cs, e1) == Unlisted(cs, e2)
  {
    if |cs| > 0 {
      UnlistedAgree(cs[..|cs| - 1], e1, e2);
    }
  }

  lemma {:induction false} UnlistedAppend(a: seq<seq<int>>, b: seq<seq<int>>, elim: set<seq<int>>)
    ensures Unlisted(a + b, elim) == Unlisted(a, elim) + Unlisted(b, elim)
    decreases |b|
  {
    if |b| == 0 {
      assert a + b == a;
    } else {
      var b' := b[..|b| - 1];
      assert (a + b)[..|a + b| - 1] == a + b';
      UnlistedAppend(a, b', elim);
    }
  }

  /** Filtering keeps exactly the entries outside elim and adds none. */
  lemma {:induction false} UnlistedMembers(cs: seq<seq<int>>, elim: set<seq<int>>)
    ensures forall c :: c in Unlisted(cs, elim) <==> c in cs && c !in elim
    decreases |cs|
  {
    if |cs| > 0 {
      var cs' := cs[..|cs| - 1];
      UnlistedMembers(cs', elim);
      assert cs == cs' + [cs[|cs| - 1]];
    }
  }

  /** In a list without repetitions, the entries outside elim number the list's
      length less the entries inside elim. */
  lemma {:induction false} UnlistedCount(cs: seq<seq<int>>, elim: set<seq<int>>)
    requires forall i, j :: 0 <= i < j < |cs| ==> cs[i] != cs[j]
    ensures |Unlisted(cs, elim)| == |cs| - |SeqSet(cs) * elim|
    decreases |cs|
  {
    if |cs| > 0 {
      var last := cs[|cs| - 1];
      var cs' := cs[..|cs| - 1];
      UnlistedCount(cs', elim);
      LastIsNew(cs);
      SeqSetSnoc(cs);
      var before := SeqSet(cs') * elim;
      if last in elim {
        assert SeqSet(cs) * elim == before + {last};
      } else {
        assert SeqSet(cs) * elim == before;
      }
    }
  }

  /** The entries of a list, as a set. */
  function SeqSet(cs: seq<seq<int>>): set<seq<int>>
  {
    set c | c in cs
  }

  lemma SeqSetSnoc(cs: seq<seq<int>>)
    requires |cs| > 0
    ensures SeqSet(cs) == SeqSet(cs[..|cs| - 1]) + {cs[|cs| - 1]}
  {
    assert cs == cs[..|cs| - 1] + [cs[|cs| - 1]];
  }

  lemma LastIsNew(cs: seq<seq<int>>)
    requires |cs| > 0
    requires forall i, j :: 0 <= i < j < |cs| ==> cs[i] != cs[j]
    ensures cs[|cs| - 1] !in cs[..|cs| - 1]
  {
    var cs' := cs[..|cs| - 1];
    forall j | 0 <= j < |cs'| ensures cs'[j] != cs[|cs| - 1] {
      assert cs'[j] == cs[j];
    }
  }

  /** The remaining pool of the k-of-n universe once elim is removed, in the order
      itertools.combinations lists it. */
  function RemainingPool(n: nat, k: nat, elim: set<seq<int>>): seq<seq<int>>
  {
    Unlisted(Universe(n, k), elim)
  }

  /** The pool holds every combination not eliminated, each once, in lexicographic
      order, and has C(n, k) - |elim| entries when everything eliminated is a
      combination of the universe. */
  lemma RemainingPoolSpec(n: nat, k: nat, elim: set<seq<int>>)
    requires forall c :: c in elim ==> c in Universe(n, k)
    ensures forall c :: c in RemainingPool(n, k, elim) <==> IsCombo(c, n, k) && c !in elim
    ensures |RemainingPool(n, k, elim)| == Choose(n, k) - |elim|
    ensures LexSorted(RemainingPool(n, k, elim))
  {
    var u := Universe(n, k);
    UniverseSpec(n, k);
    UnlistedMembers(u, elim);
    UnlistedCount(u, elim);
    assert SeqSet(u) * elim == elim;
    UnlistedSorted(u, elim);
  }

  lemma {:induction false} UnlistedSorted(cs: seq<seq<int>>, elim: set<seq<int>>)
    requires LexSorted(cs)
    ensures LexSorted(Unlisted(cs, elim))
    decreases |cs|
  {
    if |cs| > 0 {
      var cs' := cs[..|cs| - 1];
      var last := cs[|cs| - 1];
      assert LexSorted(cs');
      UnlistedSorted(cs', elim);
      UnlistedMembers(cs', elim);
      var r := Unlisted(cs', elim);
      if last !in elim {
        forall i | 0 <= i < |r| ensures LexLess(r[i], last) {
          assert r[i] in cs';
          var j :| 0 <= j < |cs'| && cs'[j] == r[i];
          assert cs[j] == r[i];
        }
      }
    }
  }

  /** SampleSize(count, m): how many entries the sampling loop returns from a pool of
      m. It appends before it compares with count, so a count of zero or less still
      yields one entry. */
  function SampleSize(count: int, m: nat): (s: nat)
    ensures s <= m
    ensures m > 0 ==> s >= 1
    ensures count < 1 ==> s == if m > 0 then 1 else 0
    ensures count >= 1 ==> s == if count <= m then count else m
  {
    var want := if count < 1 then 1 else count;
    if want <= m then want else m
  }

  /** Which loaded draws eliminate_from_draws works through: all of them, or
      draws[-m:] as Python slices it. */
  function SelectDraws(draws: seq<seq<int>>, specific: Option<int>): (r: seq<seq<int>>)
    ensures specific.None? ==> r == draws
    ensures specific.Some? && specific.value > 0 ==>
              r == draws[|draws| - (if specific.value <= |draws| then specific.value else |draws|)..]
    ensures specific == Some(0) ==> r == draws
    ensures specific.Some? && specific.value < 0 ==>
              r == draws[(if -specific.value <= |draws| then -specific.value else |draws|)..]
  {
    if specific.None? then draws
    else draws[PySliceStart(-specific.value, |draws|)..]
  }

  /** The start index Python uses for lst[s:] with a list of the given length. */
  function PySliceStart(s: int, len: nat): (i: nat)
    ensures i <= len
  {
    if s < 0 then (if s + len < 0 then 0 else s + len)
    else if s > len then len else s
  }

  /** Everything a series of eliminations at one distance removes. */
  ghost function MatchUnion(n: nat, k: nat, draws: seq<seq<int>>, distance: int): set<seq<int>>
  {
    if |draws| == 0 then {}
    else MatchUnion(n, k, draws[..|draws| - 1], distance) + MatchSet(n, k, draws[|draws| - 1], distance)
  }

  /** What the j-th of a series of draws newly eliminates, starting from the set
      start: its matches outside start and the matches of the draws before it. */
  ghost function NewCount(n: nat, k: nat, start: set<seq<int>>, draws: seq<seq<int>>, j: nat, distance: int): nat
    requires j < |draws|
  {
    |MatchSet(n, k, draws[j], distance) - (start + MatchUnion(n, k, draws[..j], distance))|
  }

  lemma CountIsNew(n: nat, k: nat, start: set<seq<int>>, draws: seq<seq<int>>, j: nat, distance: int,
                   before: set<seq<int>>, c: int)
    requires j < |draws| && before == start + MatchUnion(n, k, draws[..j], distance)
    requires c == |MatchSet(n, k, draws[j], distance) - before|
    ensures c == NewCount(n, k, start, draws, j, distance)
  {
  }

  lemma CountsSnoc(n: nat, k: nat, start: set<seq<int>>, draws: seq<seq<int>>, counts: seq<nat>,
                   distance: int, c: nat)
    requires |counts| < |draws|
    requires forall t :: 0 <= t < |counts| ==> counts[t] == NewCount(n, k, start, draws, t, distance)
    requires c == NewCount(n, k, start, draws, |counts|, distance)
    ensures forall t :: 0 <= t < |counts| + 1 ==> (counts + [c])[t] == NewCount(n, k, start, draws, t, distance)
  {
  }

  lemma DrawsStep(n: nat, k: nat, draws: seq<seq<int>>, j: nat, distance: int)
    requires j < |draws|
    ensures MatchUnion(n, k, draws[..j + 1], distance)
         == MatchUnion(n, k, draws[..j], distance) + MatchSet(n, k, draws[j], distance)
  {
    assert draws[..j + 1][..j] == draws[..j];
  }

  /** One round of eliminate_from_draws: eliminating around the j-th draw extends the
      union by its matches and records what it newly eliminated. */
  lemma FromDrawsStep(n: nat, k: nat, start: set<seq<int>>, draws: seq<seq<int>>, j: nat, distance: int,
                      before: set<seq<int>>, after: set<seq<int>>, counts: seq<nat>, c: nat)
    requires j < |draws| && |counts| == j
    requires before == start + MatchUnion(n, k, draws[..j], distance)
    requires after == before + MatchSet(n, k, draws[j], distance)
    requires c == |MatchSet(n, k, draws[j], distance) - before|
    requires forall t :: 0 <= t < j ==> counts[t] == NewCount(n, k, start, draws, t, distance)
    ensures after == start + MatchUnion(n, k, draws[..j + 1], distance)
    ensures forall t :: 0 <= t < j + 1 ==> (counts + [c])[t] == NewCount(n, k, start, draws, t, distance)
  {
    DrawsStep(n, k, draws, j, distance);
    CountIsNew(n, k, start, draws, j, distance, before, c);
    CountsSnoc(n, k, start, draws, counts, distance, c);
  }

  // ---------------------------------------------------------------- reading the draw file

  /** The sorted numbers load_draws takes from one line of the draw file: None for a
      blank line, a comment, a line without ':' or one whose count of all-digit
      fields is not max_play. */
  function ParseDrawLine(raw: string, maxPlay: int): (r: Option<seq<int>>)
    ensures r.Some? ==> |r.value| == maxPlay && Ascending(r.value)
  {
    var line := Strip(raw);
    if |line| == 0 || StartsWith(line, "#") || ':' !in line then None
    else
      var numbers := DigitTokens(Split(NumberField(line), ','));
      if |numbers| == maxPlay then Some(Sort(numbers)) else None
  }

  /** The parsing load_draws does per line, as a method over the collecting loop. */
  method ParseLine(raw: string, maxPlay: int) returns (r: Option<seq<int>>)
    ensures r == ParseDrawLine(raw, maxPlay)
  {
    var line := Strip(raw);
    if |line| == 0 || StartsWith(line, "#") || ':' !in line {
      return None;
    }
    var numbers := CollectNumbers(Split(NumberField(line), ','));
    if |numbers| == maxPlay {
      return Some(Sort(numbers));
    }
    return None;
  }

  /** The draws of a file: the lines that parse, in file order. */
  function LoadedDraws(lines: seq<string>, maxPlay: int): (ds: seq<seq<int>>)
    ensures |ds| <= |lines|
    ensures forall i :: 0 <= i < |ds| ==> |ds[i]| == maxPlay && Ascending(ds[i])
  {
    if |lines| == 0 then []
    else
      var p := ParseDrawLine(lines[|lines| - 1], maxPlay);
      LoadedDraws(lines[..|lines| - 1], maxPlay) + (if p.Some? then [p.value] else [])
  }

  lemma LoadedDrawsStep(lines: seq<string>, i: nat, maxPlay: int)
    requires i < |lines|
    ensures var p := ParseDrawLine(lines[i], maxPlay);
            LoadedDraws(lines[..i + 1], maxPlay) == LoadedDraws(lines[..i], maxPlay) + (if p.Some? then [p.value] else [])
  {
    assert lines[..i + 1][..i] == lines[..i];
  }

  /** What a union adds to a set is what it had beyond the set's own elements. */
  lemma GrowthCount(a: set<seq<int>>, b: set<seq<int>>)
    ensures |b - a| == |a + b| - |a|
  {
    assert a + b == a + (b - a);
    assert a * (b - a) == {};
  }

  // ---------------------------------------------------------------- the eliminator

  /** What save_remaining writes: the text layout with its four header lines, or the
      binary layout of max_play bytes per combination. */
  datatype SavedFile = TextFile(lines: seq<string>) | BinaryFile(bytes: seq<Byte>)

  /** The statistics print_statistics reports, without the floating-point percentage. */
  datatype Statistics = Statistics(total: nat, eliminatedCount: nat, remainingCount: int, drawsLoaded: nat)

  /** One step of the elimination walk: x is added when it is a hit and not yet in e. */
  lemma AddStep(e: set<seq<int>>, s: set<seq<int>>, m: set<seq<int>>, x: seq<int>, hit: bool)
    requires e == s + m
    ensures var m' := m + (if hit then {x} else {});
            && (x in e || !hit ==> e == s + m')
            && (x !in e && hit ==> e + {x} == s + m' && |e + {x}| == |e| + 1)
  {
  }

  /** Once the walk has covered the whole universe, its set and count are those of
      one elimination. */
  lemma EliminationDone(n: nat, k: nat, draw: seq<int>, distance: int,
                        start: set<seq<int>>, e: set<seq<int>>, count: int)
    requires e == start + MatchesIn(Universe(n, k)[..|Universe(n, k)|], k, draw, distance)
    requires count + |start| == |e|
    requires forall c :: c in start ==> c in Universe(n, k)
    ensures e == start + MatchSet(n, k, draw, distance)
    ensures count == |MatchSet(n, k, draw, distance) - start|
    ensures forall c :: c in e ==> c in Universe(n, k)
  {
    assert Universe(n, k)[..|Universe(n, k)|] == Universe(n, k);
    GrowthCount(start, MatchSet(n, k, draw, distance));
    MatchSetCombos(n, k, draw, distance);
  }

  lemma UnlistedStep(cs: seq<seq<int>>, i: nat, elim: set<seq<int>>)
    requires i < |cs|
    ensures Unlisted(cs[..i + 1], elim) == Unlisted(cs[..i], elim) + (if cs[i] in elim then [] else [cs[i]])
  {
    assert cs[..i + 1][..i] == cs[..i];
  }

  /** A filtered prefix of the wanted length is the start of the whole filtered list. */
  lemma SamplePrefix(cs: seq<seq<int>>, j: nat, elim: set<seq<int>>)
    requires j <= |cs|
    ensures var p := Unlisted(cs[..j], elim);
            |p| <= |Unlisted(cs, elim)| && Unlisted(cs, elim)[..|p|] == p
  {
    UnlistedAppend(cs[..j], cs[j..], elim);
    assert cs[..j] + cs[j..] == cs;
  }

  /** No combination comes twice in the universe's listing. */
  lemma UniverseFresh(n: nat, k: nat, i: nat)
    requires i < |Universe(n, k)|
    ensures Universe(n, k)[i] !in Universe(n, k)[..i]
  {
    UniverseSpec(n, k);
    var u := Universe(n, k);
    forall j | 0 <= j < i ensures u[..i][j] != u[i] {
      assert u[..i][j] == u[j];
    }
  }

  lemma SeqSetAppend(cs: seq<seq<int>>, x: seq<int>)
    ensures SeqSet(cs + [x]) == SeqSet(cs) + {x}
  {
    SeqSetSnoc(cs + [x]);
    assert (cs + [x])[..|cs|] == cs;
  }

  /** The walk of eliminate_by_distance_efficient over the universe: hits not yet
      eliminated are collected in a batch that is merged into the eliminated set
      whenever it holds batchSize entries, and once more at the end. */
  method BatchedWalk(n: nat, k: nat, draw: seq<int>, distance: int, start: set<seq<int>>, batchSize: int)
    returns (elim: set<seq<int>>, count: nat)
    ensures elim == start + MatchesIn(Universe(n, k)[..|Universe(n, k)|], k, draw, distance)
    ensures count + |start| == |elim|
  {
    var all := Universe(n, k);
    elim := start;
    ghost var matched: set<seq<int>> := {};
    count := 0;
    var batch: seq<seq<int>> := [];
    FlushStep(elim, {});
    var i := 0;
    while i < |all|
      invariant 0 <= i <= |all|
      invariant matched == MatchesIn(all[..i], k, draw, distance)
      invariant BatchState(elim, batch, start, matched, count)
    {
      var combo := all[i];
      var hit := Distance(k, draw, combo) == distance;
      NotYetMatched(n, k, i, draw, distance);
      MatchesInStep(all, i, k, draw, distance);
      elim, batch, count := BatchVisit(combo, hit, elim, batch, start, matched, count, batchSize);
      matched := matched + (if hit then {combo} else {});
      i := i + 1;
    }
    BatchFlush(elim, batch, start, matched, count);
    if |batch| > 0 {
      elim := elim + SeqSet(batch);
      batch := [];
    }
  }

  /** One combination of the walk: a hit not yet eliminated joins the batch, and a
      full batch is merged into the eliminated set. */
  method BatchVisit(combo: seq<int>, hit: bool, elim: set<seq<int>>, batch: seq<seq<int>>,
                    ghost start: set<seq<int>>, ghost matched: set<seq<int>>, count: nat, batchSize: int)
    returns (elim2: set<seq<int>>, batch2: seq<seq<int>>, count2: nat)
    requires BatchState(elim, batch, start, matched, count) && combo !in matched
    ensures BatchState(elim2, batch2, start, matched + (if hit then {combo} else {}), count2)
  {
    elim2, batch2, count2 := elim, batch, count;
    if combo !in elim && hit {
      BatchAdd(elim, batch, start, matched, count, combo);
      batch2 := batch + [combo];
      count2 := count + 1;
      if |batch2| >= batchSize {
        BatchFlush(elim, batch2, start, matched + {combo}, count2);
        elim2 := elim + SeqSet(batch2);
        batch2 := [];
      }
    } else {
      BatchSkip(elim, batch, start, matched, count, combo, hit);
    }
  }

  /** The state of the batched walk: what is eliminated together with the pending
      batch is the start set plus the hits so far, the batch holds new hits only, and
      the count is the number of new hits. */
  ghost predicate BatchState(e: set<seq<int>>, batch: seq<seq<int>>, s: set<seq<int>>,
                             m: set<seq<int>>, count: int)
  {
    && e + SeqSet(batch) == s + m
    && e !! SeqSet(batch) && SeqSet(batch) <= m
    && count + |s| == |e| + |SeqSet(batch)|
  }

  /** A hit not yet eliminated joins the batch and the count. */
  lemma BatchAdd(e: set<seq<int>>, batch: seq<seq<int>>, s: set<seq<int>>, m: set<seq<int>>,
                 count: int, x: seq<int>)
    requires BatchState(e, batch, s, m, count) && x !in m && x !in e
    ensures BatchState(e, batch + [x], s, m + {x}, count + 1)
  {
    SeqSetAppend(batch, x);
  }

  /** A combination already eliminated, or not a hit, changes nothing but the hits. */
  lemma BatchSkip(e: set<seq<int>>, batch: seq<seq<int>>, s: set<seq<int>>, m: set<seq<int>>,
                  count: int, x: seq<int>, hit: bool)
    requires BatchState(e, batch, s, m, count) && x !in m && (x in e || !hit)
    ensures BatchState(e, batch, s, m + (if hit then {x} else {}), count)
  {
  }

  /** Merging the batch into the eliminated set keeps the union and the count. */
  lemma BatchFlush(e: set<seq<int>>, batch: seq<seq<int>>, s: set<seq<int>>, m: set<seq<int>>,
                   count: int)
    requires BatchState(e, batch, s, m, count)
    ensures BatchState(e + SeqSet(batch), [], s, m, count)
    ensures e + SeqSet(batch) == s + m && count + |s| == |e + SeqSet(batch)|
  {
    FlushStep(e, SeqSet(batch));
  }

  lemma FlushStep(e: set<seq<int>>, b: set<seq<int>>)
    requires e !! b
    ensures |e + b| == |e| + |b| && SeqSet([]) == {}
  {
    assert e * b == {};
  }

  /** The walk meets each combination of the universe once, so none is matched
      before its turn. */
  lemma NotYetMatched(n: nat, k: nat, i: nat, draw: seq<int>, distance: int)
    requires i < |Universe(n, k)|
    ensures Universe(n, k)[i] !in MatchesIn(Universe(n, k)[..i], k, draw, distance)
  {
    UniverseFresh(n, k, i);
    MatchesInMembers(Universe(n, k)[..i], k, draw, distance);
  }

  /** The lines save_remaining writes in text format, one per combination. */
  function ComboLines(cs: seq<seq<int>>): (ls: seq<string>)
    ensures |ls| == |cs|
  {
    seq(|cs|, i requires 0 <= i < |cs| => FormatNumbers(cs[i]))
  }

  /** The four comment lines that open a saved text file: title, count in thousands
      notation, the generation time (datetime.now(), given as a parameter) and a
      bare '#'. */
  function SaveHeader(count: nat, timestamp: string): seq<string>
  {
    ["# Remaining Combinations after Distance Elimination",
     "# Total: " + Thousands(count),
     "# Generated: " + timestamp,
     "#"]
  }

  /** The bytes save_remaining writes in binary format: each combination's
      var_to_bin encoding, one after another. */
  function EncodeCombos(cs: seq<seq<int>>): seq<Byte>
  {
    Flatten(seq(|cs|, i requires 0 <= i < |cs| => VarToBin(cs[i])))
  }

  lemma EncodeCombosStep(cs: seq<seq<int>>, j: nat)
    requires j < |cs|
    ensures EncodeCombos(cs[..j + 1]) == EncodeCombos(cs[..j]) + VarToBin(cs[j])
  {
    var a := seq(j, i requires 0 <= i < j => VarToBin(cs[i]));
    assert seq(j + 1, i requires 0 <= i < j + 1 => VarToBin(cs[..j + 1][i])) == a + [VarToBin(cs[j])];
    assert seq(j, i requires 0 <= i < j => VarToBin(cs[..j][i])) == a;
    FlattenAppend(a, [VarToBin(cs[j])]);
    assert Flatten([VarToBin(cs[j])]) == VarToBin(cs[j]) + Flatten([]);
  }

  lemma ComboLinesStep(cs: seq<seq<int>>, j: nat)
    requires j < |cs|
    ensures ComboLines(cs[..j + 1]) == ComboLines(cs[..j]) + [FormatNumbers(cs[j])]
  {
  }

  /** The walk save_remaining makes over the universe, keeping every combination
      not in the eliminated set, in order. */
  method CollectUnlisted(all: seq<seq<int>>, elim: set<seq<int>>) returns (remaining: seq<seq<int>>)
    ensures remaining == Unlisted(all, elim)
  {
    remaining := [];
    var i := 0;
    while i < |all|
      invariant 0 <= i <= |all|
      invariant remaining == Unlisted(all[..i], elim)
    {
      UnlistedStep(all, i, elim);
      if all[i] !in elim {
        remaining := remaining + [all[i]];
      }
      i := i + 1;
    }
    TakeAll(all);
  }

  /** The binary branch of save_remaining: var_to_bin of each combination, written
      one after another. */
  method EncodeAll(cs: seq<seq<int>>) returns (bytes: seq<Byte>)
    ensures bytes == EncodeCombos(cs)
  {
    bytes := [];
    var j := 0;
    while j < |cs|
      invariant 0 <= j <= |cs|
      invariant bytes == EncodeCombos(cs[..j])
    {
      EncodeCombosStep(cs, j);
      bytes := bytes + VarToBin(cs[j]);
      j := j + 1;
    }
    TakeAll(cs);
  }

  /** The text branch of save_remaining: after the header, one formatted line per
      combination. */
  method AppendComboLines(header: seq<string>, cs: seq<seq<int>>) returns (lines: seq<string>)
    ensures lines == header + ComboLines(cs)
  {
    lines := header;
    SeqUnit(header);
    var j := 0;
    while j < |cs|
      invariant 0 <= j <= |cs|
      invariant lines == header + ComboLines(cs[..j])
    {
      ComboLinesStep(cs, j);
      SeqAssoc(header, ComboLines(cs[..j]), [FormatNumbers(cs[j])]);
      lines := lines + [FormatNumbers(cs[j])];
      j := j + 1;
    }
    TakeAll(cs);
  }

  /** Reading a saved binary file back record by record, with bin_to_var, gives the
      saved combinations in order, as long as every number fits in a byte. */
  lemma EncodeCombosDecode(cs: seq<seq<int>>, k: nat)
    requires k > 0
    requires forall i :: 0 <= i < |cs| ==> |cs[i]| == k
    requires forall i, j :: 0 <= i < |cs| && 0 <= j < |cs[i]| ==> 0 <= cs[i][j] < 256
    ensures var rs := Records(EncodeCombos(cs), k);
            |rs| == |cs| && forall i :: 0 <= i < |cs| ==> BinToVar(rs[i], k) == cs[i]
  {
    var enc := seq(|cs|, i requires 0 <= i < |cs| => VarToBin(cs[i]));
    RecordsFlatten(enc, k);
    forall i | 0 <= i < |cs| ensures BinToVar(enc[i], k) == cs[i] {
      BinToVarToBin(cs[i]);
    }
  }

  /** Reading a saved text line back as the draw loaders do (split on ',', keep the
      all-digit parts) gives the combination it was written from. */
  lemma ComboLinesParse(cs: seq<seq<int>>)
    requires forall i, j :: 0 <= i < |cs| && 0 <= j < |cs[i]| ==> cs[i][j] >= 0
    ensures forall i :: 0 <= i < |cs| ==> DigitTokens(Split(ComboLines(cs)[i], ',')) == cs[i]
  {
    forall i | 0 <= i < |cs| ensures DigitTokens(Split(ComboLines(cs)[i], ',')) == cs[i] {
      var ns: seq<nat> := cs[i];
      FormatNumbersParse(ns, "");
      assert "" + FormatNumbers(ns) == ComboLines(cs)[i];
    }
  }

  /** Every entry of the remaining pool has max_play numbers, each in [1, max_num]. */
  lemma PoolNumbers(n: nat, k: nat, elim: set<seq<int>>)
    requires forall c :: c in elim ==> c in Universe(n, k)
    ensures var pool := RemainingPool(n, k, elim);
            && (forall i :: 0 <= i < |pool| ==> |pool[i]| == k)
            && forall i, j :: 0 <= i < |pool| && 0 <= j < |pool[i]| ==> 1 <= pool[i][j] <= n
  {
    var pool := RemainingPool(n, k, elim);
    RemainingPoolSpec(n, k, elim);
    forall i | 0 <= i < |pool| ensures IsCombo(pool[i], n, k) {
      assert pool[i] in pool;
    }
  }

  /** Behind a header of four lines, the lines read back as the combinations. */
  lemma HeaderedLinesParse(header: seq<string>, cs: seq<seq<int>>)
    requires |header| == 4
    requires forall i, j :: 0 <= i < |cs| && 0 <= j < |cs[i]| ==> cs[i][j] >= 0
    ensures var body := (header + ComboLines(cs))[4..];
            |body| == |cs| && forall i :: 0 <= i < |cs| ==> DigitTokens(Split(body[i], ',')) == cs[i]
  {
    ComboLinesParse(cs);
    assert (header + ComboLines(cs))[4..] == ComboLines(cs);
  }

  class DistanceEliminator {
    const maxNum: nat
    const maxPlay: nat
    const totalCombinations: nat
    var eliminated: set<seq<int>>
    var draws: seq<seq<int>>

    /** Everything eliminated is a combination of the k-of-n universe (IsCombo, by
        UniverseSpec), and the total is the size of that universe. */
    ghost predicate Valid()
      reads this
    {
      && maxPlay <= maxNum
      && totalCombinations == Choose(maxNum, maxPlay)
      && forall c :: c in eliminated ==> c in Universe(maxNum, maxPlay)
    }

    /** The combinations not eliminated yet, in the order the universe lists them. */
    function Remaining(): seq<seq<int>>
      reads this
    {
      RemainingPool(maxNum, maxPlay, eliminated)
    }

    /** DistanceEliminator(max_num, max_play) when the factorials are defined. */
    constructor (n: nat, k: nat)
      requires k <= n
      ensures Valid()
      ensures maxNum == n && maxPlay == k && totalCombinations == Choose(n, k)
      ensures eliminated == {} && draws == []
    {
      maxNum, maxPlay := n, k;
      var total := TotalCombinations(n, k);
      totalCombinations := total.value;
      eliminated, draws := {}, [];
    }

    /** DistanceEliminator(max_num, max_play) for any arguments: math.factorial raises
        ValueError on a negative argument, so a negative max_num or max_play, or
        max_play above max_num, builds nothing (null). */
    static method Create(n: int, k: int) returns (e: DistanceEliminator?)
      ensures e == null <==> TotalCombinations(n, k).None?
      ensures e != null ==> fresh(e) && e.Valid() && e.maxNum == n && e.maxPlay == k
                            && e.eliminated == {} && e.draws == []
    {
      if TotalCombinations(n, k).None? {
        e := null;
      } else {
        e := new DistanceEliminator(n, k);
      }
    }

    /** eliminate_by_distance(draw, distance): walks the universe; every combination
        not yet eliminated and at the given distance from draw is eliminated and
        counted. */
    method EliminateByDistance(draw: seq<int>, distance: int) returns (count: nat)
      requires Valid()
      modifies this
      ensures Valid() && draws == old(draws)
      ensures eliminated == old(eliminated) + MatchSet(maxNum, maxPlay, draw, distance)
      ensures count == |MatchSet(maxNum, maxPlay, draw, distance) - old(eliminated)|
    {
      var all := Universe(maxNum, maxPlay);
      ghost var start := eliminated;
      count := 0;
      var i := 0;
      while i < |all|
        invariant 0 <= i <= |all|
        invariant eliminated == start + MatchesIn(all[..i], maxPlay, draw, distance)
        invariant count + |start| == |eliminated|
        invariant draws == old(draws)
      {
        var combo := all[i];
        MatchesInStep(all, i, maxPlay, draw, distance);
        AddStep(eliminated, start, MatchesIn(all[..i], maxPlay, draw, distance),
                combo, Distance(maxPlay, draw, combo) == distance);
        if combo !in eliminated {
          if Distance(maxPlay, draw, combo) == distance {
            eliminated := eliminated + {combo};
            count := count + 1;
          }
        }
        i := i + 1;
      }
      EliminationDone(maxNum, maxPlay, draw, distance, start, eliminated, count);
    }

    /** eliminate_by_distance_efficient(draw, distance, batch_size): the same walk, but
        hits are first collected in a batch that is merged into the eliminated set
        whenever it holds batch_size entries, and once more at the end. Whatever the
        batch size, the outcome is that of EliminateByDistance. */
    method EliminateByDistanceEfficient(draw: seq<int>, distance: int, batchSize: int) returns (count: nat)
      requires Valid()
      modifies this
      ensures Valid() && draws == old(draws)
      ensures eliminated == old(eliminated) + MatchSet(maxNum, maxPlay, draw, distance)
      ensures count == |MatchSet(maxNum, maxPlay, draw, distance) - old(eliminated)|
    {
      ghost var start := eliminated;
      var elim;
      elim, count := BatchedWalk(maxNum, maxPlay, draw, distance, eliminated, batchSize);
      eliminated := elim;
      EliminationDone(maxNum, maxPlay, draw, distance, start, eliminated, count);
    }

    /** eliminate_from_draws(max_distance, specific_draws): eliminates around every
        loaded draw, or around the last specific_draws of them, in file order; counts[j]
        is what the j-th processed draw newly eliminated. With no draws loaded nothing
        happens. */
    method EliminateFromDraws(distance: int, specific: Option<int>) returns (counts: seq<nat>)
      requires Valid()
      modifies this
      ensures Valid() && draws == old(draws)
      ensures var sel := SelectDraws(draws, specific);
              && eliminated == old(eliminated) + MatchUnion(maxNum, maxPlay, sel, distance)
              && |counts| == |sel|
              && forall j :: 0 <= j < |sel| ==> counts[j] == NewCount(maxNum, maxPlay, old(eliminated), sel, j, distance)
    {
      counts := [];
      var sel := SelectDraws(draws, specific);
      ghost var start := eliminated;
      if |draws| == 0 {
        return;
      }
      var j := 0;
      while j < |sel|
        invariant 0 <= j <= |sel|
        invariant Valid() && draws == old(draws)
        invariant eliminated == start + MatchUnion(maxNum, maxPlay, sel[..j], distance)
        invariant |counts| == j
        invariant forall t :: 0 <= t < j ==> counts[t] == NewCount(maxNum, maxPlay, start, sel, t, distance)
      {
        ghost var before := eliminated;
        var c := EliminateByDistance(sel[j], distance);
        FromDrawsStep(maxNum, maxPlay, start, sel, j, distance, before, eliminated, counts, c);
        counts := counts + [c];
        j := j + 1;
      }
      TakeAll(sel);
    }

    /** load_draws(filename), with the file given as its lines, or None when it does
        not exist: the draws are cleared first and then hold every line that parses,
        in file order; a missing file reports False. */
    method LoadDraws(file: Option<seq<string>>) returns (ok: bool)
      modifies this
      ensures eliminated == old(eliminated)
      ensures ok <==> file.Some?
      ensures draws == if file.Some? then LoadedDraws(file.value, maxPlay) else []
    {
      draws := [];
      if file.None? {
        return false;
      }
      var lines := file.value;
      var i := 0;
      while i < |lines|
        invariant 0 <= i <= |lines|
        invariant eliminated == old(eliminated)
        invariant draws == LoadedDraws(lines[..i], maxPlay)
      {
        LoadedDrawsStep(lines, i, maxPlay);
        var parsed := ParseLine(lines[i], maxPlay);
        if parsed.Some? {
          draws := draws + [parsed.value];
        }
        i := i + 1;
      }
      TakeAll(lines);
      return true;
    }

    /** The figures print_statistics reports (the percentage aside). */
    function Stats(): Statistics
      reads this
    {
      Statistics(totalCombinations, |eliminated|, totalCombinations - |eliminated|, |draws|)
    }

    /** The remaining count print_statistics reports is the size of the remaining pool,
        and the eliminated and remaining counts add up to the universe. */
    lemma StatsRemaining()
      requires Valid()
      ensures Stats().remainingCount == |Remaining()|
      ensures Stats().eliminatedCount + |Remaining()| == Choose(maxNum, maxPlay)
    {
      RemainingPoolSpec(maxNum, maxPlay, eliminated);
    }

    /** save_remaining(filename, format): the remaining pool, written as max_play bytes
        per combination when the format is "binary", and otherwise as the four header
        lines followed by one formatted line per combination. */
    method SaveRemaining(format: string, timestamp: string) returns (file: SavedFile)
      ensures var rem := Remaining();
              file == if format == "binary" then BinaryFile(EncodeCombos(rem))
                      else TextFile(SaveHeader(|rem|, timestamp) + ComboLines(rem))
    {
      var remaining := CollectUnlisted(Universe(maxNum, maxPlay), eliminated);
      if format == "binary" {
        var bytes := EncodeAll(remaining);
        file := BinaryFile(bytes);
      } else {
        var lines := AppendComboLines(SaveHeader(|remaining|, timestamp), remaining);
        file := TextFile(lines);
      }
    }

    /** A saved binary file, read back max_play bytes at a time, holds exactly the
        remaining pool, provided the numbers fit in a byte and max_play is positive. */
    lemma SavedBinaryReadsBack()
      requires Valid() && maxPlay > 0 && maxNum < 256
      ensures var rs := Records(EncodeCombos(Remaining()), maxPlay);
              |rs| == |Remaining()|
              && forall i :: 0 <= i < |rs| ==> BinToVar(rs[i], maxPlay) == Remaining()[i]
    {
      PoolNumbers(maxNum, maxPlay, eliminated);
      EncodeCombosDecode(Remaining(), maxPlay);
    }

    /** Every combination line of a saved text file reads back as its combination. */
    lemma SavedTextReadsBack(timestamp: string)
      requires Valid()
      ensures var rem := Remaining();
              var body := (SaveHeader(|rem|, timestamp) + ComboLines(rem))[4..];
              |body| == |rem| && forall i :: 0 <= i < |rem| ==> DigitTokens(Split(body[i], ',')) == rem[i]
    {
      PoolNumbers(maxNum, maxPlay, eliminated);
      HeaderedLinesParse(SaveHeader(|Remaining()|, timestamp), Remaining());
    }

    /** get_sample_remaining(count): the first remaining combinations in universe
        order; the walk appends before it compares, so it stops after count entries,
        or after one when count is below one. */
    method GetSampleRemaining(count: int) returns (sample: seq<seq<int>>)
      ensures sample == Remaining()[..SampleSize(count, |Remaining()|)]
    {
      var all := Universe(maxNum, maxPlay);
      ghost var want := if count < 1 then 1 else count;
      sample := [];
      var i := 0;
      while i < |all|
        invariant 0 <= i <= |all|
        invariant sample == Unlisted(all[..i], eliminated)
        invariant |sample| < want
      {
        UnlistedStep(all, i, eliminated);
        if all[i] !in eliminated {
          sample := sample + [all[i]];
          if |sample| >= count {
            SamplePrefix(all, i + 1, eliminated);
            return;
          }
        }
        i := i + 1;
      }
      TakeAll(all);
    }
  }
}
