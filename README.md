# Lottery toolbox: combination engine, codecs and converters in Dafny

This project models the deterministic core of a small "6/49" lottery toolbox written in
Python, and proves properties of that model. The core has five parts.

**Distance elimination.** `DistanceEliminator` walks every k-subset of {1..n} in
`itertools.combinations` order. Against one historical draw it computes
`distance = max_play - |set(a) & set(b)|`. Every combination at the requested distance
goes into the `eliminated` set. There is a plain variant and a batched variant. The
class also lists the combinations still remaining, in full or as a short sample, and
writes them as text or as packed bytes.

**4-of-6 coverage.** Each draw is expanded into its 15 four-number sub-combinations, and
these are unioned into a coverage set. The tool reports remaining and overlap counts and
samples the uncovered 4-subsets. It also samples 6-combinations that hold at least 10
uncovered 4-subsets.

**Binary records.** A number `v` is stored as the byte `(v + 32) & 0xFF` and read back as
`(b - 32) & 0xFF`. A file is a run of `max_play`-byte records, and a trailing partial
record is dropped. The trim tool removes every record or text line that contains one of
the entered numbers, one number per pass. The binary-to-text converter lists the records
as `" 6,  9, 13, ..."` lines.

**Draw-line parsers.** Three parsers read `YYMMDD:  n1, ..., n6 / bonus` lines:
`parse_txt_line` in `649CA.py`, `parse_draw_line` in `txt_to_json_converter.py`, and the
draw loaders. They produce a date, numbers, bonus, `holes` (gaps greater than 2 between
sorted neighbours) and `odd`. The format converter rewrites `"25th October 2025 n1 .. n7"`
lines into that layout.

**Line utilities.** Deduplication keeps each line's first occurrence. Whitespace cleaning
computes `' '.join(line.split())`. Folder passes apply either one to every `.txt` file.

Modelling choices:
- The combination universe is parameterised by symbolic `n` and `k`. `Combinatorics.Choices`
  is `itertools.combinations`, and `Combinatorics.Universe(n, k)` is the lexicographic walk.
- A file is a `seq<string>` of lines or a `seq<Byte>` of bytes. An unreadable or missing
  file is an `Option` that is `None`.
- Keyboard input is a sequence of entered strings. The clock is a `timestamp` parameter.
- `DistanceEliminator` is a Dafny `class` whose `eliminated` and `draws` fields its methods
  update. The loops that fill lists, sets and counters are `method`s with loop invariants,
  proved against specification functions. Pure helpers are functions.
- Python's `str` operations are modelled on ASCII: `strip`, `split`, `split()`, `join`,
  `replace`, `isdigit`, `int()`, `lower()` and `f'{n:2d}'` (module `Text`).

How the code treats dates, ranges and stray tokens, as the model follows it:
- Only `649CA.py:43` pivots the century: a `YY` below 50 gives the 2000s, any other the
  1900s. `txt_to_json_converter.py:35` always prefixes "20" and does not check that the
  year is made of digits. `ConverterPipeline.ParsersAgreeOnDrawLine` pins the difference
  down.
- No loader drops a whole draw for a number outside [1, n]:
  - `lottery_distance_eliminator.py:67-73` keeps any all-digit token without a range check;
  - `verify_4combo_strategy.py:50-52` and `txt_to_json_converter.py:52-54` drop the single
    out-of-range token, and the draw is then kept or dropped by its count of numbers.
- `read_variant_text` (`lottery_trim_tool.py:46-48`) skips tokens that are not digits
  without any message.
- The code has no rank or unrank function, no parallel workers, no cancellation signal and
  no finalized state, so the model has none.

Two consequences of the code that the model states outright:
- `lottery_trim_tool.py:183` tests `line[0].isdigit()` on the unstripped line. Every
  combination line that `save_remaining` writes with a first number below 10 starts with
  a space, so `process_text` neither counts nor copies it (`TrimTool.RenderedLineSkipped`).
- The three sampling loops append before they compare with `count`. So a `count` of 0 or
  less still yields one combination when any remains (`DistanceElimination.SampleSize`).

## Model

| member | source | states |
|---|---|---|
| ByteCodec.ToChar | lottery_distance_eliminator.py:21-22 | the byte is congruent to v + 32 modulo 256 |
| ByteCodec.UnChar | lottery_distance_eliminator.py:24-25 | the value is congruent to b - 32 modulo 256 |
| ByteCodec.UnCharToChar | lottery_distance_eliminator.py:21-25 | unchar(tochar(v)) == v for every v in [0, 255] |
| ByteCodec.ToCharUnChar | lottery_trim_tool.py:22-28 | tochar(unchar(b)) == b for every byte |
| ByteCodec.ToCharSmall | lottery_distance_eliminator.py:197 | below 224 the encoding is plain v + 32, so 1..6 becomes bytes 33..38 |
| ByteCodec.VarToBin | lottery_trim_tool.py:30-32 | var_to_bin writes exactly one byte per number |
| ByteCodec.BinToVar | lottery_trim_tool.py:34-36 | bin_to_var returns exactly max_play values |
| ByteCodec.BinToVarToBin | lottery_trim_tool.py:30-36 | decoding an encoded variant of values in [0, 255] gives it back |
| ByteCodec.VarToBinToVar | lottery_trim_tool.py:30-36 | encoding a decoded record gives the same bytes back |
| ByteCodec.Records | lottery_trim_tool.py:152-157 | every record read from a stream is exactly max_play bytes |
| ByteCodec.RecordsCover | binary_to_text_converter.py:53-58 | a stream of L bytes gives L / max_play records, which are its first max_play * (L / max_play) bytes in order |
| ByteCodec.RecordsPrefix | lottery_trim_tool.py:152-155 | the records are a prefix of the stream, and fewer than max_play bytes are left over |
| ByteCodec.RecordsFlatten | lottery_trim_tool.py:163 | writing whole records back and re-reading them gives the same records |
| ByteCodec.FlattenAppend | lottery_trim_tool.py:163 | writing two runs of records writes their bytes in order |
| ByteCodec.FlattenLength | lottery_trim_tool.py:163 | r records of m bytes write m * r bytes |
| ByteCodec.LastTwo | lottery_trim_tool.py:60 | the slice [-2:] has length min(2, len) |
| ByteCodec.IsBinaryFileSpec | lottery_trim_tool.py:56-60 | a name is binary exactly when 'b' occurs in its last two lower-cased characters |
| Combinatorics.Fact | lottery_distance_eliminator.py:37-40 | n! is at least 1 |
| Combinatorics.ChooseFact | lottery_distance_eliminator.py:35-40 | C(n, k) * (k! * (n - k)!) == n!, so n! // (k! (n-k)!) is C(n, k) |
| Combinatorics.TotalCombinations | lottery_distance_eliminator.py:35-40 | defined exactly when 0 <= k <= n (otherwise factorial raises), and then C(n, k) |
| Combinatorics.Choose49 | verify_4combo_strategy.py:21 | C(49, 4) == 211876 and C(49, 6) == 13983816 |
| Combinatorics.ChooseOne | lottery_distance_eliminator.py:35-40 | C(n, 1) == n |
| Combinatorics.ChooseAll | lottery_distance_eliminator.py:35-40 | C(n, n) == 1 |
| Combinatorics.ChooseAbove | lottery_distance_eliminator.py:35-40 | C(n, k) == 0 when k > n |
| Combinatorics.Absorb | lottery_distance_eliminator.py:35-40 | C(n, k+1) (k+1) == C(n, k) (n-k) |
| Combinatorics.Range | lottery_distance_eliminator.py:95 | range(lo, hi+1) has hi - lo + 1 elements, the i-th being lo + i |
| Combinatorics.RangeIncreasing | lottery_distance_eliminator.py:95 | range(1, n+1) is strictly increasing and holds exactly 1..n |
| Combinatorics.ChoicesLength | verify_4combo_strategy.py:26 | itertools.combinations(s, r) yields C(len(s), r) tuples |
| Combinatorics.ChoicesElems | verify_4combo_strategy.py:26 | over an increasing s, every yielded tuple is an increasing r-element selection of s |
| Combinatorics.ChoicesComplete | verify_4combo_strategy.py:26 | over an increasing s, every increasing r-element selection of s is yielded |
| Combinatorics.ChoicesSorted | verify_4combo_strategy.py:119 | over an increasing s the tuples come in strictly increasing lexicographic order |
| Combinatorics.LexSortedDistinct | verify_4combo_strategy.py:119 | a strictly lexicographically sorted list has no repeated tuple |
| Combinatorics.LexLessIrreflexive | verify_4combo_strategy.py:119 | no tuple is lexicographically below itself |
| Combinatorics.UniverseSpec | lottery_distance_eliminator.py:95 | the k-of-n walk has C(n, k) distinct entries, in lexicographic order, and holds exactly the increasing k-subsets of {1..n} |
| Combinatorics.IncreasingCard | lottery_distance_eliminator.py:44-46 | an increasing tuple has as many distinct elements as entries |
| Combinatorics.Hits | lottery_distance_eliminator.py:100 | the number of entries in the draw is at most the tuple's length |
| Combinatorics.Misses | lottery_distance_eliminator.py:100 | hits plus misses is the tuple's length |
| Combinatorics.HitsCard | lottery_distance_eliminator.py:100 | for an increasing tuple, hits is the size of the set intersection |
| Combinatorics.ChoicesHitCount | lottery_distance_eliminator.py:95-105 | among the r-element selections of s, those with m hits against d number C(a, m) C(b, r-m), where a and b are the hits and misses of s itself |
| Combinatorics.DistinctCountHits | lottery_distance_eliminator.py:95-105 | for a list without repeats, the set of m-hit tuples is as large as their count in the list |
| Combinatorics.UniverseHitCount | lottery_distance_eliminator.py:95-105 | the k-of-n combinations with m hits against d number C(a, m) C(n-a, k-m) with a = the size of d within 1..n |
| Combinatorics.ComboHitCount | lottery_distance_eliminator.py:95-105 | for a k-of-n draw, exactly C(k, m) C(n-k, k-m) combinations share m numbers with it |
| Combinatorics.Prepend | lottery_distance_eliminator.py:95 | prefixing keeps the number of tuples |
| Combinatorics.PrependIndex | lottery_distance_eliminator.py:95 | prefixing puts x in front of each tuple |
| Combinatorics.CountHitsAppend | lottery_distance_eliminator.py:95-105 | counting over two lists adds up |
| Sorting.Sort | 649CA.py:61 | sorted() returns an ascending permutation of its input |
| Sorting.InsertSpec | lottery_distance_eliminator.py:73 | inserting into an ascending list keeps it ascending and adds exactly that element |
| Sorting.AscendingUnique | lottery_distance_eliminator.py:73 | two ascending lists holding the same multiset of elements are equal, so sorted() is determined by its contract |
| Sorting.SortAscending | 649CA.py:61 | sorting an ascending list leaves it unchanged |
| DrawText.Pad2s | lottery_distance_eliminator.py:207 | one padded field per number |
| DrawText.TokenValue | verify_4combo_strategy.py:48-52 | a token yields at most one number |
| DrawText.DigitTokens | verify_4combo_strategy.py:47-49 | at most one number per comma-separated part |
| DrawText.CollectNumbers | lottery_distance_eliminator.py:66-70 | the token loop keeps exactly the stripped all-digit parts, as integers, in order |
| DrawText.InRange | verify_4combo_strategy.py:51 | the range filter never lengthens the list |
| DrawText.InRangeMembers | verify_4combo_strategy.py:50-52 | a number survives the filter exactly when it was read and lies in [lo, hi] |
| DrawText.InRangeAppend | verify_4combo_strategy.py:50-52 | the filter distributes over concatenation |
| DrawText.InRangeAll | txt_to_json_converter.py:53 | the filter changes nothing when every number is in range |
| DrawText.CollectInRange | verify_4combo_strategy.py:46-52 | the token loop keeps exactly the all-digit parts in [lo, hi], in order |
| DrawText.DigitTokensAppend | lottery_distance_eliminator.py:67-70 | token reading distributes over concatenation |
| DrawText.FormatNumbersParse | lottery_distance_eliminator.py:206-207 | a line written as width-2 numbers joined by ", " (after any blanks) reads back as the same numbers |
| DrawText.FormatNumbersParseBetween | txt_to_json_converter.py:49 | the same holds with blanks on both sides of the rendered numbers |
| DrawText.DigitTokensOfNatStrings | lottery_trim_tool.py:46-48 | the decimal strings of numbers read back as those numbers |
| DrawText.NatStrings | 649CA.py:50 | one decimal string per number |
| DrawText.SplitWsSpacedNumbers | 649CA.py:49-50 | splitting the comma-to-space rewrite of a rendered list on whitespace gives the decimal strings of its numbers |
| DrawText.FormatNumbersChars | lottery_trim_tool.py:183 | a rendered list has only digits, spaces and commas |
| DrawText.Pad2Parts | lottery_distance_eliminator.py:207 | f'{n:2d}' is a space then the digits for n < 10, otherwise just the digits |
| DrawRecords.DashedDate | 649CA.py:37-44 | the date is the century, then YY-MM-DD, with dashes at the right places |
| DrawRecords.Gaps | 649CA.py:61-65 | there are at most len - 1 holes |
| DrawRecords.CountHoles | 649CA.py:62-65 | the hole-counting loop counts the sorted neighbours more than 2 apart |
| DrawRecords.GapsAll | 649CA.py:61-65 | holes is len - 1 exactly when every neighbour gap exceeds 2 |
| DrawRecords.GapsNone | 649CA.py:61-65 | holes is 0 exactly when no neighbour gap exceeds 2 |
| DrawRecords.GapsCountsHoles | 649CA.py:61-65 | holes is the number of positions i whose step from the previous sorted number exceeds 2 |
| DrawRecords.OddCount | 649CA.py:68 | there are at most as many odd numbers as numbers |
| DrawRecords.OddCountExtremes | 649CA.py:68 | odd is the length exactly when all are odd, and 0 exactly when all are even |
| DrawRecords.OddCountAppend | 649CA.py:68 | the odd count of two runs of numbers is the sum of their odd counts |
| DrawRecords.OddCountPermutation | 649CA.py:61-68 | the odd count does not depend on order: counting the main numbers as drawn gives the same as counting them sorted |
| DrawRecords.StrLeqTotal | 649CA.py:114 | string order on dates is total |
| DrawRecords.StrLeqTrans | 649CA.py:114 | string order on dates is transitive |
| DrawRecords.StrLeqAntisym | 649CA.py:114 | string order on dates is antisymmetric |
| DrawRecords.InsertByDate | 649CA.py:114 | inserting a draw adds one entry |
| DrawRecords.InsertByDateMembers | 649CA.py:114 | inserting a draw adds exactly that draw |
| DrawRecords.InsertByDateOrdered | 649CA.py:114 | inserting into a date-ordered list keeps it date-ordered |
| DrawRecords.InsertByDateStable | 649CA.py:114 | the inserted draw lands in front of the listed draws of its date, which keep their order, and other dates are untouched |
| DrawRecords.SortByDateSpec | 649CA.py:114 | sort by date returns a date-ordered permutation, and the draws of each date keep their input order (a stable sort) |
| DrawRecords.SortByDateIdempotent | txt_to_json_converter.py:107 | sorting an already ordered list leaves it unchanged |
| DrawRecords.Accepted | 649CA.py:100-104 | no more draws than lines |
| DrawRecords.RecordLineCount | 649CA.py:106 | no more record lines than lines |
| DrawRecords.Accounting | 649CA.py:100-107 | when a parser accepts only non-blank, non-comment lines, the number converted plus the number skipped is the number of non-blank, non-comment lines |
| DistanceElimination.DistanceSymmetric | lottery_distance_eliminator.py:42-47 | calculate_distance is symmetric |
| DistanceElimination.DistanceBounds | lottery_distance_eliminator.py:42-47 | against a max_play-element combination the distance lies in [0, max_play] |
| DistanceElimination.DistanceZero | lottery_distance_eliminator.py:42-47 | between two k-of-n combinations the distance is 0 exactly when they are equal |
| DistanceElimination.IncreasingEqual | lottery_distance_eliminator.py:44-45 | two increasing tuples with the same set of elements are equal |
| DistanceElimination.MatchSetCombos | lottery_distance_eliminator.py:95-105 | every combination eliminated for a draw lies in the k-of-n universe |
| DistanceElimination.MatchesInMembers | lottery_distance_eliminator.py:95-105 | a walk collects exactly the walked combinations at the requested distance |
| DistanceElimination.MatchSetSize | lottery_distance_eliminator.py:91-107 | one k-of-n draw eliminates C(k, k-d) * C(n-k, d) combinations at distance d |
| DistanceElimination.MatchSetIsHitSet | lottery_distance_eliminator.py:99-103 | distance d is the same as sharing k - d numbers with the draw |
| DistanceElimination.DistanceHits | lottery_distance_eliminator.py:99-101 | for an increasing candidate, the distance is k minus its hits against the draw |
| DistanceElimination.UnlistedAppend | lottery_distance_eliminator.py:190-192 | the remaining filter distributes over concatenation |
| DistanceElimination.UnlistedMembers | lottery_distance_eliminator.py:190-192 | a combination remains exactly when it was walked and is not eliminated |
| DistanceElimination.UnlistedCount | lottery_distance_eliminator.py:190-192 | over a list without repeats, remaining count = length minus eliminated entries of the list |
| DistanceElimination.RemainingPoolSpec | lottery_distance_eliminator.py:190-192 | the remaining combinations are exactly the k-of-n combinations not eliminated, C(n, k) - eliminated of them, in lexicographic order |
| DistanceElimination.UnlistedSorted | lottery_distance_eliminator.py:190-192 | filtering keeps lexicographic order |
| DistanceElimination.PoolNumbers | lottery_distance_eliminator.py:197 | every remaining combination has k numbers in [1, n] |
| DistanceElimination.SampleSize | lottery_distance_eliminator.py:214-222 | the sample holds min(count, remaining) entries for count >= 1, and exactly one when count <= 0 and any remain |
| DistanceElimination.SelectDraws | lottery_distance_eliminator.py:119 | None selects all draws; a positive m the last min(m, len) in order; 0 all of them; a negative m all but the first min(-m, len) (Python slice draws[-m:]) |
| DistanceElimination.ParseDrawLine | lottery_distance_eliminator.py:56-73 | an accepted line gives exactly max_play numbers, sorted ascending |
| DistanceElimination.ParseLine | lottery_distance_eliminator.py:56-73 | the per-line loop computes the draw-line parser |
| DistanceElimination.LoadedDraws | lottery_distance_eliminator.py:55-73 | the loaded draws are no more than the lines, each of max_play sorted numbers |
| DistanceElimination.BatchedWalk | lottery_distance_eliminator.py:145-167 | after the batched walk and the final flush, the set is the old set plus the matches, and the count is the number newly added |
| DistanceElimination.BatchVisit | lottery_distance_eliminator.py:150-162 | one step of the batched walk keeps set plus batch equal to the old set plus the matches so far, with the count tracking new entries |
| DistanceElimination.CollectUnlisted | lottery_distance_eliminator.py:186-192 | the collecting loop returns exactly the walked combinations not eliminated, in walk order |
| DistanceElimination.EncodeAll | lottery_distance_eliminator.py:194-198 | the binary writer emits each combination's var_to_bin bytes in order |
| DistanceElimination.AppendComboLines | lottery_distance_eliminator.py:200-208 | the text writer emits the header followed by one rendered line per combination |
| DistanceElimination.ComboLines | lottery_distance_eliminator.py:206-208 | one line per combination |
| DistanceElimination.EncodeCombosDecode | lottery_distance_eliminator.py:194-198 | a binary file of k-number combinations (values below 256) reads back, record by record, as the same combinations |
| DistanceElimination.ComboLinesParse | lottery_distance_eliminator.py:206-208 | every written text line parses back to its combination |
| DistanceElimination.HeaderedLinesParse | lottery_distance_eliminator.py:200-208 | after the four header lines, each line parses back to its combination |
| DistanceElimination.DistanceEliminator.constructor | lottery_distance_eliminator.py:28-33 | a new eliminator has the given n and k, C(n, k) combinations, no eliminations and no draws |
| DistanceElimination.DistanceEliminator.Create | lottery_distance_eliminator.py:28-40 | construction fails exactly when k is outside [0, n], and otherwise gives a fresh, empty eliminator |
| DistanceElimination.DistanceEliminator.EliminateByDistance | lottery_distance_eliminator.py:85-107 | eliminated becomes old eliminated plus every combination at distance d from the draw, and the count is the number of those not eliminated before |
| DistanceElimination.DistanceEliminator.EliminateByDistanceEfficient | lottery_distance_eliminator.py:141-167 | for every batch size, the same final set and count as the plain variant |
| DistanceElimination.DistanceEliminator.EliminateFromDraws | lottery_distance_eliminator.py:109-139 | eliminated grows by the matches of the selected draws, processed in order, and the j-th reported count is the number that draw newly added |
| DistanceElimination.DistanceEliminator.LoadDraws | lottery_distance_eliminator.py:49-83 | load succeeds exactly when the file exists, and the draws become the parsed lines (or nothing), with eliminations unchanged |
| DistanceElimination.DistanceEliminator.StatsRemaining | lottery_distance_eliminator.py:169-182 | the reported remaining count is the number of remaining combinations, and eliminated plus remaining is C(n, k) |
| DistanceElimination.DistanceEliminator.SaveRemaining | lottery_distance_eliminator.py:184-210 | 'binary' writes the encoded remaining combinations; any other format writes the four header lines and one line per remaining combination |
| DistanceElimination.DistanceEliminator.SavedBinaryReadsBack | lottery_distance_eliminator.py:194-198 | for n below 256, the saved binary file reads back as the remaining combinations |
| DistanceElimination.DistanceEliminator.SavedTextReadsBack | lottery_distance_eliminator.py:200-208 | the saved text file's body reads back as the remaining combinations |
| DistanceElimination.DistanceEliminator.GetSampleRemaining | lottery_distance_eliminator.py:212-222 | the sample is the first SampleSize(count) remaining combinations in lexicographic order |
| FourComboCoverage.Total4CombosValue | verify_4combo_strategy.py:21 | TOTAL_4_COMBOS is C(49, 4) |
| FourComboCoverage.SortEach | verify_4combo_strategy.py:27 | one sorted tuple per sub-combination |
| FourComboCoverage.Get4CombosFrom6 | verify_4combo_strategy.py:23-28 | the loop returns each 4-element sub-combination sorted, in itertools order |
| FourComboCoverage.FourCombosSpec | verify_4combo_strategy.py:23-28 | for an increasing draw these are its C(len, 4) four-element selections, in lexicographic order |
| FourComboCoverage.SixHoldsFifteen | verify_4combo_strategy.py:23-28 | a 6-number draw has 15 pairwise distinct 4-subsets |
| FourComboCoverage.ParseCoverageLine | verify_4combo_strategy.py:37-55 | an accepted line gives six numbers in ascending order |
| FourComboCoverage.ParseCoverageLineRange | verify_4combo_strategy.py:46-55 | an accepted line's numbers lie in [1, n] (n is MAX, 49); without repeats they form a 6-of-n combination |
| FourComboCoverage.CoverageDraws | verify_4combo_strategy.py:36-55 | no more draws than lines |
| FourComboCoverage.LoadCoverageDraws | verify_4combo_strategy.py:30-64 | the loaded draws are the parsed lines, or nothing for a missing file |
| FourComboCoverage.ParseCoverageLineMethod | verify_4combo_strategy.py:37-55 | the per-line loop computes the line parser |
| FourComboCoverage.Analyze4Combos | verify_4combo_strategy.py:66-82 | the coverage set is the union of every draw's 4-subsets |
| FourComboCoverage.CoveredGrows | verify_4combo_strategy.py:73-75 | coverage only grows as draws are added |
| FourComboCoverage.CoveredHas | verify_4combo_strategy.py:73-75 | every draw's 4-subsets are covered |
| FourComboCoverage.CoveredWitness | verify_4combo_strategy.py:73-75 | every covered 4-subset comes from some draw |
| FourComboCoverage.CoveredBound | verify_4combo_strategy.py:101-102 | at most 15 covered 4-subsets per draw |
| FourComboCoverage.SeqSetBound | verify_4combo_strategy.py:101-102 | a list has no more distinct elements than entries |
| FourComboCoverage.CoveredInUniverse | verify_4combo_strategy.py:119 | every covered 4-subset of a 6-of-n draw is in the 4-of-n universe |
| FourComboCoverage.SubComboInUniverse | verify_4combo_strategy.py:119 | a 4-subset of a 6-of-n combination is a 4-of-n combination |
| FourComboCoverage.TotalsSound | verify_4combo_strategy.py:84-111 | for draws of six distinct numbers in [1, n], remaining_count is the number of uncovered 4-subsets and is non-negative, and the overlap is non-negative |
| FourComboCoverage.TotalsUndercount | verify_4combo_strategy.py:84-111 | once a drawn 4-tuple is not a 4-of-n combination, remaining_count is strictly below the number of uncovered 4-subsets |
| FourComboCoverage.RepeatedDrawUndercount | verify_4combo_strategy.py:47-55 | a sorted draw whose smallest number repeats (1, 1, 2, 3, 4, 5 from a line with a repeated number) makes remaining_count fall short of the uncovered 4-subsets |
| FourComboCoverage.OverlapNonNegative | verify_4combo_strategy.py:101-102 | 15 * draws - covered is never negative |
| FourComboCoverage.CoveredCount | verify_4combo_strategy.py:86-87 | uncovered count + covered count is C(n, 4) |
| FourComboCoverage.Check6ComboSpec | verify_4combo_strategy.py:128-132 | the result is (15 minus covered 4-subsets, 15), so at most 15 |
| FourComboCoverage.SampleRemaining4Combos | verify_4combo_strategy.py:113-126 | the printed combinations are the first SampleSize(count) uncovered 4-subsets in lexicographic order |
| FourComboCoverage.GoodMembers | verify_4combo_strategy.py:139-143 | a combination is listed exactly when it was walked and has at least 10 uncovered 4-subsets |
| FourComboCoverage.GoodAppend | verify_4combo_strategy.py:139-143 | the listing filter distributes over concatenation |
| FourComboCoverage.GoodSorted | verify_4combo_strategy.py:139-143 | the filter keeps lexicographic order |
| FourComboCoverage.SampleGood6Combos | verify_4combo_strategy.py:134-150 | the printed combinations are the first SampleSize(count) good 6-combinations in lexicographic order |
| FourComboCoverage.GoodSampleSpec | verify_4combo_strategy.py:139-148 | the good list is lexicographically sorted and holds exactly the 6-of-n combinations with at least 10 uncovered 4-subsets |
| TrimTool.PartValues | lottery_trim_tool.py:46-48 | at most one number per part |
| TrimTool.ReadVariant | lottery_trim_tool.py:38-50 | the parsing loop computes read_variant_text |
| TrimTool.PartValuesOfNumbers | lottery_trim_tool.py:46-48 | the decimal strings of numbers read back as those numbers |
| TrimTool.FormatNumbersBlanks | lottery_trim_tool.py:44 | removing spaces from a rendered list gives its numbers joined by ',' |
| TrimTool.ReadFormatted | lottery_trim_tool.py:38-50 | read_variant_text reads a rendered combination back exactly |
| TrimTool.KeptRecords | lottery_trim_tool.py:160-163 | the filter keeps no more records than it reads |
| TrimTool.KeptRecordsMembers | lottery_trim_tool.py:157-163 | a record is written exactly when it was read and its decoded numbers do not contain num |
| TrimTool.KeptRecordsWidth | lottery_trim_tool.py:163 | every kept record is still max_play bytes |
| TrimTool.ProcessBinary | lottery_trim_tool.py:143-169 | the output is the kept records byte for byte in order; cnt_line counts the whole records and cnt_trim the dropped ones |
| TrimTool.ProcessBinaryReadsBack | lottery_trim_tool.py:152-163 | the written file reads back as exactly the kept records |
| TrimTool.CountedLines | lottery_trim_tool.py:182-190 | no more counted lines than lines |
| TrimTool.KeptLines | lottery_trim_tool.py:182-195 | no more written lines than lines |
| TrimTool.KeptLinesMembers | lottery_trim_tool.py:182-195 | a line is written exactly when it is non-blank, starts with a digit, holds max_play numbers and does not contain num |
| TrimTool.KeptLinesCounted | lottery_trim_tool.py:187-195 | no more lines are written than counted |
| TrimTool.ProcessText | lottery_trim_tool.py:173-199 | the output is the kept lines verbatim in order; cnt_line counts the eligible lines and cnt_trim the dropped ones |
| TrimTool.KeptLinesAllCounted | lottery_trim_tool.py:182-195 | every written line would be counted again by a later pass |
| TrimTool.ReadEntry | lottery_trim_tool.py:93-105 | 0 finishes; an integer in [1, 47 when max_play is 7 else 49] trims; anything else is skipped |
| TrimTool.AcceptedNumbers | lottery_trim_tool.py:89-105 | no more trim numbers than entries |
| TrimTool.FinishedSpec | lottery_trim_tool.py:89-100 | the prompt is ended by a 0 exactly when some entered line reads as 0; otherwise input() meets the end of the input |
| TrimTool.FinishedStep | lottery_trim_tool.py:89-100 | a 0 is still to come exactly when the next line is 0 or one after it is |
| TrimTool.AcceptedInRange | lottery_trim_tool.py:102-105 | every accepted trim number lies in [1, max_val] |
| TrimTool.TrimAllRecordsMembers | lottery_trim_tool.py:89-116 | after the chained passes, a record survives exactly when it contains none of the entered numbers |
| TrimTool.TrimAllRecordsWidth | lottery_trim_tool.py:89-116 | chained passes keep records max_play bytes wide |
| TrimTool.TrimAllLinesMembers | lottery_trim_tool.py:89-116 | after one or more chained passes, a line survives exactly when it is eligible and contains none of the entered numbers |
| TrimTool.OutputNameOneDot | lottery_trim_tool.py:123-126 | a name with one dot gets "_trimmed" before its extension |
| TrimTool.OutputNameNoDot | lottery_trim_tool.py:124-126 | a name without a dot gets "_trimmed" appended |
| TrimTool.TrimBinarySession | lottery_trim_tool.py:77-126 | a binary session yields nothing when the entries run out before a 0 (EOFError) or no number was accepted, otherwise the records containing none of the accepted numbers |
| TrimTool.BinaryPasses | lottery_trim_tool.py:89-120 | the alternating temp-file loop ends with the input name exactly when nothing was trimmed, holds the chained result, and reports whether a 0 ended it |
| TrimTool.TrimTextSession | lottery_trim_tool.py:77-126 | a text session yields nothing when the entries run out before a 0 (EOFError) or no number was accepted, otherwise the lines that survive every accepted number |
| TrimTool.TextPasses | lottery_trim_tool.py:89-120 | the alternating temp-file loop ends with the input name exactly when nothing was trimmed, holds the chained result, and reports whether a 0 ended it |
| TrimTool.TrimSetPlayed | lottery_trim_tool.py:62-141 | nothing is saved for an empty name, a missing file, entries that run out before a 0, or no accepted number; otherwise the trimmed bytes or lines are saved under the derived name |
| TrimTool.ParseTrimArgsSpec | lottery_trim_tool.py:203-240 | a run starts exactly when both arguments are integers and max_play is 6 or 7, with show = (first != 0) |
| TrimTool.RenderedLineSkipped | lottery_trim_tool.py:183 | a rendered combination whose first number is below 10 reads back correctly yet is neither counted nor written |
| TrimTool.RenderedLineKept | lottery_trim_tool.py:182-188 | every rendered combination passes a first-digit test on the stripped line |
| BinaryToText.BinToVariant | binary_to_text_converter.py:23-28 | the loop decodes the first max_play bytes |
| BinaryToText.OutputLineLayout | binary_to_text_converter.py:64-65 | with two or more numbers the line is the rendered list; with one it is ", " and the padded number |
| BinaryToText.OutputLineReadsBack | binary_to_text_converter.py:64-65 | read_variant_text reads every output line back as its numbers |
| BinaryToText.ListingSpec | binary_to_text_converter.py:53-74 | one output line per whole record, each reading back as that record's decoded numbers |
| BinaryToText.ListBinary | binary_to_text_converter.py:30-90 | success exactly for a binary-looking name of an existing file; then count is len / max_play and the output file is the header plus the listing |
| BinaryToText.ListRecords | binary_to_text_converter.py:53-74 | the read loop counts len / max_play records and writes their lines after the header |
| BinaryToText.ParseConverterArgsSpec | binary_to_text_converter.py:93-121 | a conversion runs exactly when max_play is an integer 6 or 7 |
| CaConverter.CaCentury | 649CA.py:43 | the century is "20" below 50 and "19" otherwise, and int() must accept the year |
| CaConverter.CaCenturyOfDigits | 649CA.py:43 | for digit years the century follows the value of the two digits |
| CaConverter.TxtLineDraw | 649CA.py:17-80 | an accepted line is a record line with six numbers, holes at most 5, odd at most 6 and a ten-character date |
| CaConverter.ParseTxtLine | 649CA.py:17-80 | the holes loop computes the line parser |
| CaConverter.TxtLineDrawOfDrawLine | 649CA.py:17-80 | a draw line parses to its pivoted date, its first six numbers in input order, its seventh as bonus, and their holes and odd count |
| CaConverter.CaNumbersOfDrawLine | 649CA.py:49-58 | the comma-to-space token list of a draw line yields its seven numbers |
| CaConverter.ConvertTxtToJson | 649CA.py:82-159 | a missing file fails; otherwise the draws are the accepted lines sorted stably by date, with the skipped count |
| CaConverter.CaAccounting | 649CA.py:100-107 | converted plus skipped is the number of non-blank, non-comment lines |
| JsonConverter.DrawOfLine | txt_to_json_converter.py:17-85 | an accepted line gives six numbers in [1, 49], a bonus in [1, 49], holes at most 5, odd at most 6 and a date starting "20" |
| JsonConverter.ParseDrawLine | txt_to_json_converter.py:17-85 | the number and holes loops compute the line parser |
| JsonConverter.MainNumbersOfDrawLine | txt_to_json_converter.py:48-54 | the main-number loop reads a draw line's six numbers back |
| JsonConverter.BonusOfDrawLine | txt_to_json_converter.py:57-60 | the bonus field reads back as the bonus |
| JsonConverter.DrawOfLineOfDrawLine | txt_to_json_converter.py:17-85 | a draw line with numbers in [1, 49] parses to date "20YY-MM-DD", its six numbers in input order, the bonus, holes and odd count |
| JsonConverter.ConvertDrawsFile | txt_to_json_converter.py:87-143 | a missing file fails; otherwise the draws are the accepted lines sorted stably by date, with the skipped count |
| JsonConverter.JsonAccounting | txt_to_json_converter.py:96-101 | converted plus skipped is the number of non-blank, non-comment lines |
| JsonConverter.JsonOutputNameAsWrittenRewritesStem | txt_to_json_converter.py:172-173 | replace() rewrites every ".txt": "x.txt.txt" becomes "x.json.json" |
| JsonConverter.JsonOutputName | txt_to_json_converter.py:168-175 | the corrected default name (see Findings) ends in ".json"; only a final ".txt" extension is replaced and the rest of the name kept |
| JsonConverter.JsonOutputNameAgrees | txt_to_json_converter.py:172-173 | for a name with one ".txt" the code and the intended name agree |
| JsonConverter.JsonOutputNameAsWritten | txt_to_json_converter.py:171-174 | `input.replace('.txt', '.json')` on a name ending in ".txt", else the name plus ".json": the result always ends in ".json", and a name not ending in ".txt" is kept as its prefix |
| JsonConverter.ParseJsonArgs | txt_to_json_converter.py:151-175 | usage exactly when argv has fewer than two entries; otherwise argv[1] is the input, and the output is argv[2] when given, else the default name as the code writes it, which ends in ".json" |
| FormatConverter.DigitRun | lottery_format_converter.py:18 | the regex's \d+ takes the longest run of digits |
| FormatConverter.StripOrdinalsKeepsDigits | lottery_format_converter.py:18 | suffix removal keeps every digit and never lengthens the text |
| FormatConverter.OrdinalDropped | lottery_format_converter.py:18 | "25th" and the like lose exactly their suffix |
| FormatConverter.StripOrdinalsNoDigits | lottery_format_converter.py:18 | text without digits is unchanged |
| FormatConverter.DayField | lottery_format_converter.py:22 | an accepted day is in [1, 31] |
| FormatConverter.MonthField | lottery_format_converter.py:22-27 | a month name is accepted exactly when it is in the table, and gives its position |
| FormatConverter.MonthIndex | lottery_format_converter.py:22-27 | the table search finds the first matching name or reports none |
| FormatConverter.YearField | lottery_format_converter.py:22 | an accepted year has at most four digits |
| FormatConverter.Strptime | lottery_format_converter.py:22-27 | an accepted date is a valid calendar date |
| FormatConverter.ParseOrdinalDate | lottery_format_converter.py:13-30 | an accepted date is a valid calendar date |
| FormatConverter.Pad2Zero | lottery_format_converter.py:76 | two digits whose value is the number |
| FormatConverter.Yymmdd | lottery_format_converter.py:76 | %y%m%d gives six digits: year mod 100, month and day |
| FormatConverter.Pad2ZeroInjective | lottery_format_converter.py:76 | different numbers give different two-digit fields |
| FormatConverter.CenturyPrefix | lottery_format_converter.py:76 | prefixing a century to the short date restores the ISO date exactly when it is the year's century |
| FormatConverter.NonBlankStripped | lottery_format_converter.py:45 | removing empty fields never lengthens the list |
| FormatConverter.ParseInts | lottery_format_converter.py:80 | int() on every field succeeds only if each field is an integer, and gives their values |
| FormatConverter.ParseIntsNone | lottery_format_converter.py:79-84 | the conversion fails exactly when some field is not an integer |
| FormatConverter.ReadFields | lottery_format_converter.py:32-84 | an accepted line is a record line with a valid date and exactly seven numbers |
| FormatConverter.DrawLineFields | lottery_format_converter.py:91 | an output line is already stripped, starts with a digit, and splits on ':' into the date and the numbers |
| FormatConverter.NumbersTextSlash | lottery_format_converter.py:87-91 | the numbers part splits on '/' into the six rendered numbers and the bonus |
| FormatConverter.ConvertLine | lottery_format_converter.py:32-96 | a line converts exactly when its date and its seven integer fields are read, so only non-blank, non-comment lines convert |
| FormatConverter.ConvertFile | lottery_format_converter.py:98-160 | a missing input file gives False and writes nothing; otherwise True, the output is the three header lines then the converted lines in order, and skipped counts the failed record lines |
| FormatConverter.ConvertAccounting | lottery_format_converter.py:114-121 | converted plus skipped is the number of non-blank, non-comment lines |
| ConverterPipeline.ParsersAgreeOnDrawLine | 649CA.py:17-80 | on a draw line both YYMMDD parsers give the same numbers, bonus, holes and odd, and the same date exactly when the year is below 50 |
| ConverterPipeline.PivotAgreesWithFixed | 649CA.py:43 | the pivoted and the fixed "20" centuries agree exactly for years below 50 |
| ConverterPipeline.PivotCentury | 649CA.py:43 | the pivot restores a four-digit year exactly for years 1950 to 2049 |
| ConverterPipeline.DashedYymmdd | lottery_format_converter.py:76 | dashing a YYMMDD written by the converter gives the century followed by -MM-DD of that date |
| ConverterPipeline.FixedCentury | txt_to_json_converter.py:34-38 | the fixed "20" restores the ISO date exactly for years 2000 to 2099 |
| ConverterPipeline.PivotedCentury | 649CA.py:37-44 | the pivot restores the ISO date exactly for years 1950 to 2049 |
| ConverterPipeline.ConvertThenJson | lottery_format_converter.py:76-91 | a converted line with numbers in [1, 49] parses in the JSON converter to the same numbers and bonus, and to the original date exactly for years 2000 to 2099 |
| ConverterPipeline.ConvertThenCa | lottery_format_converter.py:76-91 | a converted line parses in 649CA to the same numbers and bonus, and to the original date exactly for years 1950 to 2049 |
| Deduplicate.RStripNewlines | deduplicate_txt_files.py:12 | rstrip('\n') removes a run of trailing newlines and nothing else |
| Deduplicate.RStripNewlinesTerminated | deduplicate_txt_files.py:12 | a written line reads back without its newline |
| Deduplicate.Stripped | deduplicate_txt_files.py:12 | one stripped line per line |
| Deduplicate.KeepFirst | deduplicate_txt_files.py:13-17 | no more output lines than input lines |
| Deduplicate.Repeats | deduplicate_txt_files.py:13-14 | no more duplicates than lines |
| Deduplicate.DeduplicateLines | deduplicate_txt_files.py:3-17 | the file written is the first occurrences of the stripped lines, each with '\n', and duplicates lists the rest in order |
| Deduplicate.VisitLine | deduplicate_txt_files.py:12-17 | one loop step keeps seen equal to the lines read so far, the output to their first occurrences and duplicates to their repeats |
| Deduplicate.KeepFirstMembers | deduplicate_txt_files.py:13-17 | every input line appears in the output, and only input lines do |
| Deduplicate.KeepFirstDistinct | deduplicate_txt_files.py:13-17 | the output has no repeated line |
| Deduplicate.RepeatsAccounting | deduplicate_txt_files.py:13-17 | output length plus duplicates is the input length, and every duplicate is in the output |
| Deduplicate.KeepFirstOfDistinct | deduplicate_txt_files.py:13-17 | a list without repeats is unchanged and has no duplicates |
| Deduplicate.KeepFirstIdempotent | deduplicate_txt_files.py:11-17 | deduplicating twice changes nothing more |
| Deduplicate.DeduplicateTwice | deduplicate_txt_files.py:3-17 | running the tool on its own output writes the same file and finds no duplicates |
| Deduplicate.DeduplicateFolder | deduplicate_txt_files.py:26-32 | the folder pass writes each .txt file's deduplicated lines under its "_deduped" name |
| Deduplicate.DedupedNameOneDot | deduplicate_txt_files.py:30-31 | "x.txt" becomes "x_deduped.txt" |
| CleanSpaces.CleanLineShape | clean_spaces.py:12 | a cleaned line has no outer whitespace, and its only whitespace is single spaces between tokens |
| CleanSpaces.CleanLineWords | clean_spaces.py:12 | cleaning keeps the tokens of line.split(), in order |
| CleanSpaces.CleanLineIdempotent | clean_spaces.py:12 | cleaning twice changes nothing more |
| CleanSpaces.CleanLineBlank | clean_spaces.py:12 | a line cleans to "" exactly when it is all whitespace |
| CleanSpaces.CleanLineNewline | clean_spaces.py:11-12 | the line's own newline does not change the result |
| CleanSpaces.CleanedLines | clean_spaces.py:11-13 | one output line per input line |
| CleanSpaces.CleanLines | clean_spaces.py:11-13 | the loop writes every cleaned line with '\n' |
| CleanSpaces.CleanedLinesWords | clean_spaces.py:11-13 | each output line ends in '\n' and keeps its input line's tokens |
| CleanSpaces.CleanedLinesIdempotent | clean_spaces.py:11-13 | cleaning a cleaned file changes nothing |
| CleanSpaces.CleanSpacesFile | clean_spaces.py:4-13 | a missing file produces no output; otherwise the output is the cleaned lines |
| CleanSpaces.ParseCleanArgs | clean_spaces.py:15-20 | a run happens exactly with two arguments, input then output |
| CleanAll.CleanSpacesInFile | clean_all_txt_files.py:3-8 | the output is every line cleaned, each with '\n' |
| CleanAll.CleanFolder | clean_all_txt_files.py:10-17 | the folder pass writes each .txt file's cleaned lines under its "_cleaned" name |
| CleanAll.CleanedNameOneDot | clean_all_txt_files.py:14-15 | "x.txt" becomes "x_cleaned.txt" |
| TxtFolder.LastIndex | deduplicate_txt_files.py:30 | the last position of the character, or -1 |
| TxtFolder.SplitExt | deduplicate_txt_files.py:30 | os.path.splitext: stem + ext is the name; ext is empty or a dot followed by no other dot; and there is an extension only when the stem is more than leading dots |
| TxtFolder.SuffixedNameOneDot | deduplicate_txt_files.py:30-31 | a name with one dot gets the suffix before its extension |
| TxtFolder.SuffixedNameHidden | clean_all_txt_files.py:14-15 | a hidden name such as ".txt" has no extension and gets the suffix at the end |
| TxtFolder.IsTxtNameAnyCase | deduplicate_txt_files.py:28 | ".txt" is matched in any letter case |
| TxtFolder.Terminated | deduplicate_txt_files.py:17 | one written line per line |
| TxtFolder.Step | deduplicate_txt_files.py:28-32 | a step fails exactly for a .txt name that cannot be read |
| TxtFolder.ProcessAllTxtFiles | deduplicate_txt_files.py:26-32 | the loop over the listing computes the folder pass |
| TxtFolder.ProcessFolderNone | deduplicate_txt_files.py:26-32 | once a file cannot be read the pass has failed |
| TxtFolder.ProcessFolderFrame | deduplicate_txt_files.py:26-32 | when every .txt file is readable, the files afterwards are the old ones plus the outputs, and files that are not outputs are untouched |
| TxtFolder.ProcessFolderOutputs | deduplicate_txt_files.py:26-32 | when output names clash neither with listed names nor with each other, each output holds its input transformed |
| Text.DigitChar | lottery_distance_eliminator.py:207 | the character is a digit with that value |
| Text.NatToStringDigits | lottery_distance_eliminator.py:207 | str(n) is all digits, has value n, and has one digit exactly for n < 10 |
| Text.Pad2OfNat | lottery_distance_eliminator.py:207 | stripping f'{n:2d}' gives str(n), which reads back as n |
| Text.Lower | lottery_trim_tool.py:58 | lower() keeps the length and lowers each ASCII letter |
| Text.Split | lottery_trim_tool.py:44 | str.split(sep) returns at least one part |
| Text.SplitJoin | lottery_trim_tool.py:44 | the parts of split(sep) contain no sep, and joining them with sep rebuilds the string |
| Text.JoinSplit | lottery_distance_eliminator.py:207 | joining sep-free parts with sep and splitting again gives the parts back |
| Text.SplitHasSep | txt_to_json_converter.py:26-30 | split(sep) has two or more parts exactly when sep occurs |
| Text.SplitWs | clean_spaces.py:12 | line.split() returns non-empty tokens without whitespace |
| Text.SplitWsJoin | clean_spaces.py:12 | joining tokens with ' ' and splitting on whitespace gives the tokens back |
| Text.JoinWordsShape | clean_spaces.py:12 | ' '.join of tokens has no outer whitespace and only single spaces between tokens |
| Text.StripEnds | lottery_trim_tool.py:41 | strip() leaves no whitespace at either end |
| Text.StripTrimmed | lottery_trim_tool.py:41 | strip() leaves trimmed text unchanged |
| Text.RemoveCharFree | lottery_trim_tool.py:44 | replace(' ', '') leaves no space and changes nothing without one |
| Text.ReplaceCharAppend | 649CA.py:49 | replacing a character distributes over concatenation |
| Text.ParseIntOfDigits | lottery_trim_tool.py:94 | int() of an all-digit string is its decimal value |

## Left out

- Terminal I/O: `input()` prompts, `print` progress and statistics lines, the `show`
  display in the trim tool, and the console copy of each listed record are not modelled.
  Entered text is a parameter, and the values those prints report are proved instead.
- `datetime.now()` in the header of `save_remaining` is a `timestamp` parameter.
- Floating-point percentages (`lottery_distance_eliminator.py:136, 173`,
  `verify_4combo_strategy.py:88, 103`) are not modelled.
- File-system effects: opening, reading, writing, `os.path.exists`, `os.replace` and the
  temp-file removal at `lottery_trim_tool.py:128-141`. A file is a value, and a missing file
  is `None`. The trim tool's temp names are checked to be distinct from the input, but the
  files themselves are not modelled.
- The trim prompt reads until a 0 is entered. When the entered lines run out first,
  `input()` (`lottery_trim_tool.py:91`) raises EOFError outside any `try`: the model's
  session saves nothing, but the temporary files written by the passes that already ran
  stay on disk, and the propagation of the exception out of the program is not modelled.
- FourComboCoverage.TotalsSound: the remaining count is proved equal to the uncovered
  4-subsets only for draws of six distinct numbers. `verify_4combo_strategy.py:47-55`
  keeps any six in-range tokens, so a line such as `250101:  1, 1, 2, 3, 4, 5 / 7` loads
  a draw with a repeat. Its degenerate 4-tuples enter the drawn set and lower the reported
  count (`FourComboCoverage.TotalsUndercount`, `FourComboCoverage.RepeatedDrawUndercount`).
  With enough such draws the count can go negative.
- Generic exceptions other than a missing file are not modelled. This covers an unreadable
  file, a failed write, the `except Exception` branches of `process_binary`/`process_text`
  (`lottery_trim_tool.py:118-120`) and of the save (`lottery_trim_tool.py:132-133`).
- `os.listdir` order is a parameter. A listed `.txt` name that cannot be read ends the
  folder pass with `None`, standing in for the exception the script would raise.
- `datetime.strptime` is modelled by a table of English month names (full and three-letter)
  and a days-per-month check. Locale-dependent names and `strptime` whitespace rules beyond
  single spaces are not modelled.
- Python's Unicode behaviour of `isdigit`, `split()`, `strip()` and `lower()` is modelled
  on ASCII only.
- `list.sort` and `sorted` are modelled on values (an insertion sort proved ascending, a
  permutation and stable), not as an in-place sort.
- Of the `main()` functions, only the command-line checks are modelled. These are in
  `lottery_trim_tool.py`, `binary_to_text_converter.py`, `txt_to_json_converter.py` and
  `clean_spaces.py`. The interactive mains are sequences of prompts around calls to modelled
  operations: `lottery_distance_eliminator.py:224-303`, `649CA.py:161-193` and
  `lottery_format_converter.py:191-223`. They are left out, as are the `sys.argv` check of
  `verify_4combo_strategy.py:152-187`, `test_converter` (`lottery_format_converter.py:165-189`)
  and the exit codes.
- `lottery_scraper.py` and `lottery_file_manager.py` (HTTP scraping and Downloads-folder
  polling) are not part of this model.
- The universe is symbolic in `n` and `k`. The full 6-of-49 walk is never unrolled; its
  size is proved as `C(49, 6) == 13983816`.
- The "Draws processed" figure of `print_statistics` is `len(self.draws)`, all loaded
  draws, even when `specific_draws` limited the processing. The model's `Stats` reports the
  same figure, and no property is stated about it.

## Findings

| source | as written | input that shows it | evidently intended | confidence | as-written member | corrected member |
|---|---|---|---|---|---|---|
| txt_to_json_converter.py:172-173 | the default output name is `input_file.replace('.txt', '.json')`, which rewrites every ".txt" in the name | `draws.txt.txt` gives `draws.json.json` | only the final ".txt" extension is replaced, giving `draws.txt.json` | not executed | JsonConverter.JsonOutputNameAsWrittenRewritesStem | JsonConverter.JsonOutputName |
