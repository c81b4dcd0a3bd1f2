/**
 * The ingredient inventory of `day5/day5.py`: a document of inclusive ID
 * ranges and available IDs, the count of available IDs that fall in some
 * range (part 1) and the number of distinct IDs the ranges cover, found by
 * sorting and merging them (part 2).
 */
module Freshness {
  import opened Results
  import opened Text

  /** An inclusive range `start..end`; nothing forces `start <= end`. */
  datatype Range = Range(start: int, end: int)

  /** The two sections of the document. */
  datatype Inventory = Inventory(ranges: seq<Range>, ids: seq<int>)

  // ---------------------------------------------------------------------
  // Parsing

  /** `int(a), int(b)` as a pair, failing when either does. */
  function BothInts(a: string, b: string): Option<Range> {
    match (ParseInt(a), ParseInt(b))
    case (Some(x), Some(y)) => Some(Range(x, y))
    case _ => None
  }

  /** A stripped range line with one leading `-` removed. */
  function DropDash(t: string): (u: string)
    ensures |u| <= |t|
  {
    if |t| > 0 && t[0] == '-' then t[1..] else t
  }

  /**
   * A stripped range line without its leading `-`: split on `-`; when that
   * does not give two pieces, split at the last `-` instead (no `-` at all
   * leaves one piece, which fails).
   */
  function SplitRange(t: string): Option<Range> {
    var pieces := Split(t, "-");
    if |pieces| == 2 then BothInts(pieces[0], pieces[1])
    else
      match RFindChar(t, '-')
      case None => None
      case Some(i) => BothInts(t[..i], t[i + 1..])
  }

  /** One non-blank range line: strip it, drop one leading `-`, split what is left. */
  function ParseRangeLine(line: string): Option<Range> {
    SplitRange(DropDash(Strip(line)))
  }

  /** Two decimal numbers joined by `-` split into that range. */
  lemma SplitRangeDigits(a: nat, b: nat)
    ensures SplitRange(DecimalString(a) + "-" + DecimalString(b)) == Some(Range(a, b))
  {
    var x, y := DecimalString(a), DecimalString(b);
    SplitAtDash(x, y);
    ParseDigits(x);
    ParseDigits(y);
  }

  /** A line `x-y` of two digit strings needs no stripping and has no sign to drop. */
  lemma PlainDigits(x: string, y: string)
    requires |x| >= 1 && AllDigits(x) && |y| >= 1 && AllDigits(y)
    ensures ParseRangeLine(x + "-" + y) == SplitRange(x + "-" + y)
  {
    var line := x + "-" + y;
    assert line[0] == x[0] && line[|line| - 1] == y[|y| - 1];
    StripUnchanged(line);
  }

  /** `str(a) + "-" + str(b)` for non-negative bounds reads back as the range. */
  lemma ParseRangeLineFormat(a: nat, b: nat)
    ensures ParseRangeLine(DecimalString(a) + "-" + DecimalString(b)) == Some(Range(a, b))
  {
    PlainDigits(DecimalString(a), DecimalString(b));
    SplitRangeDigits(a, b);
  }

  /** A line `-x-y` of two digit strings parses as `x-y` does. */
  lemma DropSignDigits(x: string, y: string)
    requires |x| >= 1 && AllDigits(x) && |y| >= 1 && AllDigits(y)
    ensures ParseRangeLine("-" + x + "-" + y) == SplitRange(x + "-" + y)
  {
    var line := "-" + x + "-" + y;
    assert line[0] == '-' && line[|line| - 1] == y[|y| - 1];
    StripUnchanged(line);
    assert line[1..] == x + "-" + y;
  }

  /**
   * A leading `-` is removed, not read as a sign: `-a-b` is the range
   * `a..b`, exactly as `a-b` is.
   */
  lemma ParseRangeLineDropsSign(a: nat, b: nat)
    ensures ParseRangeLine("-" + DecimalString(a) + "-" + DecimalString(b)) == Some(Range(a, b))
  {
    DropSignDigits(DecimalString(a), DecimalString(b));
    SplitRangeDigits(a, b);
  }

  /** What the range loop of `read_input` does with one line. */
  function RangeLineStep(line: string): Step<Range> {
    if Strip(line) == [] then Skip
    else
      match ParseRangeLine(line)
      case None => Fail
      case Some(r) => Keep(r)
  }

  /** The step taken for each range line. */
  function RangeLineSteps(lines: seq<string>): (steps: seq<Step<Range>>)
    ensures |steps| == |lines|
  {
    seq(|lines|, i requires 0 <= i < |lines| => RangeLineStep(lines[i]))
  }

  /** The range loop of `read_input` over its first `n` lines (blank lines skipped). */
  function ParseRangeLines(lines: seq<string>, n: nat): Option<seq<Range>>
    requires n <= |lines|
  {
    Gather(RangeLineSteps(lines), n)
  }

  /** One more line, as the loop of `read_input` takes it. */
  lemma ParseRangeLinesStep(lines: seq<string>, i: nat, ranges: seq<Range>)
    requires i < |lines| && ParseRangeLines(lines, i) == Some(ranges)
    ensures Strip(lines[i]) == [] ==> ParseRangeLines(lines, i + 1) == Some(ranges)
    ensures Strip(lines[i]) != [] && ParseRangeLine(lines[i]).Some? ==>
              ParseRangeLines(lines, i + 1) == Some(ranges + [ParseRangeLine(lines[i]).value])
    ensures Strip(lines[i]) != [] && ParseRangeLine(lines[i]).None? ==>
              ParseRangeLines(lines, |lines|) == None
  {
    var steps := RangeLineSteps(lines);
    assert steps[i] == RangeLineStep(lines[i]);
    GatherStep(steps, i, ranges);
  }

  /** What the ID comprehension of `read_input` does with one line. */
  function IdStep(line: string): Step<int> {
    var t := Strip(line);
    if t == [] then Skip
    else
      match ParseInt(t)
      case None => Fail
      case Some(v) => Keep(v)
  }

  /** The step taken for each ID line. */
  function IdSteps(lines: seq<string>): (steps: seq<Step<int>>)
    ensures |steps| == |lines|
  {
    seq(|lines|, i requires 0 <= i < |lines| => IdStep(lines[i]))
  }

  /** The ID list comprehension of `read_input`: `int` of every non-blank line, in order. */
  function ParseIds(lines: seq<string>): Option<seq<int>> {
    Gather(IdSteps(lines), |lines|)
  }

  /** Decimal IDs, one per line, read back as themselves. */
  lemma ParseIdsFormat(ids: seq<nat>)
    ensures ParseIds(seq(|ids|, i requires 0 <= i < |ids| => DecimalString(ids[i]))) ==
              Some(seq(|ids|, i requires 0 <= i < |ids| => ids[i] as int))
  {
    var lines := seq(|ids|, i requires 0 <= i < |ids| => DecimalString(ids[i]));
    var steps := IdSteps(lines);
    forall i | 0 <= i < |ids| ensures steps[i] == Keep(ids[i] as int) {
      var s := lines[i];
      assert steps[i] == IdStep(s);
      StripUnchanged(s);
      ParseDigits(s);
    }
    GatherAllKeep(steps, |steps|);
    assert Gather(steps, |lines|).value == seq(|ids|, i requires 0 <= i < |ids| => ids[i] as int);
  }

  /**
   * `read_input` after the file is read: strip the content, split it at
   * the blank line into exactly two sections, strip each and split it into
   * lines.
   */
  function Input(content: string): Option<Inventory> {
    var sections := Split(Strip(content), "\n\n");
    if |sections| != 2 then None
    else
      var rangeLines := Split(Strip(sections[0]), "\n");
      var idLines := Split(Strip(sections[1]), "\n");
      match (ParseRangeLines(rangeLines, |rangeLines|), ParseIds(idLines))
      case (Some(rs), Some(ids)) => Some(Inventory(rs, ids))
      case _ => None
  }

  /** The range loop of `read_input`. */
  method ReadRangeLines(lines: seq<string>) returns (r: Option<seq<Range>>)
    ensures r == ParseRangeLines(lines, |lines|)
    ensures r.Some? ==> |r.value| <= |lines|
  {
    var ranges: seq<Range> := [];
    for i := 0 to |lines|
      invariant ParseRangeLines(lines, i) == Some(ranges)
    {
      ParseRangeLinesStep(lines, i, ranges);
      if Strip(lines[i]) != [] {
        var parsed := ParseRangeLine(lines[i]);
        if parsed.None? {
          return None;
        }
        ranges := ranges + [parsed.value];
      }
    }
    GatherLength(RangeLineSteps(lines), |lines|);
    r := Some(ranges);
  }

  /** `read_input` on the content of the file. */
  method ReadInput(content: string) returns (r: Option<Inventory>)
    ensures r == Input(content)
    ensures |Split(Strip(content), "\n\n")| != 2 ==> r == None
  {
    var sections := Split(Strip(content), "\n\n");
    if |sections| != 2 {
      return None;
    }
    var rangeLines := Split(Strip(sections[0]), "\n");
    var idLines := Split(Strip(sections[1]), "\n");
    var ranges := ReadRangeLines(rangeLines);
    var ids := ParseIds(idLines);
    if ranges.None? || ids.None? {
      return None;
    }
    r := Some(Inventory(ranges.value, ids.value));
  }

  // ---------------------------------------------------------------------
  // Part 1: freshness

  /** Some range holds `id`, both ends included. */
  predicate Covers(ranges: seq<Range>, id: int) {
    exists i :: 0 <= i < |ranges| && ranges[i].start <= id <= ranges[i].end
  }

  /** `is_fresh`: the first range holding `id` ends the search. */
  method IsFresh(id: int, ranges: seq<Range>) returns (b: bool)
    ensures b == Covers(ranges, id)
  {
    for i := 0 to |ranges|
      invariant forall j :: 0 <= j < i ==> !(ranges[j].start <= id <= ranges[j].end)
    {
      if ranges[i].start <= id <= ranges[i].end {
        return true;
      }
    }
    return false;
  }

  /** For each ID, whether it is fresh. */
  function FreshFlags(ranges: seq<Range>, ids: seq<int>): (flags: seq<bool>)
    ensures |flags| == |ids|
  {
    seq(|ids|, i requires 0 <= i < |ids| => Covers(ranges, ids[i]))
  }

  /** How many of the first `n` IDs are fresh. */
  function FreshCount(ranges: seq<Range>, ids: seq<int>, n: nat): nat
    requires n <= |ids|
  {
    CountTrue(FreshFlags(ranges, ids), n)
  }

  /** `FreshCount` counts exactly the positions whose ID is fresh. */
  lemma FreshCountIndices(ranges: seq<Range>, ids: seq<int>, n: nat)
    requires n <= |ids|
    ensures FreshCount(ranges, ids, n) == |set i | 0 <= i < n && Covers(ranges, ids[i])|
  {
    var flags := FreshFlags(ranges, ids);
    CountTrueIndices(flags, n);
    assert (set i | 0 <= i < n && flags[i]) == (set i | 0 <= i < n && Covers(ranges, ids[i]));
  }

  /** The counting loop of `day5`. */
  method CountFresh(ranges: seq<Range>, ids: seq<int>) returns (count: nat)
    ensures count == FreshCount(ranges, ids, |ids|)
    ensures count == |set i | 0 <= i < |ids| && Covers(ranges, ids[i])|
  {
    count := 0;
    for i := 0 to |ids|
      invariant count == FreshCount(ranges, ids, i)
    {
      var isFresh := IsFresh(ids[i], ranges);
      assert FreshFlags(ranges, ids)[i] == isFresh;
      if isFresh {
        count := count + 1;
      }
    }
    FreshCountIndices(ranges, ids, |ids|);
  }

  /** `day5` on the content of its file. */
  method Day5(content: string) returns (r: Option<nat>)
    ensures Input(content).None? ==> r == None
    ensures Input(content).Some? ==>
              r == Some(|set i | 0 <= i < |Input(content).value.ids| &&
                                 Covers(Input(content).value.ranges, Input(content).value.ids[i])|)
  {
    var inventory := ReadInput(content);
    if inventory.None? {
      return None;
    }
    var count := CountFresh(inventory.value.ranges, inventory.value.ids);
    r := Some(count);
  }

  // ---------------------------------------------------------------------
  // The covered IDs

  /** The IDs `a..b`, both included. */
  ghost function Span(a: int, b: int): set<int>
    decreases b - a
  {
    if a > b then {} else Span(a, b - 1) + {b}
  }

  /** `Span(a, b)` holds the IDs from `a` to `b` and nothing else. */
  lemma {:induction false} SpanMembers(a: int, b: int, x: int)
    ensures x in Span(a, b) <==> a <= x <= b
    decreases b - a
  {
    if a <= b {
      SpanMembers(a, b - 1, x);
    }
  }

  /** `b - a + 1` IDs when `a <= b`, none otherwise. */
  lemma {:induction false} SpanSize(a: int, b: int)
    ensures |Span(a, b)| == if a <= b then b - a + 1 else 0
    decreases b - a
  {
    if a <= b {
      SpanSize(a, b - 1);
      SpanMembers(a, b - 1, b);
    }
  }

  /** Every ID some range holds. */
  ghost function Covered(rs: seq<Range>): set<int> {
    if |rs| == 0 then {}
    else Covered(rs[..|rs| - 1]) + Span(rs[|rs| - 1].start, rs[|rs| - 1].end)
  }

  /** Covering one more range adds its span. */
  lemma CoveredSnoc(rs: seq<Range>, r: Range)
    ensures Covered(rs + [r]) == Covered(rs) + Span(r.start, r.end)
  {
    assert (rs + [r])[..|rs|] == rs;
  }

  /** An ID is in `Covered` exactly when `is_fresh` accepts it. */
  lemma {:induction false} CoveredCovers(rs: seq<Range>, x: int)
    ensures x in Covered(rs) <==> Covers(rs, x)
  {
    if |rs| > 0 {
      var init := rs[..|rs| - 1];
      CoveredCovers(init, x);
      SpanMembers(rs[|rs| - 1].start, rs[|rs| - 1].end, x);
      if Covers(init, x) {
        var i :| 0 <= i < |init| && init[i].start <= x <= init[i].end;
        assert rs[i] == init[i];
      }
      if Covers(rs, x) {
        var i :| 0 <= i < |rs| && rs[i].start <= x <= rs[i].end;
        if i < |init| {
          assert init[i] == rs[i];
        }
      }
    }
  }

  /**
   * The covered IDs depend only on which ranges occur, not on their order
   * or on how often each occurs.
   */
  lemma SameRangesSameCover(a: seq<Range>, b: seq<Range>)
    requires forall r :: r in a <==> r in b
    ensures Covered(a) == Covered(b)
  {
    forall x ensures x in Covered(a) <==> x in Covered(b) {
      CoveredCovers(a, x);
      CoveredCovers(b, x);
      if Covers(a, x) {
        var i :| 0 <= i < |a| && a[i].start <= x <= a[i].end;
        assert a[i] in b;
        var j :| 0 <= j < |b| && b[j] == a[i];
      }
      if Covers(b, x) {
        var j :| 0 <= j < |b| && b[j].start <= x <= b[j].end;
        assert b[j] in a;
        var i :| 0 <= i < |a| && a[i] == b[j];
      }
    }
  }

  // ---------------------------------------------------------------------
  // Part 2: sort, merge, count

  /** The order of Python's tuple comparison: by start, then by end. */
  predicate RangeLe(a: Range, b: Range) {
    a.start < b.start || (a.start == b.start && a.end <= b.end)
  }

  predicate Sorted(rs: seq<Range>) {
    forall i :: 0 <= i < |rs| - 1 ==> RangeLe(rs[i], rs[i + 1])
  }

  /** Insert `x` into a sorted list, after every range below it. */
  function Insert(x: Range, rs: seq<Range>): (r: seq<Range>)
    requires Sorted(rs)
    ensures Sorted(r)
    ensures multiset(r) == multiset(rs) + multiset{x}
    ensures |r| == |rs| + 1 && (r[0] == x || (|rs| > 0 && r[0] == rs[0]))
  {
    if |rs| == 0 then [x]
    else if RangeLe(x, rs[0]) then [x] + rs
    else
      assert rs == [rs[0]] + rs[1..];
      [rs[0]] + Insert(x, rs[1..])
  }

  /** `sorted(ranges)`: an ordered permutation of the ranges. */
  function SortRanges(rs: seq<Range>): (r: seq<Range>)
    ensures Sorted(r)
    ensures multiset(r) == multiset(rs)
  {
    if |rs| == 0 then []
    else
      assert rs == [rs[0]] + rs[1..];
      Insert(rs[0], SortRanges(rs[1..]))
  }

  /** Every range has `start <= end`. */
  predicate AllValid(rs: seq<Range>) {
    forall i :: 0 <= i < |rs| ==> rs[i].start <= rs[i].end
  }

  /** Consecutive ranges neither overlap nor touch. */
  predicate Separated(rs: seq<Range>) {
    forall i :: 0 <= i < |rs| - 1 ==> rs[i].end + 1 < rs[i + 1].start
  }

  /** Starts never decrease. */
  predicate StartsOrdered(rs: seq<Range>) {
    forall i :: 0 <= i < |rs| - 1 ==> rs[i].start <= rs[i + 1].start
  }

  function Max(a: int, b: int): int {
    if a >= b then a else b
  }

  /** Merging a range that starts inside or just after `ls..le` covers the same IDs. */
  lemma SpanMerge(ls: int, le: int, s: int, e: int)
    requires ls <= s <= le + 1
    ensures Span(ls, le) + Span(s, e) == Span(ls, Max(le, e))
  {
    forall x ensures x in Span(ls, le) + Span(s, e) <==> x in Span(ls, Max(le, e)) {
      SpanMembers(ls, le, x);
      SpanMembers(s, e, x);
      SpanMembers(ls, Max(le, e), x);
    }
  }

  /** One step of the merge loop: extend the last merged range by `r`, or append `r`. */
  function MergeOne(merged: seq<Range>, r: Range): (m: seq<Range>)
    requires |merged| >= 1
    ensures |merged| <= |m| <= |merged| + 1
  {
    var last := merged[|merged| - 1];
    if r.start <= last.end + 1 then merged[..|merged| - 1] + [Range(last.start, Max(last.end, r.end))]
    else merged + [r]
  }

  /** A merge step keeps the merged list separated and ordered and adds exactly the IDs of `r`. */
  lemma MergeOneSpec(merged: seq<Range>, r: Range)
    requires |merged| >= 1 && Separated(merged) && StartsOrdered(merged)
    requires merged[|merged| - 1].start <= r.start
    ensures Separated(MergeOne(merged, r)) && StartsOrdered(MergeOne(merged, r))
    ensures MergeOne(merged, r)[|MergeOne(merged, r)| - 1].start <= r.start
    ensures Covered(MergeOne(merged, r)) == Covered(merged) + Span(r.start, r.end)
    ensures AllValid(merged) && r.start <= r.end ==> AllValid(MergeOne(merged, r))
    ensures merged[|merged| - 1].end + 1 < r.start ==> MergeOne(merged, r) == merged + [r]
  {
    var last := merged[|merged| - 1];
    var init := merged[..|merged| - 1];
    assert merged == init + [last];
    CoveredSnoc(init, last);
    CoveredSnoc(merged, r);
    if r.start <= last.end + 1 {
      SpanMerge(last.start, last.end, r.start, r.end);
      CoveredSnoc(init, Range(last.start, Max(last.end, r.end)));
    }
  }

  /** What the merge loop keeps after taking the first `i` sorted ranges. */
  ghost predicate MergeInv(sorted: seq<Range>, i: nat, merged: seq<Range>)
    requires 1 <= i <= |sorted|
  {
    && 1 <= |merged| <= i
    && Separated(merged) && StartsOrdered(merged)
    && merged[|merged| - 1].start <= sorted[i - 1].start
    && Covered(merged) == Covered(sorted[..i])
    && (AllValid(sorted) ==> AllValid(merged))
    && (Separated(sorted) ==> merged == sorted[..i])
  }

  /** The loop starts from the first sorted range alone. */
  lemma MergeInvInit(sorted: seq<Range>)
    requires |sorted| >= 1
    ensures MergeInv(sorted, 1, [sorted[0]])
  {
    assert sorted[..1] == [sorted[0]];
    CoveredSnoc([], sorted[0]);
  }

  /** The merged ranges cover one more sorted range once its span is added. */
  lemma CoveredStep(sorted: seq<Range>, i: nat, merged: seq<Range>, m: seq<Range>)
    requires i < |sorted| && Covered(merged) == Covered(sorted[..i])
    requires Covered(m) == Covered(merged) + Span(sorted[i].start, sorted[i].end)
    ensures Covered(m) == Covered(sorted[..i + 1])
  {
    assert sorted[..i + 1] == sorted[..i] + [sorted[i]];
    CoveredSnoc(sorted[..i], sorted[i]);
  }

  /** Already separated input passes through the merge unchanged. */
  lemma MergeSeparatedStep(sorted: seq<Range>, i: nat, merged: seq<Range>)
    requires 1 <= i < |sorted| && Separated(sorted) && merged == sorted[..i]
    ensures MergeOne(merged, sorted[i]) == sorted[..i + 1]
  {
    assert merged[|merged| - 1] == sorted[i - 1];
    assert sorted[i - 1].end + 1 < sorted[i].start;
    assert sorted[..i + 1] == sorted[..i] + [sorted[i]];
  }

  /** A merge step takes the loop from `i` ranges to `i + 1`. */
  lemma MergeInvStep(sorted: seq<Range>, i: nat, merged: seq<Range>)
    requires 1 <= i < |sorted| && StartsOrdered(sorted) && MergeInv(sorted, i, merged)
    ensures MergeInv(sorted, i + 1, MergeOne(merged, sorted[i]))
  {
    var r := sorted[i];
    var m := MergeOne(merged, r);
    assert sorted[i - 1].start <= r.start;
    MergeOneSpec(merged, r);
    CoveredStep(sorted, i, merged, m);
    if AllValid(sorted) {
      assert r.start <= r.end;
    }
    if Separated(sorted) {
      MergeSeparatedStep(sorted, i, merged);
    }
  }

  /**
   * The merge loop of `day5_part2`: a range that starts no later than one
   * past the last merged end extends it, any other range is appended.
   */
  method MergeSorted(sorted: seq<Range>) returns (merged: seq<Range>)
    requires |sorted| >= 1 && StartsOrdered(sorted)
    ensures 1 <= |merged| <= |sorted|
    ensures Separated(merged) && StartsOrdered(merged)
    ensures Covered(merged) == Covered(sorted)
    ensures AllValid(sorted) ==> AllValid(merged)
    ensures Separated(sorted) ==> merged == sorted
  {
    merged := [sorted[0]];
    MergeInvInit(sorted);
    for i := 1 to |sorted|
      invariant MergeInv(sorted, i, merged)
    {
      var start, end := sorted[i].start, sorted[i].end;
      var last := merged[|merged| - 1];
      MergeInvStep(sorted, i, merged);
      ghost var next := MergeOne(merged, sorted[i]);
      if start <= last.end + 1 {
        merged := merged[..|merged| - 1] + [Range(last.start, Max(last.end, end))];
      } else {
        merged := merged + [Range(start, end)];
      }
      assert merged == next;
    }
    assert sorted[..|sorted|] == sorted;
  }

  /** `end - start + 1`, summed over the ranges. */
  function SumLengths(rs: seq<Range>): int {
    if |rs| == 0 then 0
    else SumLengths(rs[..|rs| - 1]) + (rs[|rs| - 1].end - rs[|rs| - 1].start + 1)
  }

  /** Separated valid ranges cover nothing beyond the last end. */
  lemma {:induction false} CoveredBelow(rs: seq<Range>)
    requires |rs| >= 1 && Separated(rs) && AllValid(rs)
    ensures forall x :: x in Covered(rs) ==> x <= rs[|rs| - 1].end
  {
    var init := rs[..|rs| - 1];
    var last := rs[|rs| - 1];
    assert Covered(rs) == Covered(init) + Span(last.start, last.end);
    assert last.start <= last.end;
    if |init| >= 1 {
      assert Separated(init) && AllValid(init);
      CoveredBelow(init);
      assert init[|init| - 1] == rs[|rs| - 2];
      assert rs[|rs| - 2].end + 1 < last.start;
    } else {
      assert Covered(init) == {};
    }
    forall x | x in Covered(rs) ensures x <= last.end {
      SpanMembers(last.start, last.end, x);
    }
  }

  /** For separated valid ranges the sum of lengths is the number of covered IDs. */
  lemma {:induction false} SeparatedSize(rs: seq<Range>)
    requires Separated(rs) && AllValid(rs)
    ensures SumLengths(rs) == |Covered(rs)|
  {
    if |rs| > 0 {
      var init := rs[..|rs| - 1];
      var last := rs[|rs| - 1];
      assert Separated(init) && AllValid(init);
      SeparatedSize(init);
      SpanSize(last.start, last.end);
      if |init| >= 1 {
        CoveredBelow(init);
        assert init[|init| - 1] == rs[|rs| - 2];
      }
      forall x | x in Covered(init) ensures x !in Span(last.start, last.end) {
        SpanMembers(last.start, last.end, x);
      }
      assert Covered(init) * Span(last.start, last.end) == {};
    }
  }

  /** A permutation has the same covered IDs and the same validity. */
  lemma PermutationCover(a: seq<Range>, b: seq<Range>)
    requires multiset(a) == multiset(b)
    ensures Covered(a) == Covered(b)
    ensures AllValid(a) ==> AllValid(b)
  {
    forall r ensures r in a <==> r in b {
      assert r in a <==> r in multiset(a);
      assert r in b <==> r in multiset(b);
    }
    SameRangesSameCover(a, b);
    if AllValid(a) {
      forall j | 0 <= j < |b| ensures b[j].start <= b[j].end {
        assert b[j] in multiset(b);
        var i :| 0 <= i < |a| && a[i] == b[j];
      }
    }
  }

  /** The counting loop of `day5_part2`. */
  method AddLengths(merged: seq<Range>) returns (total: int)
    ensures total == SumLengths(merged)
  {
    total := 0;
    for i := 0 to |merged|
      invariant total == SumLengths(merged[..i])
    {
      assert merged[..i + 1][..i] == merged[..i];
      total := total + (merged[i].end - merged[i].start + 1);
    }
    assert merged[..|merged|] == merged;
  }

  /**
   * What `day5_part2` computes from the ranges: 0 without ranges;
   * otherwise sort, merge and add the merged lengths, which is the number of
   * distinct covered IDs when every range has `start <= end`.
   */
  method MergedTotal(ranges: seq<Range>) returns (total: int)
    ensures ranges == [] ==> total == 0
    ensures AllValid(ranges) ==> total == |Covered(ranges)|
  {
    if |ranges| == 0 {
      return 0;
    }
    var sorted := SortRanges(ranges);
    var merged := MergeSorted(sorted);
    total := AddLengths(merged);
    PermutationCover(ranges, sorted);
    if AllValid(ranges) {
      SeparatedSize(merged);
    }
  }

  /** `day5_part2` on the content of its file. */
  method Day5Part2(content: string) returns (r: Option<int>)
    ensures Input(content).None? ==> r == None
    ensures Input(content).Some? && Input(content).value.ranges == [] ==> r == Some(0)
    ensures Input(content).Some? && AllValid(Input(content).value.ranges) ==>
              r == Some(|Covered(Input(content).value.ranges)|)
  {
    var inventory := ReadInput(content);
    if inventory.None? {
      return None;
    }
    var total := MergedTotal(inventory.value.ranges);
    r := Some(total);
  }
}
