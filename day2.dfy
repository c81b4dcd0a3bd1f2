/**
 * The repeated-pattern ID check of `day2/day2.py`: an ID is invalid when
 * its decimal string is one block written twice (part 1) or at least twice
 * (part 2), and `solve` adds every invalid ID of the comma-separated
 * `start-end` ranges of its input.
 */
module RepeatedIds {
  import opened Results
  import opened Text

  // ---------------------------------------------------------------------
  // The two predicates

  /** `pattern * m`. */
  function Repeat(pattern: string, m: nat): (s: string)
    ensures |s| == |pattern| * m
  {
    if m == 0 then [] else pattern + Repeat(pattern, m - 1)
  }

  /** The test `is_invalid_id_part1` applies to `str(num)`: even length at least 2, equal halves. */
  predicate HalvesEqual(s: string) {
    var length := |s|;
    if length % 2 != 0 || length < 2 then false
    else
      var half := length / 2;
      s[..half] == s[half..]
  }

  /** `is_invalid_id_part1`. */
  predicate IsInvalidPart1(num: nat) {
    HalvesEqual(DecimalString(num))
  }

  /** The halves test holds exactly when the string is some block written twice. */
  lemma HalvesEqualIsDouble(s: string)
    ensures HalvesEqual(s) <==> exists t :: |t| >= 1 && s == t + t
  {
    if HalvesEqual(s) {
      var half := |s| / 2;
      assert s == s[..half] + s[half..];
    }
    if t :| |t| >= 1 && s == t + t {
      assert s[..|t|] == t && s[|t|..] == t;
    }
  }

  /** `s` is its first `p` characters repeated `len/p` times. */
  predicate RepeatsPrefix(s: string, p: nat)
    requires 1 <= p <= |s|
  {
    |s| % p == 0 && Repeat(s[..p], |s| / p) == s
  }

  /**
   * The condition `is_invalid_id_part2` searches `str(num)` for: a pattern
   * length `p` in `1..len/2` whose prefix, repeated, rebuilds the string.
   */
  ghost predicate HasRepeatedPrefix(s: string) {
    exists p :: 1 <= p <= |s| / 2 && RepeatsPrefix(s, p)
  }

  /** The condition of `is_invalid_id_part2`. */
  ghost predicate IsInvalidPart2(num: nat) {
    HasRepeatedPrefix(DecimalString(num))
  }

  /** The first `|t|` characters of `Repeat(t, m)`, `m >= 1`, are `t`. */
  lemma RepeatPrefix(t: string, m: nat)
    requires m >= 1
    ensures Repeat(t, m)[..|t|] == t
  {
  }

  /** Euclidean division is unique: `n == d*q + r` with `0 <= r < d` fixes `n / d` and `n % d`. */
  lemma DivUnique(n: int, d: nat, q: int, r: int)
    requires d >= 1 && n == d * q + r && 0 <= r < d
    ensures n / d == q && n % d == r
  {
    var q', r' := n / d, n % d;
    assert d * (q' - q) == r - r';
    assert d * (q - q') == r' - r;
    MulAtLeast(d, q' - q);
    MulAtLeast(d, q - q');
  }

  /** A length divisible by `p <= len/2` has at least two blocks. */
  lemma TwoBlocks(n: nat, p: nat)
    requires 1 <= p <= n / 2 && n % p == 0
    ensures n / p >= 2 && p * (n / p) == n
  {
    var q := n / p;
    assert n == p * q;
    MulAtLeast(p, 2 - q);
    assert p * (2 - q) == 2 * p - n;
  }

  /** The prefix search succeeds exactly when the string is some block written at least twice. */
  lemma HasRepeatedPrefixIsRepetition(s: string)
    ensures HasRepeatedPrefix(s) <==> exists t, m :: |t| >= 1 && m >= 2 && s == Repeat(t, m)
  {
    if HasRepeatedPrefix(s) {
      var p :| 1 <= p <= |s| / 2 && RepeatsPrefix(s, p);
      TwoBlocks(|s|, p);
      assert s == Repeat(s[..p], |s| / p);
    }
    if t, m :| |t| >= 1 && m >= 2 && s == Repeat(t, m) {
      RepeatPrefix(t, m);
      DivUnique(|s|, |t|, m, 0);
      assert |t| * 2 <= |t| * m;
      assert RepeatsPrefix(s, |t|);
    }
  }

  /** "Repeated exactly twice" is a case of "repeated at least twice". */
  lemma Part1ImpliesPart2(num: nat)
    requires IsInvalidPart1(num)
    ensures IsInvalidPart2(num)
  {
    var s := DecimalString(num);
    HalvesEqualIsDouble(s);
    var t :| |t| >= 1 && s == t + t;
    assert Repeat(t, 2) == t + t;
    HasRepeatedPrefixIsRepetition(s);
  }

  /** A single digit is never invalid. */
  lemma SingleDigitValid(num: nat)
    requires num < 10
    ensures !IsInvalidPart1(num) && !IsInvalidPart2(num)
  {
  }

  /**
   * `is_invalid_id_part2`: tries every pattern length from 1 to `len/2`
   * and stops at the first one that rebuilds the string.
   */
  method InvalidPart2(num: nat) returns (b: bool)
    ensures b == IsInvalidPart2(num)
  {
    var s := DecimalString(num);
    var length := |s|;
    for patternLength := 1 to length / 2 + 1
      invariant forall p :: 1 <= p < patternLength ==> !RepeatsPrefix(s, p)
    {
      if length % patternLength == 0 {
        var pattern := s[..patternLength];
        if Repeat(pattern, length / patternLength) == s {
          assert RepeatsPrefix(s, patternLength);
          return true;
        }
      }
    }
    return false;
  }

  // ---------------------------------------------------------------------
  // Input

  /** One inclusive range of IDs. `int()` of a piece without `-` is never negative. */
  datatype Range = Range(start: nat, end: nat)

  /** A piece of `split('-')` has no minus sign, so its value is not negative. */
  lemma PieceNotNegative(item: string, p: nat)
    requires p < |Split(item, "-")| && ParseInt(Split(item, "-")[p]).Some?
    ensures ParseInt(Split(item, "-")[p]).value >= 0
  {
    var piece := Split(item, "-");
    if ParseInt(piece[p]).value < 0 {
      ParseIntNegative(piece[p]);
      var j :| 0 <= j < |piece[p]| && piece[p][j] == '-';
      SplitOnChar(item, '-', p, j);
    }
  }

  /** `start, end = map(int, item.split('-'))`: exactly two integer pieces. */
  function ParseRange(item: string): Option<Range> {
    var pieces := Split(item, "-");
    if |pieces| != 2 then None
    else
      match (ParseInt(pieces[0]), ParseInt(pieces[1]))
      case (Some(a), Some(b)) =>
        PieceNotNegative(item, 0);
        PieceNotNegative(item, 1);
        Some(Range(a, b))
      case _ => None
  }

  /** `solve` reads `start-end` back from the way Python writes a range. */
  lemma ParseRangeFormat(r: Range)
    ensures ParseRange(DecimalString(r.start) + "-" + DecimalString(r.end)) == Some(r)
  {
    var a, b := DecimalString(r.start), DecimalString(r.end);
    SplitAtDash(a, b);
    ParseDigits(a);
    ParseDigits(b);
  }

  /** What the parsing loop of `solve` does with one comma-separated item. */
  function ItemStep(item: string): Step<Range> {
    var t := Strip(item);
    if t == [] then Skip
    else
      match ParseRange(t)
      case None => Fail
      case Some(r) => Keep(r)
  }

  /** The step taken for each item. */
  function ItemSteps(items: seq<string>): (steps: seq<Step<Range>>)
    ensures |steps| == |items|
  {
    seq(|items|, i requires 0 <= i < |items| => ItemStep(items[i]))
  }

  /**
   * The ranges of the first `n` comma-separated items, each stripped and
   * the empty ones skipped; `None` once an item does not parse.
   */
  function ParseItems(items: seq<string>, n: nat): Option<seq<Range>>
    requires n <= |items|
  {
    Gather(ItemSteps(items), n)
  }

  /** One more item, as the parsing loop of `solve` takes it. */
  lemma ParseItemsStep(items: seq<string>, i: nat, ranges: seq<Range>)
    requires i < |items| && ParseItems(items, i) == Some(ranges)
    ensures Strip(items[i]) == [] ==> ParseItems(items, i + 1) == Some(ranges)
    ensures Strip(items[i]) != [] && ParseRange(Strip(items[i])).Some? ==>
              ParseItems(items, i + 1) == Some(ranges + [ParseRange(Strip(items[i])).value])
    ensures Strip(items[i]) != [] && ParseRange(Strip(items[i])).None? ==>
              ParseItems(items, |items|) == None
  {
    var steps := ItemSteps(items);
    assert steps[i] == ItemStep(items[i]);
    GatherStep(steps, i, ranges);
  }

  /** The ranges of `solve`'s input: the stripped content split on commas. */
  function ParseRanges(content: string): Option<seq<Range>> {
    var items := Split(Strip(content), ",");
    ParseItems(items, |items|)
  }

  // ---------------------------------------------------------------------
  // The sum

  /** The selected predicate. */
  ghost predicate IsInvalid(num: nat, part2: bool) {
    if part2 then IsInvalidPart2(num) else IsInvalidPart1(num)
  }

  /** The sum of the invalid IDs in `lo..hi`, both included. */
  ghost function RangeTotal(lo: nat, hi: int, part2: bool): nat
    decreases hi - lo
  {
    if hi < lo then 0
    else RangeTotal(lo, hi - 1, part2) + (if IsInvalid(hi, part2) then hi else 0)
  }

  /** The sum over the first `n` ranges. */
  ghost function Total(ranges: seq<Range>, n: nat, part2: bool): nat
    requires n <= |ranges|
  {
    if n == 0 then 0
    else Total(ranges, n - 1, part2) + RangeTotal(ranges[n - 1].start, ranges[n - 1].end, part2)
  }

  /** IDs below 10 add nothing. */
  lemma {:induction false} RangeTotalSingleDigits(lo: nat, hi: int, part2: bool)
    requires hi < 10
    ensures RangeTotal(lo, hi, part2) == 0
    decreases hi - lo
  {
    if hi >= lo {
      SingleDigitValid(hi);
      RangeTotalSingleDigits(lo, hi - 1, part2);
    }
  }

  /** Part 1 never adds more than part 2 over the same range. */
  lemma {:induction false} RangeTotalPart1AtMostPart2(lo: nat, hi: int)
    ensures RangeTotal(lo, hi, false) <= RangeTotal(lo, hi, true)
    decreases hi - lo
  {
    if hi >= lo {
      RangeTotalPart1AtMostPart2(lo, hi - 1);
      if IsInvalidPart1(hi) {
        Part1ImpliesPart2(hi);
      }
    }
  }

  /** Over the same input, part 1's total never exceeds part 2's. */
  lemma {:induction false} TotalPart1AtMostPart2(ranges: seq<Range>, n: nat)
    requires n <= |ranges|
    ensures Total(ranges, n, false) <= Total(ranges, n, true)
  {
    if n > 0 {
      TotalPart1AtMostPart2(ranges, n - 1);
      RangeTotalPart1AtMostPart2(ranges[n - 1].start, ranges[n - 1].end);
    }
  }

  /** `solve` on its input: `None` when a range does not parse. */
  ghost function Answer(content: string, part2: bool): Option<nat> {
    match ParseRanges(content)
    case None => None
    case Some(ranges) => Some(Total(ranges, |ranges|, part2))
  }

  /** The parsing loop of `solve`: strips each comma-separated item, skips empty ones. */
  method ReadRanges(items: seq<string>) returns (r: Option<seq<Range>>)
    ensures r == ParseItems(items, |items|)
  {
    var ranges: seq<Range> := [];
    for i := 0 to |items|
      invariant ParseItems(items, i) == Some(ranges)
    {
      ParseItemsStep(items, i, ranges);
      var item := Strip(items[i]);
      if item != [] {
        var parsed := ParseRange(item);
        if parsed.None? {
          return None;
        }
        ranges := ranges + [parsed.value];
      }
    }
    r := Some(ranges);
  }

  /** The inner loop of `solve`: every invalid ID from `start` to `end`, both included. */
  method RangeSum(start: nat, end: nat, part2: bool) returns (sum: nat)
    ensures sum == RangeTotal(start, end, part2)
  {
    sum := 0;
    var num: int := start;
    while num <= end
      invariant start <= num <= end + 1 || (num == start && end < start)
      invariant sum == RangeTotal(start, num - 1, part2)
      decreases end - num
    {
      var invalid;
      if part2 {
        invalid := InvalidPart2(num);
      } else {
        invalid := IsInvalidPart1(num);
      }
      if invalid {
        sum := sum + num;
      }
      num := num + 1;
    }
  }

  /** The summing loops of `solve`: every invalid ID of every range, in order. */
  method SumInvalid(ranges: seq<Range>, part2: bool) returns (total: nat)
    ensures total == Total(ranges, |ranges|, part2)
  {
    total := 0;
    for i := 0 to |ranges|
      invariant total == Total(ranges, i, part2)
    {
      var sum := RangeSum(ranges[i].start, ranges[i].end, part2);
      total := total + sum;
    }
  }

  /** `solve`: parses the ranges, then adds every invalid ID of every range. */
  method Solve(content: string, part2: bool) returns (r: Option<nat>)
    ensures r == Answer(content, part2)
  {
    var items := Split(Strip(content), ",");
    var ranges := ReadRanges(items);
    if ranges.None? {
      return None;
    }
    var total := SumInvalid(ranges.value, part2);
    r := Some(total);
  }
}
