/**
 * The column-block worksheet of `day6/day6.py`: the lines are padded to a
 * common width, columns of spaces split the columns into problems, and each
 * problem's operands (read along the rows in part 1, down the columns from
 * right to left in part 2) are added or multiplied as the operator in its
 * last row says. The answer is the sum of the problem values.
 */
module Worksheet {
  import opened Results
  import opened Text

  /** The inclusive column span `start..end` of one problem. */
  datatype Group = Group(start: nat, end: nat)

  /** Why a worksheet has no total: the `ValueError`s `day6` raises. */
  datatype SheetError =
    | NoOperator(start: nat, end: nat)
    | UnknownOperator(op: char)

  // ---------------------------------------------------------------------
  // Padding and blank columns

  /** `max(len(l) for l in lines)`. */
  function MaxWidth(lines: seq<string>): (w: nat)
    requires |lines| >= 1
    ensures forall r :: 0 <= r < |lines| ==> |lines[r]| <= w
    ensures exists r :: 0 <= r < |lines| && |lines[r]| == w
  {
    if |lines| == 1 then |lines[0]|
    else
      var w := MaxWidth(lines[1..]);
      assert forall r :: 1 <= r < |lines| ==> lines[r] == lines[1..][r - 1];
      if |lines[0]| >= w then |lines[0]| else w
  }

  /** `n` spaces. */
  function Spaces(n: nat): (s: string)
    ensures |s| == n && forall i :: 0 <= i < n ==> s[i] == ' '
  {
    seq(n, _ => ' ')
  }

  /** `l.ljust(cols)`: spaces appended up to `cols` characters. */
  function LJust(l: string, cols: nat): string {
    if |l| >= cols then l else l + Spaces(cols - |l|)
  }

  /** `[l.ljust(cols) for l in lines]`. */
  function Pad(lines: seq<string>, cols: nat): seq<string> {
    seq(|lines|, r requires 0 <= r < |lines| => LJust(lines[r], cols))
  }

  /** Every line has exactly `cols` characters. */
  predicate Rectangular(lines: seq<string>, cols: nat) {
    forall r :: 0 <= r < |lines| ==> |lines[r]| == cols
  }

  /**
   * Padding to the widest line makes the lines rectangular, keeps every
   * line as a prefix and fills the rest with spaces.
   */
  lemma PadSpec(lines: seq<string>)
    requires |lines| >= 1
    ensures Rectangular(Pad(lines, MaxWidth(lines)), MaxWidth(lines))
    ensures |Pad(lines, MaxWidth(lines))| == |lines|
    ensures forall r, c :: 0 <= r < |lines| && 0 <= c < MaxWidth(lines) ==>
              Pad(lines, MaxWidth(lines))[r][c] == if c < |lines[r]| then lines[r][c] else ' '
  {
  }

  /** Column `c` holds a space in every row. */
  predicate BlankColumn(padded: seq<string>, cols: nat, c: nat)
    requires Rectangular(padded, cols) && c < cols
  {
    forall r :: 0 <= r < |padded| ==> padded[r][c] == ' '
  }

  /** The list `blank` of `day6`. */
  function Blanks(padded: seq<string>, cols: nat): (blank: seq<bool>)
    requires Rectangular(padded, cols)
    ensures |blank| == cols
  {
    seq(cols, c requires 0 <= c < cols => BlankColumn(padded, cols, c))
  }

  /**
   * After padding, a column is blank exactly when every line is too short to
   * reach it or has a space there.
   */
  lemma BlanksSpec(lines: seq<string>, c: nat)
    requires |lines| >= 1 && c < MaxWidth(lines)
    ensures Rectangular(Pad(lines, MaxWidth(lines)), MaxWidth(lines))
    ensures Blanks(Pad(lines, MaxWidth(lines)), MaxWidth(lines))[c] <==>
              forall r :: 0 <= r < |lines| ==> c >= |lines[r]| || lines[r][c] == ' '
  {
    var cols := MaxWidth(lines);
    var padded := Pad(lines, cols);
    PadSpec(lines);
    if Blanks(padded, cols)[c] {
      forall r | 0 <= r < |lines| ensures c >= |lines[r]| || lines[r][c] == ' ' {
        assert padded[r][c] == ' ';
      }
    }
  }

  // ---------------------------------------------------------------------
  // Groups

  /** The first blank column at or after `c`, or `|blank|`. */
  function RunEnd(blank: seq<bool>, c: nat): (e: nat)
    requires c <= |blank|
    ensures c <= e <= |blank|
    ensures c < |blank| && !blank[c] ==> e > c
    decreases |blank| - c
  {
    if c == |blank| || blank[c] then c else RunEnd(blank, c + 1)
  }

  /** `RunEnd` stops at the first blank column and skips only non-blank ones. */
  lemma {:induction false} RunEndSpec(blank: seq<bool>, c: nat)
    requires c <= |blank|
    ensures RunEnd(blank, c) == |blank| || blank[RunEnd(blank, c)]
    ensures forall j :: c <= j < RunEnd(blank, c) ==> !blank[j]
    decreases |blank| - c
  {
    if c < |blank| && !blank[c] {
      RunEndSpec(blank, c + 1);
    }
  }

  /** The groups the scan of `day6` finds from column `c` on. */
  function GroupsFrom(blank: seq<bool>, c: nat): seq<Group>
    requires c <= |blank|
    decreases |blank| - c
  {
    if c == |blank| then []
    else if blank[c] then GroupsFrom(blank, c + 1)
    else
      var e := RunEnd(blank, c);
      [Group(c, e - 1)] + GroupsFrom(blank, e)
  }

  /** A maximal run of non-blank columns. */
  predicate IsRun(blank: seq<bool>, g: Group) {
    && g.start <= g.end < |blank|
    && (forall j :: g.start <= j <= g.end ==> !blank[j])
    && (g.start == 0 || blank[g.start - 1])
    && (g.end + 1 == |blank| || blank[g.end + 1])
  }

  /** Where a scan may start: at the left edge, the right edge, or next to a blank column. */
  predicate ScanPoint(blank: seq<bool>, c: nat) {
    c == 0 || c >= |blank| || blank[c - 1] || blank[c]
  }

  /** Every group found is a maximal run at or after `c`. */
  lemma {:induction false} GroupsAreRuns(blank: seq<bool>, c: nat)
    requires c <= |blank| && ScanPoint(blank, c)
    ensures forall i :: 0 <= i < |GroupsFrom(blank, c)| ==>
              IsRun(blank, GroupsFrom(blank, c)[i]) && GroupsFrom(blank, c)[i].start >= c
    decreases |blank| - c
  {
    if c < |blank| {
      if blank[c] {
        GroupsAreRuns(blank, c + 1);
      } else {
        var e := RunEnd(blank, c);
        RunEndSpec(blank, c);
        GroupsAreRuns(blank, e);
      }
    }
  }

  /** The groups come left to right, each separated from the next by a blank column. */
  lemma {:induction false} GroupsOrdered(blank: seq<bool>, c: nat)
    requires c <= |blank| && ScanPoint(blank, c)
    ensures forall i, k :: 0 <= i < k < |GroupsFrom(blank, c)| ==>
              GroupsFrom(blank, c)[i].end + 1 < GroupsFrom(blank, c)[k].start
    decreases |blank| - c
  {
    if c < |blank| {
      if blank[c] {
        GroupsOrdered(blank, c + 1);
      } else {
        var e := RunEnd(blank, c);
        RunEndSpec(blank, c);
        GroupsOrdered(blank, e);
        GroupsAreRuns(blank, e);
        var gs := GroupsFrom(blank, c);
        assert gs == [Group(c, e - 1)] + GroupsFrom(blank, e);
        forall k | 1 <= k < |gs| ensures e < gs[k].start {
          assert gs[k] == GroupsFrom(blank, e)[k - 1];
        }
      }
    }
  }

  /** Every non-blank column at or after `c` lies in some group. */
  lemma {:induction false} GroupsCover(blank: seq<bool>, c: nat, j: nat)
    requires c <= j < |blank| && !blank[j]
    ensures exists i :: 0 <= i < |GroupsFrom(blank, c)| &&
              GroupsFrom(blank, c)[i].start <= j <= GroupsFrom(blank, c)[i].end
    decreases |blank| - c
  {
    var gs := GroupsFrom(blank, c);
    if blank[c] {
      GroupsCover(blank, c + 1, j);
    } else {
      var e := RunEnd(blank, c);
      RunEndSpec(blank, c);
      if j < e {
        assert gs[0] == Group(c, e - 1);
      } else {
        GroupsCover(blank, e, j);
        var i :| 0 <= i < |GroupsFrom(blank, e)| &&
                 GroupsFrom(blank, e)[i].start <= j <= GroupsFrom(blank, e)[i].end;
        assert gs[i + 1] == GroupsFrom(blank, e)[i];
      }
    }
  }

  /**
   * The groups of a row of column flags: maximal non-blank runs, in order,
   * disjoint, and every non-blank column lies in exactly one of them.
   */
  lemma GroupsSpec(blank: seq<bool>, j: nat)
    ensures forall i :: 0 <= i < |GroupsFrom(blank, 0)| ==> IsRun(blank, GroupsFrom(blank, 0)[i])
    ensures forall i, k :: 0 <= i < k < |GroupsFrom(blank, 0)| ==>
              GroupsFrom(blank, 0)[i].end + 1 < GroupsFrom(blank, 0)[k].start
    ensures j < |blank| && !blank[j] ==>
              exists i :: 0 <= i < |GroupsFrom(blank, 0)| &&
                GroupsFrom(blank, 0)[i].start <= j <= GroupsFrom(blank, 0)[i].end
    ensures forall i, k ::
              (0 <= i < |GroupsFrom(blank, 0)| && 0 <= k < |GroupsFrom(blank, 0)| &&
               GroupsFrom(blank, 0)[i].start <= j <= GroupsFrom(blank, 0)[i].end &&
               GroupsFrom(blank, 0)[k].start <= j <= GroupsFrom(blank, 0)[k].end) ==> i == k
  {
    GroupsAreRuns(blank, 0);
    GroupsOrdered(blank, 0);
    if j < |blank| && !blank[j] {
      GroupsCover(blank, 0, j);
    }
  }

  /** The group scan of `day6`: skip blank columns, then take a whole non-blank run. */
  method FindGroups(blank: seq<bool>) returns (groups: seq<Group>)
    ensures groups == GroupsFrom(blank, 0)
  {
    var cols := |blank|;
    groups := [];
    var c := 0;
    while c < cols
      invariant c <= cols
      invariant groups + GroupsFrom(blank, c) == GroupsFrom(blank, 0)
      decreases cols - c
    {
      if blank[c] {
        c := c + 1;
        continue;
      }
      var start := c;
      while c < cols && !blank[c]
        invariant start <= c <= cols
        invariant RunEnd(blank, c) == RunEnd(blank, start)
        decreases cols - c
      {
        c := c + 1;
      }
      var end := c - 1;
      groups := groups + [Group(start, end)];
    }
  }

  // ---------------------------------------------------------------------
  // Operands

  /** The characters of `s` that are digits, in order. */
  function KeepDigits(s: string): (d: string)
    ensures |d| <= |s| && AllDigits(d)
  {
    if |s| == 0 then []
    else if IsDigit(s[0]) then [s[0]] + KeepDigits(s[1..])
    else KeepDigits(s[1..])
  }

  /** Filtering digits distributes over concatenation. */
  lemma {:induction false} KeepDigitsAppend(a: string, b: string)
    ensures KeepDigits(a + b) == KeepDigits(a) + KeepDigits(b)
  {
    if |a| > 0 {
      assert (a + b)[1..] == a[1..] + b;
      KeepDigitsAppend(a[1..], b);
    } else {
      assert a + b == b;
    }
  }

  /** A string of digits keeps every character. */
  lemma {:induction false} KeepDigitsAll(s: string)
    requires AllDigits(s)
    ensures KeepDigits(s) == s
  {
    if |s| > 0 {
      KeepDigitsAll(s[1..]);
    }
  }

  /** The length of the digit run at the start of `s`. */
  function DigitPrefix(s: string): (k: nat)
    ensures k <= |s|
    ensures |s| > 0 && IsDigit(s[0]) ==> k >= 1
  {
    if |s| == 0 || !IsDigit(s[0]) then 0 else 1 + DigitPrefix(s[1..])
  }

  /** The run is all digits and stops at a non-digit or at the end. */
  lemma {:induction false} DigitPrefixSpec(s: string)
    ensures AllDigits(s[..DigitPrefix(s)])
    ensures DigitPrefix(s) == |s| || !IsDigit(s[DigitPrefix(s)])
  {
    if |s| > 0 && IsDigit(s[0]) {
      DigitPrefixSpec(s[1..]);
      assert s[..DigitPrefix(s)] == [s[0]] + s[1..][..DigitPrefix(s[1..])];
    }
  }

  /** `re.findall(r"\d+", s)`: the maximal digit runs of `s`, left to right. */
  function Runs(s: string): seq<string>
    decreases |s|
  {
    if |s| == 0 then []
    else if !IsDigit(s[0]) then Runs(s[1..])
    else
      var k := DigitPrefix(s);
      [s[..k]] + Runs(s[k..])
  }

  /** The pieces of `ws` one after the other. */
  function Concat(ws: seq<string>): string {
    if |ws| == 0 then [] else ws[0] + Concat(ws[1..])
  }

  /** Every run is a non-empty digit string. */
  lemma {:induction false} RunsAreDigits(s: string)
    ensures forall i :: 0 <= i < |Runs(s)| ==> |Runs(s)[i]| >= 1 && AllDigits(Runs(s)[i])
    decreases |s|
  {
    if |s| > 0 {
      if !IsDigit(s[0]) {
        RunsAreDigits(s[1..]);
      } else {
        var k := DigitPrefix(s);
        DigitPrefixSpec(s);
        RunsAreDigits(s[k..]);
        var rs, tail := Runs(s), Runs(s[k..]);
        assert rs == [s[..k]] + tail;
        forall i | 0 <= i < |rs| ensures |rs[i]| >= 1 && AllDigits(rs[i]) {
          if i > 0 {
            assert rs[i] == tail[i - 1];
          }
        }
      }
    }
  }

  /** Together the runs are exactly the digits of `s`. */
  lemma {:induction false} RunsConcat(s: string)
    ensures Concat(Runs(s)) == KeepDigits(s)
    decreases |s|
  {
    if |s| > 0 {
      if !IsDigit(s[0]) {
        RunsConcat(s[1..]);
      } else {
        var k := DigitPrefix(s);
        DigitPrefixSpec(s);
        RunsConcat(s[k..]);
        var rs := Runs(s);
        assert rs == [s[..k]] + Runs(s[k..]);
        assert rs[1..] == Runs(s[k..]);
        assert Concat(rs) == s[..k] + KeepDigits(s[k..]);
        assert s == s[..k] + s[k..];
        KeepDigitsAppend(s[..k], s[k..]);
        KeepDigitsAll(s[..k]);
      }
    }
  }

  /** Every run is a non-empty digit string, and together they are exactly the digits of `s`. */
  lemma RunsSpec(s: string)
    ensures forall i :: 0 <= i < |Runs(s)| ==> |Runs(s)[i]| >= 1 && AllDigits(Runs(s)[i])
    ensures Concat(Runs(s)) == KeepDigits(s)
  {
    RunsAreDigits(s);
    RunsConcat(s);
  }

  /** `t` holds no digit. */
  predicate NoDigits(t: string) {
    forall i :: 0 <= i < |t| ==> !IsDigit(t[i])
  }

  /**
   * The words `ws` laid out between the gaps: `gaps[0] + ws[0] + gaps[1] +
   * ... + ws[n-1] + gaps[n]`. Every string is such a layout of its digit
   * runs, with digit-free gaps of which the inner ones are non-empty.
   */
  function Layout(ws: seq<string>, gaps: seq<string>): string
    requires |gaps| == |ws| + 1
    decreases |ws|
  {
    if |ws| == 0 then gaps[0] else gaps[0] + ws[0] + Layout(ws[1..], gaps[1..])
  }

  /** A layout starts with its first gap. */
  lemma LayoutStart(ws: seq<string>, gaps: seq<string>)
    requires |gaps| == |ws| + 1
    ensures |ws| >= 1 ==> Layout(ws, gaps)[..|gaps[0]|] == gaps[0]
    ensures |ws| == 0 ==> Layout(ws, gaps) == gaps[0]
  {
  }

  /** Non-digits in front do not change the runs. */
  lemma {:induction false} RunsSkip(p: string, t: string)
    requires NoDigits(p)
    ensures Runs(p + t) == Runs(t)
    decreases |p|
  {
    if |p| > 0 {
      assert (p + t)[1..] == p[1..] + t;
      RunsSkip(p[1..], t);
    } else {
      assert p + t == t;
    }
  }

  /**
   * Maximality of the runs: digit words laid out between digit-free gaps, the
   * inner gaps non-empty, come back as exactly those words, however wide the
   * gaps are.
   */
  lemma {:induction false} RunsOfLayout(ws: seq<string>, gaps: seq<string>)
    requires |gaps| == |ws| + 1
    requires forall i :: 0 <= i < |ws| ==> |ws[i]| >= 1 && AllDigits(ws[i])
    requires forall i :: 0 <= i < |gaps| ==> NoDigits(gaps[i])
    requires forall i :: 0 < i < |ws| ==> |gaps[i]| >= 1
    ensures Runs(Layout(ws, gaps)) == ws
    decreases |ws|
  {
    if |ws| == 0 {
      RunsNoDigits(gaps[0]);
    } else {
      var rest := Layout(ws[1..], gaps[1..]);
      RunsOfLayout(ws[1..], gaps[1..]);
      LayoutStart(ws[1..], gaps[1..]);
      if |ws| >= 2 {
        assert rest[0] == rest[..|gaps[1]|][0] == gaps[1][0];
      }
      assert |rest| == 0 || !IsDigit(rest[0]);
      RunsWord(ws[0], rest);
      RunsSkip(gaps[0], ws[0] + rest);
      assert gaps[0] + ws[0] + rest == gaps[0] + (ws[0] + rest);
      assert [ws[0]] + ws[1..] == ws;
    }
  }

  /** A digit string followed by a non-digit (or nothing) is one run. */
  lemma RunsWord(w: string, t: string)
    requires |w| >= 1 && AllDigits(w)
    requires |t| == 0 || !IsDigit(t[0])
    ensures Runs(w + t) == [w] + Runs(t)
  {
    var s := w + t;
    DigitPrefixWord(w, t);
    assert s[..|w|] == w && s[|w|..] == t;
  }

  lemma {:induction false} DigitPrefixWord(w: string, t: string)
    requires AllDigits(w)
    requires |t| == 0 || !IsDigit(t[0])
    ensures DigitPrefix(w + t) == |w|
  {
    if |w| > 0 {
      assert (w + t)[1..] == w[1..] + t;
      DigitPrefixWord(w[1..], t);
    } else {
      assert w + t == t;
    }
  }

  /** The `int` of each run. */
  function Values(ts: seq<string>): (vs: seq<int>)
    requires forall i :: 0 <= i < |ts| ==> AllDigits(ts[i])
    ensures |vs| == |ts|
  {
    seq(|ts|, i requires 0 <= i < |ts| => DigitsValue(ts[i]) as int)
  }

  /** The numbers `day6` reads from one row segment. */
  function Numbers(seg: string): seq<int> {
    RunsSpec(seg);
    Values(Runs(seg))
  }

  /** Part 1 operands of group `g`: the numbers of the first `n` rows, top to bottom. */
  function RowOperands(padded: seq<string>, cols: nat, g: Group, n: nat): seq<int>
    requires Rectangular(padded, cols) && g.start <= g.end < cols && n <= |padded|
  {
    if n == 0 then []
    else RowOperands(padded, cols, g, n - 1) + Numbers(padded[n - 1][g.start..g.end + 1])
  }

  /** The characters of column `col` in the first `n` rows, top to bottom. */
  function ColumnChars(padded: seq<string>, cols: nat, col: nat, n: nat): (s: string)
    requires Rectangular(padded, cols) && col < cols && n <= |padded|
    ensures |s| == n
  {
    if n == 0 then [] else ColumnChars(padded, cols, col, n - 1) + [padded[n - 1][col]]
  }

  /**
   * Part 2 operands of group `g` from its `k` rightmost columns, right to
   * left: each column's digits over the operand rows, skipping columns
   * without digits.
   */
  function ColumnOperands(padded: seq<string>, cols: nat, g: Group, k: nat): seq<int>
    requires Rectangular(padded, cols) && |padded| >= 1 && g.start <= g.end < cols
    requires k <= g.end - g.start + 1
  {
    if k == 0 then []
    else
      var digits := KeepDigits(ColumnChars(padded, cols, g.end - (k - 1), |padded| - 1));
      ColumnOperands(padded, cols, g, k - 1) + (if digits == [] then [] else [DigitsValue(digits) as int])
  }

  /** The operands of group `g` in the chosen reading. */
  function Operands(padded: seq<string>, cols: nat, g: Group, part2: bool): seq<int>
    requires Rectangular(padded, cols) && |padded| >= 1 && g.start <= g.end < cols
  {
    if part2 then ColumnOperands(padded, cols, g, g.end - g.start + 1)
    else RowOperands(padded, cols, g, |padded| - 1)
  }

  // ---------------------------------------------------------------------
  // Operator and value

  predicate IsOp(c: char) {
    c == '+' || c == '*'
  }

  /** `re.search(r"[+*]", seg)`: where the first `+` or `*` is. */
  function FirstOp(seg: string): (r: Option<nat>)
    ensures r.Some? ==> r.value < |seg| && IsOp(seg[r.value])
  {
    if |seg| == 0 then None
    else if IsOp(seg[0]) then Some(0)
    else
      match FirstOp(seg[1..])
      case None => None
      case Some(i) => Some(i + 1)
  }

  /** No `+` or `*` comes before the one found, or there is none at all. */
  lemma {:induction false} FirstOpFirst(seg: string)
    ensures forall i :: 0 <= i < (if FirstOp(seg).Some? then FirstOp(seg).value else |seg|) ==>
              !IsOp(seg[i])
  {
    if |seg| > 0 && !IsOp(seg[0]) {
      FirstOpFirst(seg[1..]);
    }
  }

  /**
   * The operator of a group from its last-row segment: the first `+` or
   * `*`; failing that, the first character after stripping; failing that
   * (the segment is whitespace), no operator.
   */
  function Operator(seg: string, g: Group): Result<char, SheetError> {
    match FirstOp(seg)
    case Some(i) => Ok(seg[i])
    case None =>
      var s := Strip(seg);
      if s == [] then Err(NoOperator(g.start, g.end)) else Ok(s[0])
  }

  /** The two-stage operator choice, case by case. */
  lemma OperatorSpec(seg: string, g: Group)
    ensures Operator(seg, g) == Err(NoOperator(g.start, g.end)) <==> IsBlank(seg)
    ensures Operator(seg, g).Err? ==> Operator(seg, g) == Err(NoOperator(g.start, g.end))
    ensures (exists i :: 0 <= i < |seg| && IsOp(seg[i])) ==>
              exists i :: 0 <= i < |seg| && Operator(seg, g) == Ok(seg[i]) && IsOp(seg[i]) &&
                forall j :: 0 <= j < i ==> !IsOp(seg[j])
    ensures (forall i :: 0 <= i < |seg| ==> !IsOp(seg[i])) && !IsBlank(seg) ==>
              exists i :: 0 <= i < |seg| && Operator(seg, g) == Ok(seg[i]) && !IsSpace(seg[i]) &&
                forall j :: 0 <= j < i ==> IsSpace(seg[j])
  {
    FirstOpFirst(seg);
    StripEmpty(seg);
    StripSpec(seg);
    if FirstOp(seg).Some? {
      var i := FirstOp(seg).value;
      assert !IsSpace(seg[i]);
    } else if !IsBlank(seg) {
      var k := StripOffset(seg);
      assert seg[k] == Strip(seg)[0];
      assert forall j :: 0 <= j < k ==> IsSpace(seg[..k][j]);
    }
  }

  /** `math.prod(nums)`. */
  function Product(nums: seq<int>): int {
    if |nums| == 0 then 1 else nums[0] * Product(nums[1..])
  }

  /** The value of a group: 0 without operands, else the sum or the product. */
  function Evaluate(op: char, nums: seq<int>): Result<int, SheetError> {
    if |nums| == 0 then Ok(0)
    else if op == '+' then Ok(Sum(nums))
    else if op == '*' then Ok(Product(nums))
    else Err(UnknownOperator(op))
  }

  /** The segment of the last row under group `g`. */
  function OpSegment(padded: seq<string>, cols: nat, g: Group): string
    requires Rectangular(padded, cols) && |padded| >= 1 && g.start <= g.end < cols
  {
    padded[|padded| - 1][g.start..g.end + 1]
  }

  /** What one group adds to the total, or the error it raises. */
  function GroupValue(padded: seq<string>, cols: nat, g: Group, part2: bool): Result<int, SheetError>
    requires Rectangular(padded, cols) && |padded| >= 1 && g.start <= g.end < cols
  {
    match Operator(OpSegment(padded, cols, g), g)
    case Err(e) => Err(e)
    case Ok(op) => Evaluate(op, Operands(padded, cols, g, part2))
  }

  /**
   * The value of one group, case by case: no operator exactly when the
   * last-row segment is whitespace; 0 without operands; the sum or the
   * product as the first `+` or `*` of the segment says. The fallback to the first
   * non-space character never yields `+` or `*`, so with operands it always
   * ends in an unknown-operator error.
   */
  lemma GroupValueSpec(padded: seq<string>, cols: nat, g: Group, part2: bool)
    requires Rectangular(padded, cols) && |padded| >= 1 && g.start <= g.end < cols
    ensures GroupValue(padded, cols, g, part2) == Err(NoOperator(g.start, g.end)) <==>
              IsBlank(OpSegment(padded, cols, g))
    ensures !IsBlank(OpSegment(padded, cols, g)) && Operands(padded, cols, g, part2) == [] ==>
              GroupValue(padded, cols, g, part2) == Ok(0)
    ensures FirstOp(OpSegment(padded, cols, g)).Some? && Operands(padded, cols, g, part2) != [] &&
            OpSegment(padded, cols, g)[FirstOp(OpSegment(padded, cols, g)).value] == '+' ==>
              GroupValue(padded, cols, g, part2) == Ok(Sum(Operands(padded, cols, g, part2)))
    ensures FirstOp(OpSegment(padded, cols, g)).Some? && Operands(padded, cols, g, part2) != [] &&
            OpSegment(padded, cols, g)[FirstOp(OpSegment(padded, cols, g)).value] == '*' ==>
              GroupValue(padded, cols, g, part2) == Ok(Product(Operands(padded, cols, g, part2)))
    ensures (exists i :: 0 <= i < |OpSegment(padded, cols, g)| && IsOp(OpSegment(padded, cols, g)[i])) ==>
              FirstOp(OpSegment(padded, cols, g)).Some?
    ensures (forall i :: 0 <= i < |OpSegment(padded, cols, g)| ==> !IsOp(OpSegment(padded, cols, g)[i])) &&
            !IsBlank(OpSegment(padded, cols, g)) && Operands(padded, cols, g, part2) != [] ==>
              GroupValue(padded, cols, g, part2).Err? && GroupValue(padded, cols, g, part2).error.UnknownOperator?
  {
    var seg := OpSegment(padded, cols, g);
    OperatorSpec(seg, g);
    FirstOpFirst(seg);
  }

  /** Every group lies inside the `cols` columns. */
  predicate InColumns(groups: seq<Group>, cols: nat) {
    forall i :: 0 <= i < |groups| ==> groups[i].start <= groups[i].end < cols
  }

  /** What each group adds to the total, or the error it raises, in group order. */
  function GroupValues(padded: seq<string>, cols: nat, groups: seq<Group>, part2: bool)
    : (values: seq<Result<int, SheetError>>)
    requires Rectangular(padded, cols) && |padded| >= 1 && InColumns(groups, cols)
    ensures |values| == |groups|
  {
    seq(|groups|, i requires 0 <= i < |groups| => GroupValue(padded, cols, groups[i], part2))
  }

  /** The sum of the first `n` group values, or the first error among them. */
  function Total(values: seq<Result<int, SheetError>>, n: nat): Result<int, SheetError>
    requires n <= |values|
  {
    if n == 0 then Ok(0)
    else
      match Total(values, n - 1)
      case Err(e) => Err(e)
      case Ok(t) =>
        match values[n - 1]
        case Err(e) => Err(e)
        case Ok(v) => Ok(t + v)
  }

  /** Once a group fails, the whole sheet fails with that error. */
  lemma {:induction false} TotalStaysErr(values: seq<Result<int, SheetError>>, i: nat, n: nat)
    requires i <= n <= |values| && Total(values, i).Err?
    ensures Total(values, n) == Total(values, i)
    decreases n - i
  {
    if i < n {
      TotalStaysErr(values, i + 1, n);
    }
  }

  /** One more group: its value is added to the running total, or its error is the sheet's result. */
  lemma TotalStep(values: seq<Result<int, SheetError>>, i: nat, total: int)
    requires i < |values| && Total(values, i) == Ok(total)
    ensures values[i].Ok? ==> Total(values, i + 1) == Ok(total + values[i].value)
    ensures values[i].Err? ==> Total(values, |values|) == values[i]
  {
    if values[i].Err? {
      TotalStaysErr(values, i + 1, |values|);
    }
  }

  /** The total of a padded worksheet: the values of its groups, added up. */
  function PaddedAnswer(padded: seq<string>, cols: nat, part2: bool): Result<int, SheetError>
    requires Rectangular(padded, cols) && |padded| >= 1
  {
    var blank := Blanks(padded, cols);
    var groups := GroupsFrom(blank, 0);
    GroupsAreRuns(blank, 0);
    Total(GroupValues(padded, cols, groups, part2), |groups|)
  }

  /** The answer of `day6` (`part2` false) or `day6_part2` (`part2` true) for the lines of the file. */
  function Answer(lines: seq<string>, part2: bool): Result<int, SheetError> {
    if |lines| == 0 then Ok(0)
    else
      var cols := MaxWidth(lines);
      PadSpec(lines);
      PaddedAnswer(Pad(lines, cols), cols, part2)
  }

  // ---------------------------------------------------------------------
  // The loops

  /** The row loops of `day6` for one group. */
  method RowNumbers(padded: seq<string>, cols: nat, g: Group) returns (nums: seq<int>)
    requires Rectangular(padded, cols) && |padded| >= 1 && g.start <= g.end < cols
    ensures nums == RowOperands(padded, cols, g, |padded| - 1)
  {
    nums := [];
    for r := 0 to |padded| - 1
      invariant nums == RowOperands(padded, cols, g, r)
    {
      var seg := padded[r][g.start..g.end + 1];
      var tokens := Runs(seg);
      RunsSpec(seg);
      ghost var before := nums;
      for t := 0 to |tokens|
        invariant nums == before + Values(tokens[..t])
      {
        assert Values(tokens[..t + 1]) == Values(tokens[..t]) + [DigitsValue(tokens[t]) as int];
        nums := nums + [DigitsValue(tokens[t])];
      }
      assert tokens[..|tokens|] == tokens;
    }
  }

  /** The column loop of `day6_part2` for one group, from its last column to its first. */
  method ColumnNumbers(padded: seq<string>, cols: nat, g: Group) returns (nums: seq<int>)
    requires Rectangular(padded, cols) && |padded| >= 1 && g.start <= g.end < cols
    ensures nums == ColumnOperands(padded, cols, g, g.end - g.start + 1)
  {
    nums := [];
    for col := g.end + 1 downto g.start
      invariant nums == ColumnOperands(padded, cols, g, g.end + 1 - col)
    {
      var chars := ColumnChars(padded, cols, col, |padded| - 1);
      var digits := KeepDigits(chars);
      if digits != [] {
        nums := nums + [DigitsValue(digits)];
      }
    }
  }

  /** The body of the loop over the groups: operands, operator and value of one group. */
  method EvaluateGroup(padded: seq<string>, cols: nat, g: Group, part2: bool)
    returns (r: Result<int, SheetError>)
    requires Rectangular(padded, cols) && |padded| >= 1 && g.start <= g.end < cols
    ensures r == GroupValue(padded, cols, g, part2)
  {
    var nums;
    if part2 {
      nums := ColumnNumbers(padded, cols, g);
    } else {
      nums := RowNumbers(padded, cols, g);
    }
    var op := Operator(OpSegment(padded, cols, g), g);
    if op.Err? {
      return Err(op.error);
    }
    r := Evaluate(op.value, nums);
  }

  /** The loop over the groups with its running total. */
  method SumGroups(padded: seq<string>, cols: nat, groups: seq<Group>, part2: bool)
    returns (r: Result<int, SheetError>)
    requires Rectangular(padded, cols) && |padded| >= 1 && InColumns(groups, cols)
    ensures r == Total(GroupValues(padded, cols, groups, part2), |groups|)
  {
    ghost var values := GroupValues(padded, cols, groups, part2);
    var total := 0;
    for i := 0 to |groups|
      invariant Total(values, i) == Ok(total)
    {
      var value := EvaluateGroup(padded, cols, groups[i], part2);
      assert value == values[i];
      TotalStep(values, i, total);
      if value.Err? {
        return value;
      }
      total := total + value.value;
    }
    r := Ok(total);
  }

  /** `day6` (`part2` false) and `day6_part2` (`part2` true) on the lines of the file. */
  method Solve(lines: seq<string>, part2: bool) returns (r: Result<int, SheetError>)
    ensures r == Answer(lines, part2)
    ensures |lines| == 0 ==> r == Ok(0)
  {
    if |lines| == 0 {
      return Ok(0);
    }
    var cols := MaxWidth(lines);
    var padded := Pad(lines, cols);
    PadSpec(lines);
    var blank := Blanks(padded, cols);
    var groups := FindGroups(blank);
    GroupsAreRuns(blank, 0);
    r := SumGroups(padded, cols, groups, part2);
  }

  // ---------------------------------------------------------------------
  // The two readings

  /** `nums` back to front. */
  function Reverse(nums: seq<int>): (r: seq<int>)
    ensures |r| == |nums|
  {
    seq(|nums|, i requires 0 <= i < |nums| => nums[|nums| - 1 - i])
  }

  lemma {:induction false} ProductAppend(a: seq<int>, b: seq<int>)
    ensures Product(a + b) == Product(a) * Product(b)
  {
    if |a| > 0 {
      assert (a + b)[1..] == a[1..] + b;
      ProductAppend(a[1..], b);
    } else {
      assert a + b == b;
    }
  }

  /** Sum and product do not depend on the order of the operands. */
  lemma {:induction false} ReverseKeepsValue(nums: seq<int>)
    ensures Sum(Reverse(nums)) == Sum(nums)
    ensures Product(Reverse(nums)) == Product(nums)
  {
    if |nums| > 0 {
      var n := |nums|;
      var init := nums[..n - 1];
      ReverseKeepsValue(init);
      assert Reverse(nums) == [nums[n - 1]] + Reverse(init);
      assert Reverse(nums)[1..] == Reverse(init);
      assert nums == init + [nums[n - 1]];
      SumAppend(init, [nums[n - 1]]);
      ProductAppend(init, [nums[n - 1]]);
    }
  }

  /** So a group's value is the same for its operands in either order. */
  lemma EvaluateReverse(op: char, nums: seq<int>)
    ensures Evaluate(op, Reverse(nums)) == Evaluate(op, nums)
  {
    ReverseKeepsValue(nums);
  }

  /** The digits of `s`, each as a one-digit number, left to right. */
  function DigitNumbers(s: string): seq<int> {
    if |s| == 0 then []
    else (if IsDigit(s[0]) then [DigitValue(s[0]) as int] else []) + DigitNumbers(s[1..])
  }

  /** No two digits stand next to each other. */
  predicate NoAdjacentDigits(s: string) {
    forall i :: 0 <= i < |s| - 1 ==> !(IsDigit(s[i]) && IsDigit(s[i + 1]))
  }

  lemma ValuesAppend(a: seq<string>, b: seq<string>)
    requires forall i :: 0 <= i < |a| ==> AllDigits(a[i])
    requires forall i :: 0 <= i < |b| ==> AllDigits(b[i])
    ensures Values(a + b) == Values(a) + Values(b)
  {
    assert forall i :: 0 <= i < |a + b| ==> (a + b)[i] == if i < |a| then a[i] else b[i - |a|];
  }

  /** With no two digits adjacent, every run is a single digit. */
  lemma {:induction false} SeparatedDigitRuns(s: string)
    requires NoAdjacentDigits(s)
    ensures Numbers(s) == DigitNumbers(s)
  {
    RunsSpec(s);
    if |s| > 0 {
      assert NoAdjacentDigits(s[1..]);
      SeparatedDigitRuns(s[1..]);
      RunsSpec(s[1..]);
      if IsDigit(s[0]) {
        RunsWord([s[0]], s[1..]);
        assert [s[0]] + s[1..] == s;
        assert [s[0]][..0] == [];
        assert DigitsValue([s[0]]) == DigitValue(s[0]);
        ValuesAppend([[s[0]]], Runs(s[1..]));
      }
    }
  }

  /**
   * With a single operand row, the column reading of the `k` rightmost
   * columns gives the one-digit numbers of those columns from right to left.
   */
  lemma {:induction false} OneRowColumns(padded: seq<string>, cols: nat, g: Group, k: nat)
    requires Rectangular(padded, cols) && |padded| == 2 && g.start <= g.end < cols
    requires k <= g.end - g.start + 1
    ensures Reverse(ColumnOperands(padded, cols, g, k)) == DigitNumbers(padded[0][g.end + 1 - k..g.end + 1])
  {
    if k > 0 {
      OneRowColumns(padded, cols, g, k - 1);
      var col := g.end - (k - 1);
      var c := padded[0][col];
      assert ColumnChars(padded, cols, col, 1) == [c];
      var digits := KeepDigits([c]);
      assert digits == if IsDigit(c) then [c] else [];
      if IsDigit(c) {
        assert [c][..0] == [];
        assert DigitsValue([c]) == DigitValue(c);
      }
      var prev := ColumnOperands(padded, cols, g, k - 1);
      var added: seq<int> := if digits == [] then [] else [DigitsValue(digits) as int];
      assert ColumnOperands(padded, cols, g, k) == prev + added;
      assert Reverse(prev + added) == added + Reverse(prev);
      var tail := padded[0][g.end + 1 - k..g.end + 1];
      assert tail[0] == c && tail[1..] == padded[0][g.end + 1 - (k - 1)..g.end + 1];
    }
  }

  /**
   * The two readings agree on a group with one operand row in which no two
   * digits are adjacent: part 1 reads the digits left to right, part 2 right
   * to left, and the group values are equal.
   */
  lemma OneRowReadingsAgree(padded: seq<string>, cols: nat, g: Group)
    requires Rectangular(padded, cols) && |padded| == 2 && g.start <= g.end < cols
    requires NoAdjacentDigits(padded[0][g.start..g.end + 1])
    ensures Operands(padded, cols, g, false) == Reverse(Operands(padded, cols, g, true))
    ensures GroupValue(padded, cols, g, false) == GroupValue(padded, cols, g, true)
  {
    var seg := padded[0][g.start..g.end + 1];
    assert RowOperands(padded, cols, g, 1) == [] + Numbers(seg);
    SeparatedDigitRuns(seg);
    OneRowColumns(padded, cols, g, g.end - g.start + 1);
    var op := Operator(OpSegment(padded, cols, g), g);
    if op.Ok? {
      EvaluateReverse(op.value, Operands(padded, cols, g, true));
    }
  }

  // ---------------------------------------------------------------------
  // A worksheet with one problem

  /** One problem written out: each operand on its own line, then the operator. */
  function Sheet(nums: seq<nat>, op: char): (lines: seq<string>)
    ensures |lines| == |nums| + 1
  {
    seq(|nums|, i requires 0 <= i < |nums| => DecimalString(nums[i])) + [[op]]
  }

  /** A string without digits has no runs. */
  lemma {:induction false} RunsNoDigits(t: string)
    requires forall i :: 0 <= i < |t| ==> !IsDigit(t[i])
    ensures Runs(t) == []
  {
    if |t| > 0 {
      RunsNoDigits(t[1..]);
    }
  }

  /** A number padded with spaces reads back as that number. */
  lemma PaddedNumber(n: nat, cols: nat)
    ensures Numbers(LJust(DecimalString(n), cols)) == [n]
  {
    var w := DecimalString(n);
    var t := if |w| >= cols then [] else Spaces(cols - |w|);
    assert LJust(w, cols) == w + t;
    RunsNoDigits(t);
    RunsWord(w, t);
    RunsSpec(w + t);
  }

  /** Operand rows that each read as one number give back those numbers, top to bottom. */
  lemma {:induction false} SheetRows(nums: seq<nat>, cols: nat, padded: seq<string>, n: nat)
    requires Rectangular(padded, cols) && cols >= 1 && n <= |nums| < |padded|
    requires forall r :: 0 <= r < |nums| ==> Numbers(padded[r]) == [nums[r] as int]
    ensures RowOperands(padded, cols, Group(0, cols - 1), n) == nums[..n]
  {
    if n > 0 {
      var g := Group(0, cols - 1);
      SheetRows(nums, cols, padded, n - 1);
      var row := padded[n - 1];
      assert |row| == cols;
      assert row[0..cols] == row;
      assert RowOperands(padded, cols, g, n) == RowOperands(padded, cols, g, n - 1) + Numbers(row);
      assert nums[..n] == nums[..n - 1] + [nums[n - 1]];
    }
  }

  /** Every column of a written-out problem holds a digit or the operator somewhere. */
  lemma SheetColumns(nums: seq<nat>, op: char, cols: nat, padded: seq<string>)
    requires |nums| >= 1 && IsOp(op) && cols == MaxWidth(Sheet(nums, op))
    requires padded == Pad(Sheet(nums, op), cols) && Rectangular(padded, cols)
    ensures forall c :: 0 <= c < cols ==> !BlankColumn(padded, cols, c)
  {
    var lines := Sheet(nums, op);
    PadSpec(lines);
    forall c | 0 <= c < cols ensures !BlankColumn(padded, cols, c) {
      var r :| 0 <= r < |lines| && |lines[r]| == cols;
      assert padded[r][c] == lines[r][c];
      if r < |nums| {
        assert lines[r] == DecimalString(nums[r]);
        assert IsDigit(lines[r][c]);
      } else {
        assert lines[r] == [op];
      }
    }
  }

  /** A worksheet without blank columns is one problem spanning every column. */
  lemma OneGroupAnswer(padded: seq<string>, cols: nat, part2: bool)
    requires Rectangular(padded, cols) && |padded| >= 1 && cols >= 1
    requires forall c :: 0 <= c < cols ==> !BlankColumn(padded, cols, c)
    ensures PaddedAnswer(padded, cols, part2) == GroupValue(padded, cols, Group(0, cols - 1), part2)
  {
    var blank := Blanks(padded, cols);
    forall j | 0 <= j < |blank| ensures !blank[j] {
      assert !BlankColumn(padded, cols, j);
    }
    RunEndNoBlank(blank, 0);
    var g := Group(0, cols - 1);
    assert GroupsFrom(blank, 0) == [g];
    var values := GroupValues(padded, cols, [g], part2);
    assert values[0] == GroupValue(padded, cols, g, part2);
    assert Total(values, 1) == values[0];
  }

  /** The operator row of a written-out problem names its operator. */
  lemma OperatorRow(op: char, cols: nat)
    requires IsOp(op) && cols >= 1
    ensures Operator(LJust([op], cols)[0..cols], Group(0, cols - 1)) == Ok(op)
  {
    var seg := LJust([op], cols)[0..cols];
    assert seg[0] == op;
  }

  /**
   * Writing one problem as a worksheet and reading it with `day6` gives
   * the value of the problem: the sum or the product of its operands.
   */
  lemma SingleProblemRoundTrip(nums: seq<nat>, op: char)
    requires |nums| >= 1 && IsOp(op)
    ensures Answer(Sheet(nums, op), false) == Evaluate(op, nums)
  {
    var lines := Sheet(nums, op);
    var k := |nums|;
    var cols := MaxWidth(lines);
    var padded := Pad(lines, cols);
    assert lines[k] == [op];
    assert cols >= 1;
    assert Rectangular(padded, cols) by {
      PadSpec(lines);
    }
    SheetColumns(nums, op, cols, padded);
    OneGroupAnswer(padded, cols, false);
    var g := Group(0, cols - 1);
    assert padded[k] == LJust([op], cols);
    OperatorRow(op, cols);
    assert OpSegment(padded, cols, g) == LJust([op], cols)[0..cols];
    forall r | 0 <= r < k ensures Numbers(padded[r]) == [nums[r] as int] {
      assert lines[r] == DecimalString(nums[r]);
      assert padded[r] == LJust(DecimalString(nums[r]), cols);
      PaddedNumber(nums[r], cols);
    }
    SheetRows(nums, cols, padded, k);
    assert nums[..k] == nums;
  }

  /** With no blank column from `c` on, the run reaches the last column. */
  lemma {:induction false} RunEndNoBlank(blank: seq<bool>, c: nat)
    requires c <= |blank|
    requires forall j :: c <= j < |blank| ==> !blank[j]
    ensures RunEnd(blank, c) == |blank|
    decreases |blank| - c
  {
    if c < |blank| {
      RunEndNoBlank(blank, c + 1);
    }
  }
}
