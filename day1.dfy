/**
 * The circular dial of `day1/day1.py`: rotation lines such as `L68` or
 * `r14` are parsed, the dial starts at 50 and turns modulo 100, and two
 * passwords are counted: how often a rotation ends on 0 (`day1`) and how
 * often any single click lands on 0 (`day2`).
 */
module Dial {
  import opened Results
  import opened Text

  datatype Direction = L | R

  /** One rotation. `int()` accepts a sign, so the distance may be negative. */
  datatype Rotation = Rotation(direction: Direction, distance: int)

  /** The three `ValueError`s `parse_rotation` raises. */
  datatype ParseError =
    | EmptyLine
    | InvalidDirection(head: char)
    | InvalidDistance(line: string)

  /** The number of positions on the dial. */
  const Size := 100

  /** Where the dial starts. */
  const Start := 50

  // ---------------------------------------------------------------------
  // Parsing

  /** `parse_rotation`: a direction letter in either case, then an integer. */
  function ParseRotation(line: string): Result<Rotation, ParseError> {
    var s := Strip(line);
    if s == [] then Err(EmptyLine)
    else if s[0] != 'L' && s[0] != 'l' && s[0] != 'R' && s[0] != 'r' then
      Err(InvalidDirection(s[0]))
    else
      var direction := if s[0] == 'L' || s[0] == 'l' then L else R;
      match ParseInt(s[1..])
      case None => Err(InvalidDistance(s))
      case Some(d) => Ok(Rotation(direction, d))
  }

  /** The error cases of `parse_rotation`, and the direction and distance it reads. */
  lemma ParseRotationCases(line: string)
    ensures ParseRotation(line) == Err(EmptyLine) <==> IsBlank(line)
    ensures !IsBlank(line) ==>
              var c := Strip(line)[0];
              ((ParseRotation(line).Err? && ParseRotation(line).error.InvalidDirection?)
                <==> c !in "LlRr")
    ensures ParseRotation(line).Ok? ==>
              (ParseRotation(line).value.direction == L <==> Strip(line)[0] in "Ll")
    ensures ParseRotation(line).Ok? ==> ParseInt(Strip(line)[1..]).Some?
    ensures ParseRotation(line).Ok? ==> ParseRotation(line).value.distance == ParseInt(Strip(line)[1..]).value
    ensures !IsBlank(line) && Strip(line)[0] in "LlRr" ==>
              (ParseRotation(line).Ok? <==> ParseInt(Strip(line)[1..]).Some?)
  {
    StripEmpty(line);
  }

  /** The canonical line of a rotation, such as `L68` or `R-3`. */
  function Format(rot: Rotation): string {
    (if rot.direction == L then "L" else "R") + IntString(rot.distance)
  }

  /** Parsing the canonical line gives the rotation back. */
  lemma ParseFormat(rot: Rotation)
    ensures ParseRotation(Format(rot)) == Ok(rot)
  {
    var line := Format(rot);
    var letter := if rot.direction == L then "L" else "R";
    var t := IntString(rot.distance);
    assert line == letter + t;
    ParseIntString(rot.distance);
    var digits := DecimalString(if rot.distance < 0 then -rot.distance else rot.distance);
    assert t[|t| - 1] == digits[|digits| - 1];
    assert IsDigit(line[|line| - 1]);
    StripUnchanged(line);
    assert Strip(line) == line;
    assert line[1..] == t;
    assert line[0] == letter[0];
  }

  /**
   * The lines `parse_rotations` keeps, in order: those for which `l.strip()`
   * is non-empty, that is the lines not made of whitespace alone.
   */
  function NonBlank(lines: seq<string>): seq<string>
    decreases |lines|
  {
    if lines == [] then []
    else if IsBlank(lines[0]) then NonBlank(lines[1..])
    else [lines[0]] + NonBlank(lines[1..])
  }

  /** The kept lines are the non-blank ones, and filtering respects concatenation. */
  lemma {:induction false} NonBlankSpec(a: seq<string>, b: seq<string>)
    ensures NonBlank(a + b) == NonBlank(a) + NonBlank(b)
    ensures |NonBlank(a)| <= |a|
    ensures forall j :: 0 <= j < |NonBlank(a)| ==> !IsBlank(NonBlank(a)[j])
    ensures forall j :: 0 <= j < |a| && !IsBlank(a[j]) ==> a[j] in NonBlank(a)
    decreases |a|
  {
    if a == [] {
      assert a + b == b;
    } else {
      NonBlankSpec(a[1..], b);
      assert (a + b)[1..] == a[1..] + b;
      var kept, rest := NonBlank(a), NonBlank(a[1..]);
      if !IsBlank(a[0]) {
        assert kept == [a[0]] + rest;
        forall j | 1 <= j < |kept| ensures kept[j] == rest[j - 1] {
        }
      } else {
        assert kept == rest;
      }
      forall j | 0 <= j < |a| && !IsBlank(a[j]) ensures a[j] in kept {
        if j > 0 {
          assert a[j] == a[1..][j - 1];
        }
      }
    }
  }

  /** Lines none of which is blank are all kept. */
  lemma {:induction false} NonBlankKeepsAll(lines: seq<string>)
    requires forall j :: 0 <= j < |lines| ==> !IsBlank(lines[j])
    ensures NonBlank(lines) == lines
    decreases |lines|
  {
    if lines != [] {
      NonBlankKeepsAll(lines[1..]);
    }
  }

  /** The parse of each kept line, in order. */
  function ParseEach(kept: seq<string>): (results: seq<Result<Rotation, ParseError>>)
    ensures |results| == |kept|
  {
    seq(|kept|, j requires 0 <= j < |kept| => ParseRotation(kept[j]))
  }

  /** The list of parsed rotations, or the first error: the comprehension raises at the first failing line. */
  function FirstError(results: seq<Result<Rotation, ParseError>>): Result<seq<Rotation>, ParseError>
    decreases |results|
  {
    if results == [] then Ok([])
    else
      match results[0]
      case Err(e) => Err(e)
      case Ok(rot) =>
        match FirstError(results[1..])
        case Err(e) => Err(e)
        case Ok(rest) => Ok([rot] + rest)
  }

  /** `parse_rotations`: `[parse_rotation(l) for l in lines if l.strip()]`. */
  function ParseRotations(lines: seq<string>): Result<seq<Rotation>, ParseError> {
    FirstError(ParseEach(NonBlank(lines)))
  }

  /** A successful collection holds, in order, the value of every result. */
  lemma {:induction false} FirstErrorOk(results: seq<Result<Rotation, ParseError>>)
    requires FirstError(results).Ok?
    ensures |FirstError(results).value| == |results|
    ensures forall j :: 0 <= j < |results| ==> results[j] == Ok(FirstError(results).value[j])
    decreases |results|
  {
    if results != [] {
      FirstErrorOk(results[1..]);
      var tail := FirstError(results[1..]).value;
      var all := FirstError(results).value;
      assert all == [results[0].value] + tail;
      forall j | 1 <= j < |results| ensures results[j] == Ok(all[j]) {
        assert results[j] == results[1..][j - 1];
      }
    }
  }

  /** A failed collection reports the first error among the results. */
  lemma {:induction false} FirstErrorErr(results: seq<Result<Rotation, ParseError>>)
    requires FirstError(results).Err?
    ensures exists j :: 0 <= j < |results| && results[j] == Err(FirstError(results).error) &&
              forall i :: 0 <= i < j ==> results[i].Ok?
    decreases |results|
  {
    if results[0].Ok? {
      FirstErrorErr(results[1..]);
      var tail := results[1..];
      var j :| 0 <= j < |tail| && tail[j] == Err(FirstError(tail).error) &&
               forall i :: 0 <= i < j ==> tail[i].Ok?;
      assert results[j + 1] == tail[j];
      forall i | 0 <= i < j + 1 ensures results[i].Ok? {
        if i > 0 {
          assert results[i] == tail[i - 1];
        }
      }
    } else {
      assert results[0] == Err(FirstError(results).error);
    }
  }

  /** Results that are all `Ok` collect to the list of their values. */
  lemma {:induction false} FirstErrorAllOk(results: seq<Result<Rotation, ParseError>>, rots: seq<Rotation>)
    requires |results| == |rots| && forall j :: 0 <= j < |rots| ==> results[j] == Ok(rots[j])
    ensures FirstError(results) == Ok(rots)
    decreases |rots|
  {
    if rots != [] {
      FirstErrorAllOk(results[1..], rots[1..]);
      assert rots == [rots[0]] + rots[1..];
    }
  }

  /** When `parse_rotations` succeeds, its `j`-th rotation is the parse of the `j`-th kept line. */
  lemma ParseRotationsOk(lines: seq<string>)
    requires ParseRotations(lines).Ok?
    ensures |ParseRotations(lines).value| == |NonBlank(lines)|
    ensures forall j :: 0 <= j < |NonBlank(lines)| ==>
              ParseRotation(NonBlank(lines)[j]) == Ok(ParseRotations(lines).value[j])
  {
    var results := ParseEach(NonBlank(lines));
    FirstErrorOk(results);
    forall j | 0 <= j < |NonBlank(lines)|
      ensures ParseRotation(NonBlank(lines)[j]) == Ok(ParseRotations(lines).value[j])
    {
      assert results[j] == ParseRotation(NonBlank(lines)[j]);
    }
  }

  /**
   * When `parse_rotations` fails, it fails with the error of the first kept
   * line that does not parse.
   */
  lemma ParseRotationsErr(lines: seq<string>)
    requires ParseRotations(lines).Err?
    ensures exists j :: 0 <= j < |NonBlank(lines)| &&
              ParseRotation(NonBlank(lines)[j]) == Err(ParseRotations(lines).error) &&
              forall i :: 0 <= i < j ==> ParseRotation(NonBlank(lines)[i]).Ok?
  {
    var kept := NonBlank(lines);
    var results := ParseEach(kept);
    FirstErrorErr(results);
    var j :| 0 <= j < |results| && results[j] == Err(FirstError(results).error) &&
             forall i :: 0 <= i < j ==> results[i].Ok?;
    assert results[j] == ParseRotation(kept[j]);
    forall i | 0 <= i < j ensures ParseRotation(kept[i]).Ok? {
      assert results[i] == ParseRotation(kept[i]);
    }
  }

  /** `parse_rotations` succeeds exactly when every kept line parses. */
  lemma ParseRotationsSucceeds(lines: seq<string>)
    ensures ParseRotations(lines).Ok? <==>
              forall j :: 0 <= j < |NonBlank(lines)| ==> ParseRotation(NonBlank(lines)[j]).Ok?
  {
    if ParseRotations(lines).Ok? {
      ParseRotationsOk(lines);
    } else {
      ParseRotationsErr(lines);
    }
  }

  /** Parsing the canonical lines of a list of rotations gives the list back. */
  lemma ParseRotationsFormat(rots: seq<Rotation>)
    ensures ParseRotations(seq(|rots|, i requires 0 <= i < |rots| => Format(rots[i]))) == Ok(rots)
  {
    var lines := seq(|rots|, i requires 0 <= i < |rots| => Format(rots[i]));
    forall j | 0 <= j < |lines| ensures !IsBlank(lines[j]) && ParseRotation(lines[j]) == Ok(rots[j]) {
      ParseFormat(rots[j]);
      assert lines[j][0] in "LR";
    }
    NonBlankKeepsAll(lines);
    var results := ParseEach(lines);
    forall j | 0 <= j < |rots| ensures results[j] == Ok(rots[j]) {
      assert results[j] == ParseRotation(lines[j]);
    }
    FirstErrorAllOk(results, rots);
  }

  // ---------------------------------------------------------------------
  // The dial

  /**
   * Where the dial points `k` clicks after `pos` in direction `dir`; Python's
   * `%` by a positive modulus agrees with Dafny's, so the result is in `[0, 100)`.
   */
  function Click(pos: int, dir: Direction, k: int): (p: int)
    ensures 0 <= p < Size
  {
    if dir == L then (pos - k) % Size else (pos + k) % Size
  }

  /** The position after one rotation. */
  function Turn(pos: int, rot: Rotation): (p: int)
    ensures 0 <= p < Size
  {
    Click(pos, rot.direction, rot.distance)
  }

  /** The position after the first `n` rotations, starting at 50. */
  function PositionAfter(rots: seq<Rotation>, n: nat): (p: int)
    requires n <= |rots|
    ensures 0 <= p < Size
  {
    if n == 0 then Start else Turn(PositionAfter(rots, n - 1), rots[n - 1])
  }

  /** Rotation `i` (counting from 0) leaves the dial at 0. */
  predicate StopsAtZero(rots: seq<Rotation>, i: nat)
    requires i < |rots|
  {
    PositionAfter(rots, i + 1) == 0
  }

  /** For each rotation, whether it leaves the dial at 0. */
  function Stops(rots: seq<Rotation>): (flags: seq<bool>)
    ensures |flags| == |rots|
  {
    seq(|rots|, i requires 0 <= i < |rots| => StopsAtZero(rots, i))
  }

  /** How many of the first `n` rotations leave the dial at 0. */
  function ZeroStops(rots: seq<Rotation>, n: nat): nat
    requires n <= |rots|
  {
    CountTrue(Stops(rots), n)
  }

  /** `ZeroStops` counts exactly the rotations after which the dial shows 0. */
  lemma ZeroStopsCounts(rots: seq<Rotation>, n: nat)
    requires n <= |rots|
    ensures ZeroStops(rots, n) == |set i | 0 <= i < n && StopsAtZero(rots, i)|
  {
    var flags := Stops(rots);
    CountTrueIndices(flags, n);
    assert (set i | 0 <= i < n && flags[i]) == (set i | 0 <= i < n && StopsAtZero(rots, i));
  }

  /**
   * `day1`: turns the dial through every rotation and counts the rotations
   * that end on 0.
   */
  method Day1(rots: seq<Rotation>) returns (zeros: nat)
    ensures zeros == ZeroStops(rots, |rots|)
    ensures zeros == |set i | 0 <= i < |rots| && StopsAtZero(rots, i)|
  {
    var pos := Start;
    zeros := 0;
    for i := 0 to |rots|
      invariant pos == PositionAfter(rots, i)
      invariant zeros == ZeroStops(rots, i)
    {
      var rot := rots[i];
      if rot.direction == L {
        pos := (pos - rot.distance) % Size;
      } else {
        pos := (pos + rot.distance) % Size;
      }
      assert Stops(rots)[i] <==> pos == 0;
      if pos == 0 {
        zeros := zeros + 1;
      }
    }
    ZeroStopsCounts(rots, |rots|);
  }

  // ---------------------------------------------------------------------
  // Every click

  /** The brute-force count: how many clicks `k` in `1..d` leave the dial at 0. */
  function ClickZeros(pos: int, dir: Direction, d: int): nat
    decreases d
  {
    if d <= 0 then 0
    else ClickZeros(pos, dir, d - 1) + (if Click(pos, dir, d) == 0 then 1 else 0)
  }

  /** `base` in `day2`: the first click that reaches 0 from `pos`. */
  function FirstZero(pos: int, dir: Direction): int {
    var base := if dir == R then (Size - pos) % Size else pos % Size;
    if base == 0 then Size else base
  }

  /** The closed form `day2` adds for one rotation. */
  function ClosedZeros(pos: int, dir: Direction, d: int): int {
    var base := FirstZero(pos, dir);
    if d >= base then 1 + (d - base) / Size else 0
  }

  /** From a dial position, click `k` hits 0 exactly when `k` is `base` plus a multiple of 100. */
  lemma ClickHitsZero(pos: int, dir: Direction, k: int)
    requires 0 <= pos < Size
    ensures Click(pos, dir, k) == 0 <==> (k - FirstZero(pos, dir)) % Size == 0
  {
    var base := FirstZero(pos, dir);
    if dir == R {
      assert pos + k == (k - base) + Size;
      ModShift(k - base);
    } else {
      var a := -(k - base);
      if pos == 0 {
        assert pos - k == a - Size;
        ModShift(a - Size);
      } else {
        assert pos - k == a;
      }
      ModNegate(k - base);
    }
  }

  /** Adding the dial size does not change a position modulo 100. */
  lemma ModShift(x: int)
    ensures (x + Size) % Size == x % Size
  {
    var q, r := x / Size, x % Size;
    assert x + Size == Size * (q + 1) + r;
  }

  /** A multiple of 100 stays one when negated. */
  lemma ModNegate(a: int)
    ensures a % Size == 0 <==> (-a) % Size == 0
  {
    if a % Size == 0 {
      assert -a == Size * (-(a / Size));
    }
    if (-a) % Size == 0 {
      assert a == Size * (-((-a) / Size));
    }
  }

  /** `base` is in `1..100` and is the first click at or after 1 that hits 0. */
  lemma FirstZeroIsFirst(pos: int, dir: Direction)
    requires 0 <= pos < Size
    ensures 1 <= FirstZero(pos, dir) <= Size
    ensures Click(pos, dir, FirstZero(pos, dir)) == 0
    ensures forall k :: 1 <= k < FirstZero(pos, dir) ==> Click(pos, dir, k) != 0
  {
    ClickHitsZero(pos, dir, FirstZero(pos, dir));
    forall k | 1 <= k < FirstZero(pos, dir) ensures Click(pos, dir, k) != 0 {
      ClickHitsZero(pos, dir, k);
    }
  }

  /** The closed form of `day2` agrees with the brute-force count over every click. */
  lemma {:induction false} ClosedZerosCounts(pos: int, dir: Direction, d: int)
    requires 0 <= pos < Size
    ensures ClosedZeros(pos, dir, d) == ClickZeros(pos, dir, d)
    decreases d
  {
    if d > 0 {
      ClosedZerosCounts(pos, dir, d - 1);
      ClickHitsZero(pos, dir, d);
      var base := FirstZero(pos, dir);
      FirstZeroIsFirst(pos, dir);
      if d > base {
        var q := (d - 1 - base) / Size;
        var m := (d - 1 - base) % Size;
        assert d - base == Size * q + (m + 1);
        if m + 1 == Size {
          assert d - base == Size * (q + 1);
        }
      }
    }
  }

  /** The number of clicks on 0 over the first `n` rotations, counted click by click. */
  function AllClickZeros(rots: seq<Rotation>, n: nat): nat
    requires n <= |rots|
  {
    if n == 0 then 0
    else
      AllClickZeros(rots, n - 1)
      + ClickZeros(PositionAfter(rots, n - 1), rots[n - 1].direction, rots[n - 1].distance)
  }

  /**
   * `day2`: adds the closed-form count of zero clicks for each rotation, then
   * moves the dial as `day1` does; the total is the click-by-click count.
   */
  method Day2(rots: seq<Rotation>) returns (zeros: nat)
    ensures zeros == AllClickZeros(rots, |rots|)
  {
    var pos := Start;
    zeros := 0;
    for i := 0 to |rots|
      invariant pos == PositionAfter(rots, i)
      invariant zeros == AllClickZeros(rots, i)
    {
      var rot := rots[i];
      var d := rot.distance;
      var base;
      if rot.direction == R {
        base := (Size - pos) % Size;
      } else {
        base := pos % Size;
      }
      if base == 0 {
        base := Size;
      }
      ClosedZerosCounts(pos, rot.direction, d);
      if d >= base {
        zeros := zeros + 1 + (d - base) / Size;
      }
      if rot.direction == L {
        pos := (pos - d) % Size;
      } else {
        pos := (pos + d) % Size;
      }
    }
  }
}
