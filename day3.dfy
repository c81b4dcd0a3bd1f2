/**
 * Battery banks (day3/day3.py): from each line of digits pick exactly `k`
 * digits, keeping their order, so that the number they spell is as large
 * as possible, and add up the picks of all non-blank lines.
 *
 * The picking is the source's greedy monotonic stack. It is proved here to
 * return the lexicographically greatest order-preserving selection of `k`
 * characters, which `MaxSel` defines independently; for digit strings of
 * one length lexicographic order is numeric order.
 */
module Joltage {
  import opened Results
  import opened Text

  // ---------------------------------------------------------------------
  // Lexicographic order (Python's comparison of strings)

  /** `x <= y` on strings: compared character by character, a proper prefix first. */
  predicate LexLe(x: string, y: string)
    decreases |x|
  {
    if x == [] then true
    else if y == [] then false
    else x[0] < y[0] || (x[0] == y[0] && LexLe(x[1..], y[1..]))
  }

  lemma {:induction false} LexRefl(x: string)
    ensures LexLe(x, x)
    decreases |x|
  {
    if x != [] { LexRefl(x[1..]); }
  }

  lemma {:induction false} LexTotal(x: string, y: string)
    ensures LexLe(x, y) || LexLe(y, x)
    decreases |x|
  {
    if x != [] && y != [] && x[0] == y[0] { LexTotal(x[1..], y[1..]); }
  }

  lemma {:induction false} LexAntisym(x: string, y: string)
    requires LexLe(x, y) && LexLe(y, x)
    ensures x == y
    decreases |x|
  {
    if x != [] {
      LexAntisym(x[1..], y[1..]);
      assert x == [x[0]] + x[1..] && y == [y[0]] + y[1..];
    }
  }

  lemma {:induction false} LexTrans(x: string, y: string, z: string)
    requires LexLe(x, y) && LexLe(y, z)
    ensures LexLe(x, z)
    decreases |x|
  {
    if x != [] && x[0] == y[0] && y[0] == z[0] { LexTrans(x[1..], y[1..], z[1..]); }
  }

  /** Appending one character to two strings of one length keeps their order. */
  lemma {:induction false} LexAppend(x: string, y: string, c: char)
    requires |x| == |y| && LexLe(x, y)
    ensures LexLe(x + [c], y + [c])
    decreases |x|
  {
    if x == [] {
      LexRefl([c]);
    } else if x[0] == y[0] {
      LexAppend(x[1..], y[1..], c);
      assert (x + [c])[1..] == x[1..] + [c] && (y + [c])[1..] == y[1..] + [c];
    }
  }

  /** Replacing a tail whose first character is below `c` by `[c]` gives a larger string. */
  lemma {:induction false} LexRaiseTail(p: string, rest: string, c: char)
    requires rest == [] || rest[0] < c
    ensures LexLe(p + rest, p + [c])
    decreases |p|
  {
    if p != [] {
      LexRaiseTail(p[1..], rest, c);
      assert (p + rest)[1..] == p[1..] + rest && (p + [c])[1..] == p[1..] + [c];
    }
  }

  /**
   * The comparison behind a push: if `x <= p + rest`, the tail `rest` starts
   * below `c`, and `p` holds at least `c` at position `|x|`, then
   * `x + [c] <= p + [c]`.
   */
  lemma {:induction false} LexPushed(x: string, p: string, rest: string, c: char)
    requires LexLe(x, p + rest)
    requires rest == [] || rest[0] < c
    requires |x| < |p| ==> p[|x|] >= c
    ensures LexLe(x + [c], p + [c])
    decreases |p|
  {
    if p == [] {
      if x != [] {
        assert (p + rest)[0] == rest[0];
      }
    } else if x == [] {
      if p[0] == c {
        assert (p + [c])[1..] == p[1..] + [c];
      }
    } else if x[0] == p[0] {
      assert (p + rest)[1..] == p[1..] + rest;
      LexPushed(x[1..], p[1..], rest, c);
      assert (x + [c])[1..] == x[1..] + [c] && (p + [c])[1..] == p[1..] + [c];
    }
  }

  /** The comparison behind a skipped push: `x + [c] <= p` when `p` holds at least `c` at `|x|`. */
  lemma {:induction false} LexSkipped(x: string, p: string, c: char)
    requires LexLe(x, p) && |x| < |p| && p[|x|] >= c
    ensures LexLe(x + [c], p)
    decreases |x|
  {
    if x != [] && x[0] == p[0] {
      LexSkipped(x[1..], p[1..], c);
      assert (x + [c])[1..] == x[1..] + [c];
    }
  }

  // ---------------------------------------------------------------------
  // Order-preserving selections

  /** `x` is obtained from `t` by deleting characters, keeping the order of the rest. */
  predicate IsSubseq(x: string, t: string)
    decreases |t|
  {
    if x == [] then true
    else if t == [] then false
    else (x[|x| - 1] == t[|t| - 1] && IsSubseq(x[..|x| - 1], t[..|t| - 1]))
         || IsSubseq(x, t[..|t| - 1])
  }

  lemma {:induction false} SubseqLength(x: string, t: string)
    requires IsSubseq(x, t)
    ensures |x| <= |t|
    decreases |t|
  {
    if x != [] {
      if x[|x| - 1] == t[|t| - 1] && IsSubseq(x[..|x| - 1], t[..|t| - 1]) {
        SubseqLength(x[..|x| - 1], t[..|t| - 1]);
      } else {
        SubseqLength(x, t[..|t| - 1]);
      }
    }
  }

  /** The only selection as long as `t` is `t` itself. */
  lemma {:induction false} SubseqFull(x: string, t: string)
    requires IsSubseq(x, t) && |x| == |t|
    ensures x == t
    decreases |t|
  {
    if x != [] {
      if x[|x| - 1] == t[|t| - 1] && IsSubseq(x[..|x| - 1], t[..|t| - 1]) {
        SubseqFull(x[..|x| - 1], t[..|t| - 1]);
        assert x == x[..|x| - 1] + [x[|x| - 1]] && t == t[..|t| - 1] + [t[|t| - 1]];
      } else {
        SubseqLength(x, t[..|t| - 1]);
      }
    }
  }

  lemma {:induction false} SubseqSelf(t: string)
    ensures IsSubseq(t, t)
    decreases |t|
  {
    if t != [] { SubseqSelf(t[..|t| - 1]); }
  }

  /** Dropping the last character of a selection leaves a selection. */
  lemma {:induction false} SubseqDropLast(x: string, t: string)
    requires x != [] && IsSubseq(x, t)
    ensures IsSubseq(x[..|x| - 1], t)
    decreases |t|
  {
    var x', t' := x[..|x| - 1], t[..|t| - 1];
    if x[|x| - 1] == t[|t| - 1] && IsSubseq(x', t') {
      if x' != [] {
        SubseqDropLast(x', t');
        assert x'[..|x'| - 1] == x'[..|x'| - 1];
      }
    } else {
      SubseqDropLast(x, t');
    }
  }

  /** Every prefix of a selection is a selection. */
  lemma {:induction false} SubseqPrefix(x: string, m: nat, t: string)
    requires m <= |x| && IsSubseq(x, t)
    ensures IsSubseq(x[..m], t)
    decreases |x| - m
  {
    if m < |x| {
      SubseqDropLast(x, t);
      SubseqPrefix(x[..|x| - 1], m, t);
      assert x[..|x| - 1][..m] == x[..m];
    } else {
      assert x[..m] == x;
    }
  }

  /** A selection from a digit string is a digit string. */
  lemma {:induction false} SubseqDigits(x: string, t: string)
    requires IsSubseq(x, t) && AllDigits(t)
    ensures AllDigits(x)
    decreases |t|
  {
    if x != [] {
      var x', t' := x[..|x| - 1], t[..|t| - 1];
      if x[|x| - 1] == t[|t| - 1] && IsSubseq(x', t') {
        SubseqDigits(x', t');
        assert forall i :: 0 <= i < |x'| ==> x[i] == x'[i];
      } else {
        SubseqDigits(x, t');
      }
    }
  }

  // ---------------------------------------------------------------------
  // The specification: the greatest selection

  /** `sel` is a selection of `k` characters of `s` that no other such selection exceeds. */
  ghost predicate IsBestSelection(sel: string, s: string, k: nat) {
    && |sel| == k
    && IsSubseq(sel, s)
    && forall x :: |x| == k && IsSubseq(x, s) ==> LexLe(x, sel)
  }

  /** There is only one greatest selection. */
  lemma BestSelectionUnique(a: string, b: string, s: string, k: nat)
    requires IsBestSelection(a, s, k) && IsBestSelection(b, s, k)
    ensures a == b
  {
    LexAntisym(a, b);
  }

  /**
   * Reference definition of the greatest `k`-selection of `s`: either it
   * does not use the last character, or it is the greatest `(k-1)`-selection
   * of the rest followed by that character.
   */
  function MaxSel(s: string, k: nat): (sel: string)
    requires k <= |s|
    ensures |sel| == k
    decreases |s|
  {
    if k == 0 then []
    else if k == |s| then s
    else
      var init := s[..|s| - 1];
      var keep := MaxSel(init, k);
      var take := MaxSel(init, k - 1) + [s[|s| - 1]];
      if LexLe(keep, take) then take else keep
  }

  /** One selection `x` of `s` against `MaxSel(s, k)`, given the greatest selections of the rest. */
  lemma MaxSelBeats(s: string, k: nat, x: string)
    requires 0 < k < |s|
    requires IsBestSelection(MaxSel(s[..|s| - 1], k), s[..|s| - 1], k)
    requires IsBestSelection(MaxSel(s[..|s| - 1], k - 1), s[..|s| - 1], k - 1)
    requires |x| == k && IsSubseq(x, s)
    ensures LexLe(x, MaxSel(s, k))
  {
    var init, c := s[..|s| - 1], s[|s| - 1];
    var sel := MaxSel(s, k);
    var keep := MaxSel(init, k);
    var take := MaxSel(init, k - 1) + [c];
    LexTotal(keep, take);
    assert LexLe(keep, sel) && LexLe(take, sel) by {
      LexRefl(sel);
    }
    var x' := x[..|x| - 1];
    if x[|x| - 1] == c && IsSubseq(x', init) {
      LexAppend(x', MaxSel(init, k - 1), c);
      assert x == x' + [c];
      LexTrans(x, take, sel);
    } else {
      LexTrans(x, keep, sel);
    }
  }

  /** The inductive step of `MaxSelIsBest`: one more character of `s`. */
  lemma MaxSelStep(s: string, k: nat)
    requires 0 < k < |s|
    requires IsBestSelection(MaxSel(s[..|s| - 1], k), s[..|s| - 1], k)
    requires IsBestSelection(MaxSel(s[..|s| - 1], k - 1), s[..|s| - 1], k - 1)
    ensures IsBestSelection(MaxSel(s, k), s, k)
  {
    var init, c := s[..|s| - 1], s[|s| - 1];
    var take := MaxSel(init, k - 1) + [c];
    assert take[..|take| - 1] == MaxSel(init, k - 1);
    assert IsSubseq(take, s);
    assert IsSubseq(MaxSel(init, k), s);
    forall x | |x| == k && IsSubseq(x, s) ensures LexLe(x, MaxSel(s, k)) {
      MaxSelBeats(s, k, x);
    }
  }

  /** `MaxSel` is the greatest selection. */
  lemma {:induction false} MaxSelIsBest(s: string, k: nat)
    requires k <= |s|
    ensures IsBestSelection(MaxSel(s, k), s, k)
    decreases |s|
  {
    var sel := MaxSel(s, k);
    if k == 0 {
      forall x | |x| == 0 && IsSubseq(x, s) ensures LexLe(x, sel) { }
    } else if k == |s| {
      SubseqSelf(s);
      forall x | |x| == k && IsSubseq(x, s) ensures LexLe(x, sel) {
        SubseqFull(x, s);
        LexRefl(x);
      }
    } else {
      MaxSelIsBest(s[..|s| - 1], k);
      MaxSelIsBest(s[..|s| - 1], k - 1);
      MaxSelStep(s, k);
    }
  }

  /** For digit strings of one length, lexicographic order is numeric order. */
  lemma {:induction false} LexLeValue(x: string, y: string)
    requires AllDigits(x) && AllDigits(y) && |x| == |y| && LexLe(x, y)
    ensures DigitsValue(x) <= DigitsValue(y)
    decreases |x|
  {
    if x != [] {
      DigitsValueFront(x);
      DigitsValueFront(y);
      var p := Pow10(|x| - 1);
      assert forall i :: 0 <= i < |x| - 1 ==> x[1..][i] == x[i + 1] && y[1..][i] == y[i + 1];
      if x[0] < y[0] {
        LeadingDigitDominates(DigitValue(x[0]), DigitValue(y[0]), p, DigitsValue(x[1..]), DigitsValue(y[1..]));
      } else {
        LexLeValue(x[1..], y[1..]);
      }
    }
  }

  /** A larger leading digit outweighs any tail shorter than the place value. */
  lemma LeadingDigitDominates(dx: nat, dy: nat, p: nat, a: nat, b: nat)
    requires dx < dy && a < p
    ensures dx * p + a <= dy * p + b
  {
    var m := dy - dx;
    MulAtLeast(p, m);
    assert dy * p == dx * p + m * p;
  }

  /**
   * `v` is the largest number spelled by `k` digits of `s` kept in order,
   * and some such selection spells it.
   */
  ghost predicate IsLargestPick(v: int, s: string, k: nat) {
    && (exists x :: |x| == k && IsSubseq(x, s) && AllDigits(x) && DigitsValue(x) == v)
    && forall x :: |x| == k && IsSubseq(x, s) && AllDigits(x) ==> DigitsValue(x) <= v
  }

  /** The greatest selection of a digit string spells the largest number. */
  lemma MaxSelLargest(s: string, k: nat)
    requires k <= |s| && AllDigits(s)
    ensures AllDigits(MaxSel(s, k)) && IsLargestPick(DigitsValue(MaxSel(s, k)), s, k)
  {
    MaxSelIsBest(s, k);
    var sel := MaxSel(s, k);
    SubseqDigits(sel, s);
    forall x | |x| == k && IsSubseq(x, s) && AllDigits(x) ensures DigitsValue(x) <= DigitsValue(sel) {
      LexLeValue(x, sel);
    }
  }

  // ---------------------------------------------------------------------
  // The greedy stack

  /** From position `lo` on, `st` never increases. */
  ghost predicate NonIncreasingFrom(st: string, lo: int) {
    forall a, b :: 0 <= a <= b < |st| && lo <= a ==> st[b] <= st[a]
  }

  /** No selection from `t` with a length in `lo..k` exceeds `st`. */
  ghost predicate Dominates(st: string, t: string, lo: int, k: nat) {
    forall x :: IsSubseq(x, t) && lo <= |x| <= k ==> LexLe(x, st)
  }

  /**
   * The stack after the prefix `t` has been scanned, with lower bound
   * `lo = k - (characters still to come)`: it is a selection from `t` of an
   * admissible length and no admissible selection from `t` exceeds it.
   */
  ghost predicate StackInv(st: string, t: string, lo: int, k: nat) {
    && IsSubseq(st, t)
    && lo <= |st| <= k
    && NonIncreasingFrom(st, lo)
    && Dominates(st, t, lo, k)
  }

  /** Reading `t + [c]` as one more character: a selection either ends in it or avoids it. */
  lemma SubseqSnoc(y: string, t: string, c: char)
    requires y != [] && IsSubseq(y, t + [c])
    ensures (y[|y| - 1] == c && IsSubseq(y[..|y| - 1], t)) || IsSubseq(y, t)
  {
    assert (t + [c])[..|t|] == t;
  }

  /** Pushing `c` onto a stack prefix gives a selection of `t + [c]`. */
  lemma PushSelection(t: string, c: char, before: string, p: string)
    requires IsSubseq(before, t) && |p| <= |before| && p == before[..|p|]
    ensures IsSubseq(p + [c], t + [c])
  {
    SubseqPrefix(before, |p|, t);
    assert (t + [c])[..|t|] == t && (p + [c])[..|p|] == p;
  }

  /** Pushing `c` keeps the stack non-increasing from the next lower bound on. */
  lemma PushOrder(c: char, lo: int, before: string, p: string)
    requires NonIncreasingFrom(before, lo)
    requires |p| <= |before| && p == before[..|p|]
    requires |p| == 0 || |p| <= lo || p[|p| - 1] >= c
    ensures NonIncreasingFrom(p + [c], lo + 1)
  {
    var st := p + [c];
    forall a, b | 0 <= a <= b < |st| && lo + 1 <= a ensures st[b] <= st[a] {
      if b == |p| && a < b {
        assert before[a] == p[a] && before[|p| - 1] == p[|p| - 1];
      } else if b < |p| {
        assert before[a] == p[a] && before[b] == p[b];
      }
    }
  }

  /**
   * What the stack invariant says about a selection `x` of `t`: it does not
   * exceed the stack, and the stack prefix `p` holds at least `c` at `|x|`.
   */
  lemma PushTakesLastFacts(t: string, c: char, lo: int, k: nat, before: string, p: string, x: string)
    requires Dominates(before, t, lo, k) && NonIncreasingFrom(before, lo)
    requires |p| <= |before| && p == before[..|p|]
    requires |p| == 0 || |p| <= lo || p[|p| - 1] >= c
    requires IsSubseq(x, t) && lo <= |x| <= k
    ensures LexLe(x, before)
    ensures |x| < |p| ==> p[|x|] >= c
  {
    if |x| < |p| {
      assert before[|x|] == p[|x|] && before[|p| - 1] == p[|p| - 1];
    }
  }

  /** A selection `y` that ends in the pushed character does not exceed the stack. */
  lemma PushTakesLast(c: char, before: string, p: string, y: string)
    requires |p| <= |before| && p == before[..|p|]
    requires |p| < |before| ==> before[|p|] < c
    requires y != [] && y[|y| - 1] == c && LexLe(y[..|y| - 1], before)
    requires |y| - 1 < |p| ==> p[|y| - 1] >= c
    ensures LexLe(y, p + [c])
  {
    var x := y[..|y| - 1];
    assert y == x + [c];
    var rest := before[|p|..];
    assert before == p + rest;
    LexPushed(x, p, rest, c);
  }

  /** A selection `y` that avoids the pushed character does not exceed the stack. */
  lemma PushSkipsLast(t: string, c: char, lo: int, k: nat, before: string, p: string, y: string)
    requires Dominates(before, t, lo, k)
    requires |p| <= |before| && p == before[..|p|]
    requires |p| < |before| ==> before[|p|] < c
    requires IsSubseq(y, t) && lo <= |y| <= k
    ensures LexLe(y, p + [c])
  {
    var rest := before[|p|..];
    assert before == p + rest;
    assert LexLe(y, before);
    LexRaiseTail(p, rest, c);
    LexTrans(y, before, p + [c]);
  }

  /** After pops and a push, one admissible selection `y` of `t + [c]` does not exceed the stack. */
  lemma PushDominatesOne(t: string, c: char, lo: int, k: nat, before: string, p: string, y: string)
    requires Dominates(before, t, lo, k) && NonIncreasingFrom(before, lo)
    requires |p| <= |before| && p == before[..|p|]
    requires |p| < |before| ==> before[|p|] < c
    requires |p| == 0 || |p| <= lo || p[|p| - 1] >= c
    requires IsSubseq(y, t + [c]) && lo + 1 <= |y| <= k
    ensures LexLe(y, p + [c])
  {
    if y == [] {
      assert LexLe(y, p + [c]);
    } else {
      SubseqSnoc(y, t, c);
      if y[|y| - 1] == c && IsSubseq(y[..|y| - 1], t) {
        PushTakesLastFacts(t, c, lo, k, before, p, y[..|y| - 1]);
        PushTakesLast(c, before, p, y);
      } else {
        PushSkipsLast(t, c, lo, k, before, p, y);
      }
    }
  }

  /** After pops and a push, no admissible selection of `t + [c]` exceeds the stack. */
  lemma PushDominates(t: string, c: char, lo: int, k: nat, before: string, p: string)
    requires Dominates(before, t, lo, k) && NonIncreasingFrom(before, lo)
    requires |p| <= |before| && p == before[..|p|] && |p| < k
    requires |p| < |before| ==> before[|p|] < c
    requires |p| == 0 || |p| <= lo || p[|p| - 1] >= c
    ensures Dominates(p + [c], t + [c], lo + 1, k)
  {
    forall y | IsSubseq(y, t + [c]) && lo + 1 <= |y| <= k ensures LexLe(y, p + [c]) {
      PushDominatesOne(t, c, lo, k, before, p, y);
    }
  }

  /** One scanning step keeps the invariant when the incoming character `s[i]` is pushed. */
  lemma StepPush(s: string, i: nat, k: nat, before: string, p: string)
    requires i < |s|
    requires StackInv(before, s[..i], k - (|s| - i), k)
    requires |p| <= |before| && p == before[..|p|] && k - (|s| - i) <= |p| < k
    requires |p| < |before| ==> before[|p|] < s[i]
    requires |p| == 0 || |p| <= k - (|s| - i) || p[|p| - 1] >= s[i]
    ensures StackInv(p + [s[i]], s[..i + 1], k - (|s| - (i + 1)), k)
  {
    assert s[..i + 1] == s[..i] + [s[i]];
    PushSelection(s[..i], s[i], before, p);
    PushOrder(s[i], k - (|s| - i), before, p);
    PushDominates(s[..i], s[i], k - (|s| - i), k, before, p);
  }

  /** One scanning step keeps the invariant when the stack is full and `s[i]` is skipped. */
  lemma StepSkip(s: string, i: nat, k: nat, p: string)
    requires i < |s|
    requires StackInv(p, s[..i], k - (|s| - i), k)
    requires |p| == k
    requires |p| == 0 || p[|p| - 1] >= s[i]
    ensures StackInv(p, s[..i + 1], k - (|s| - (i + 1)), k)
  {
    var t, c := s[..i], s[i];
    assert s[..i + 1] == t + [c];
    assert (t + [c])[..|t|] == t;
    assert IsSubseq(p, t + [c]);
    forall y | IsSubseq(y, t + [c]) && k - (|s| - (i + 1)) <= |y| <= k ensures LexLe(y, p) {
      if y != [] {
        SubseqSnoc(y, t, c);
        var x := y[..|y| - 1];
        if y[|y| - 1] == c && IsSubseq(x, t) {
          LexSkipped(x, p, c);
          assert y == x + [c];
        }
      }
    }
  }

  /**
   * The monotonic-stack loop of `best_k_digits`: scanning left to right, pop
   * smaller characters while enough of the line remains to refill, push
   * while fewer than `k` are kept. The stack ends as the greatest
   * `k`-character selection.
   */
  method KeepLargest(s: string, k: nat) returns (stack: string)
    requires 0 < k <= |s|
    ensures stack == MaxSel(s, k)
  {
    var n := |s|;
    stack := [];
    for i := 0 to n
      invariant StackInv(stack, s[..i], k - (n - i), k)
    {
      var ch := s[i];
      var remain := n - i - 1;
      ghost var before := stack;
      while |stack| > 0 && stack[|stack| - 1] < ch && |stack| + remain + 1 > k
        invariant stack == before[..|stack|]
        invariant |stack| >= k - (n - i)
        invariant |stack| < |before| ==> before[|stack|] < ch
      {
        stack := stack[..|stack| - 1];
      }
      if |stack| < k {
        StepPush(s, i, k, before, stack);
        stack := stack + [ch];
      } else {
        assert stack == before;
        StepSkip(s, i, k, stack);
      }
    }
    assert s[..n] == s;
    // with the whole line scanned, the invariant is the greatest `k`-selection
    assert IsBestSelection(stack, s, k);
    // the stack never exceeds k characters, so `stack[:k]` keeps all of it
    assert stack[..k] == stack;
    stack := stack[..k];
    MaxSelIsBest(s, k);
    BestSelectionUnique(stack, MaxSel(s, k), s, k);
  }

  /**
   * `best_k_digits`: strips the line, returns 0 when `k <= 0` or the line
   * is shorter than `k`, and otherwise keeps the greatest `k`-selection and
   * reads it as an integer (`None` when it is not one).
   */
  method BestKDigits(line: string, k: int) returns (r: Option<int>)
    ensures r == Joltage(line, k)
    ensures k <= 0 || |Strip(line)| < k ==> r == Some(0)
    ensures 0 < k <= |Strip(line)| ==> r == ParseInt(MaxSel(Strip(line), k))
  {
    var s := Strip(line);
    if k <= 0 || |s| < k {
      return Some(0);
    }
    var stack := KeepLargest(s, k);
    r := ParseInt(stack);
  }

  /** What `best_k_digits(line, k)` returns, in terms of the greatest selection. */
  function Joltage(line: string, k: int): Option<int> {
    if k <= 0 || |Strip(line)| < k then Some(0) else ParseInt(MaxSel(Strip(line), k))
  }

  /** On a line of digits, `best_k_digits` returns the largest `k`-digit pick. */
  lemma JoltageLargest(line: string, k: int)
    requires 0 < k <= |Strip(line)| && AllDigits(Strip(line))
    ensures Joltage(line, k).Some? && IsLargestPick(Joltage(line, k).value, Strip(line), k)
  {
    var s := Strip(line);
    MaxSelLargest(s, k);
    ParseDigits(MaxSel(s, k));
  }

  /** What the loop of `day3` does with one line: skip it when blank, else add its joltage. */
  function JoltageStep(line: string, k: int): Step<int> {
    if Strip(line) == [] then Skip
    else
      match Joltage(line, k)
      case None => Fail
      case Some(v) => Keep(v)
  }

  /** The step taken for each line. */
  function JoltageSteps(lines: seq<string>, k: int): (steps: seq<Step<int>>)
    ensures |steps| == |lines|
  {
    seq(|lines|, i requires 0 <= i < |lines| => JoltageStep(lines[i], k))
  }

  /** The sum of the values kept over the first `n` steps, or `None` once one fails. */
  function SumSteps(steps: seq<Step<int>>, n: nat): Option<int>
    requires n <= |steps|
  {
    match Gather(steps, n)
    case None => None
    case Some(values) => Some(Sum(values))
  }

  /** One more step of a summing loop. */
  lemma SumStepsStep(steps: seq<Step<int>>, i: nat, total: int)
    requires i < |steps| && SumSteps(steps, i) == Some(total)
    ensures steps[i].Skip? ==> SumSteps(steps, i + 1) == Some(total)
    ensures steps[i].Keep? ==> SumSteps(steps, i + 1) == Some(total + steps[i].value)
    ensures steps[i].Fail? ==> SumSteps(steps, |steps|) == None
  {
    var values := Gather(steps, i).value;
    GatherStep(steps, i, values);
    if steps[i].Keep? {
      SumAppend(values, [steps[i].value]);
      assert [steps[i].value][1..] == [];
    }
  }

  /**
   * The sum of `Joltage` over the first `n` lines, leaving out blank ones;
   * `None` if any of them raises.
   */
  function SumJoltage(lines: seq<string>, k: int, n: nat): Option<int>
    requires n <= |lines|
  {
    SumSteps(JoltageSteps(lines, k), n)
  }

  /** One more line, as the loop of `day3` takes it; a line that raises ends the sum. */
  lemma SumJoltageStep(lines: seq<string>, k: int, i: nat, total: int)
    requires i < |lines| && SumJoltage(lines, k, i) == Some(total)
    ensures Strip(lines[i]) == [] ==> SumJoltage(lines, k, i + 1) == Some(total)
    ensures Strip(lines[i]) != [] && Joltage(lines[i], k).Some? ==>
              SumJoltage(lines, k, i + 1) == Some(total + Joltage(lines[i], k).value)
    ensures Strip(lines[i]) != [] && Joltage(lines[i], k).None? ==>
              SumJoltage(lines, k, |lines|) == None
  {
    var steps := JoltageSteps(lines, k);
    assert steps[i] == JoltageStep(lines[i], k);
    SumStepsStep(steps, i, total);
  }

  /** `day3`: adds `best_k_digits(line, k)` over the lines that are not blank. */
  method Day3(lines: seq<string>, k: int) returns (r: Option<int>)
    ensures r == SumJoltage(lines, k, |lines|)
  {
    var total := 0;
    for i := 0 to |lines|
      invariant SumJoltage(lines, k, i) == Some(total)
    {
      var line := lines[i];
      SumJoltageStep(lines, k, i, total);
      if Strip(line) != [] {
        var v := BestKDigits(line, k);
        if v.None? {
          return None;
        }
        total := total + v.value;
      }
    }
    r := Some(total);
  }
}
