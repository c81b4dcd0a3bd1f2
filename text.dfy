/**
 * The few pieces of Python's string handling that the solvers rely on:
 * `str.strip()`, `str.split(sep)`, `int(s)` restricted to an optional sign
 * followed by ASCII digits, and `str(n)` for naturals.
 */
module Text {
  import opened Results

  /** Python's `str.isspace()` for one character (the whole Unicode set). */
  predicate IsSpace(c: char) {
    var n := c as int;
    (9 <= n <= 13) || (28 <= n <= 32) || n == 0x85 || n == 0xA0 || n == 0x1680
    || (0x2000 <= n <= 0x200A) || n == 0x2028 || n == 0x2029 || n == 0x202F
    || n == 0x205F || n == 0x3000
  }

  /** An ASCII decimal digit. */
  predicate IsDigit(c: char) {
    '0' <= c <= '9'
  }

  /** Every character is whitespace (so the empty string is blank). */
  predicate IsBlank(s: string) {
    forall i :: 0 <= i < |s| ==> IsSpace(s[i])
  }

  predicate AllDigits(s: string) {
    forall i :: 0 <= i < |s| ==> IsDigit(s[i])
  }

  // ---------------------------------------------------------------------
  // strip()

  /** `s.lstrip()`. */
  function TrimStart(s: string): (r: string)
    ensures |r| <= |s|
  {
    if s != [] && IsSpace(s[0]) then TrimStart(s[1..]) else s
  }

  /** `s.lstrip()` drops the leading whitespace and nothing else. */
  lemma {:induction false} TrimStartSpec(s: string)
    ensures TrimStart(s) == s[|s| - |TrimStart(s)|..]
    ensures IsBlank(s[..|s| - |TrimStart(s)|])
    ensures TrimStart(s) == [] || !IsSpace(TrimStart(s)[0])
    decreases |s|
  {
    if s != [] && IsSpace(s[0]) {
      var r := TrimStart(s[1..]);
      TrimStartSpec(s[1..]);
      assert s[1..][|s| - 1 - |r|..] == s[|s| - |r|..];
      forall i | 0 <= i < |s| - |r| ensures IsSpace(s[i]) {
        if i > 0 {
          assert s[i] == s[1..][..|s| - 1 - |r|][i - 1];
        }
      }
    }
  }

  /** `s.rstrip()`. */
  function TrimEnd(s: string): (r: string)
    ensures |r| <= |s|
  {
    if s != [] && IsSpace(s[|s| - 1]) then TrimEnd(s[..|s| - 1]) else s
  }

  /** `s.rstrip()` drops the trailing whitespace and nothing else. */
  lemma {:induction false} TrimEndSpec(s: string)
    ensures TrimEnd(s) == s[..|TrimEnd(s)|]
    ensures IsBlank(s[|TrimEnd(s)|..])
    ensures TrimEnd(s) == [] || !IsSpace(TrimEnd(s)[|TrimEnd(s)| - 1])
    decreases |s|
  {
    if s != [] && IsSpace(s[|s| - 1]) {
      var r := TrimEnd(s[..|s| - 1]);
      TrimEndSpec(s[..|s| - 1]);
      assert s[..|s| - 1][..|r|] == s[..|r|];
      forall i | |r| <= i < |s| ensures IsSpace(s[i]) {
        if i < |s| - 1 {
          assert s[i] == s[..|s| - 1][|r|..][i - |r|];
        }
      }
    }
  }

  /** How many whitespace characters `s.strip()` drops at the front. */
  function StripOffset(s: string): (i: nat)
    ensures i <= |s|
  {
    |s| - |TrimStart(s)|
  }

  /** `s.strip()`. */
  function Strip(s: string): (r: string)
    ensures |r| <= |s|
  {
    TrimEnd(TrimStart(s))
  }

  /**
   * `s.strip()` is the infix of `s` left once every leading and trailing
   * whitespace character is dropped; it neither starts nor ends with one.
   */
  lemma StripSpec(s: string)
    ensures StripOffset(s) + |Strip(s)| <= |s|
    ensures Strip(s) == s[StripOffset(s)..StripOffset(s) + |Strip(s)|]
    ensures IsBlank(s[..StripOffset(s)]) && IsBlank(s[StripOffset(s) + |Strip(s)|..])
    ensures Strip(s) == [] || (!IsSpace(Strip(s)[0]) && !IsSpace(Strip(s)[|Strip(s)| - 1]))
  {
    var t := TrimStart(s);
    var r := TrimEnd(t);
    var i := |s| - |t|;
    TrimStartSpec(s);
    TrimEndSpec(t);
    assert r == s[i..i + |r|];
    assert s[i + |r|..] == t[|r|..];
  }

  /** `s.strip()` is empty exactly when `s` is all whitespace. */
  lemma StripEmpty(s: string)
    ensures Strip(s) == [] <==> IsBlank(s)
  {
    StripSpec(s);
    var i := StripOffset(s);
    if Strip(s) == [] {
      assert s == s[..i] + s[i..];
    } else {
      assert s[i] == Strip(s)[0];
    }
  }

  /** Stripping a string that is already stripped changes nothing. */
  lemma StripUnchanged(s: string)
    requires s == [] || (!IsSpace(s[0]) && !IsSpace(s[|s| - 1]))
    ensures Strip(s) == s
  {
    assert TrimStart(s) == s;
  }

  /** Every character of the stripped string comes from the original. */
  lemma StripChars(s: string, c: char)
    requires c in Strip(s)
    ensures c in s
  {
    StripSpec(s);
    var r, i := Strip(s), StripOffset(s);
    var k :| 0 <= k < |r| && r[k] == c;
    assert s[i + k] == c;
  }

  // ---------------------------------------------------------------------
  // split(sep)

  /** `sep` occurs in `s` at position `i`. */
  predicate OccursAt(s: string, sep: string, i: int) {
    0 <= i && i + |sep| <= |s| && s[i..i + |sep|] == sep
  }

  /** `s.find(sep)`, with `None` for Python's `-1`. */
  function Find(s: string, sep: string): (r: Option<nat>)
    requires |sep| > 0
    ensures r.Some? ==> r.value + |sep| <= |s|
    decreases |s|
  {
    if |s| < |sep| then None
    else if s[..|sep|] == sep then Some(0)
    else
      match Find(s[1..], sep)
      case None => None
      case Some(i) => Some(i + 1)
  }

  /** An occurrence at `i >= 1` is an occurrence at `i - 1` in the tail. */
  lemma OccursShift(s: string, sep: string, i: nat)
    requires 1 <= i <= |s|
    ensures OccursAt(s, sep, i) <==> OccursAt(s[1..], sep, i - 1)
  {
    if i + |sep| <= |s| {
      var a, b := s[i..i + |sep|], s[1..][i - 1..i - 1 + |sep|];
      forall j | 0 <= j < |sep| ensures a[j] == b[j] {
        assert a[j] == s[i + j];
        assert b[j] == s[1..][i - 1 + j];
      }
      assert a == b;
    }
  }

  /** Where `s.find(sep)` points, `sep` occurs. */
  lemma {:induction false} FindOccurs(s: string, sep: string)
    requires |sep| > 0
    ensures Find(s, sep).Some? ==> OccursAt(s, sep, Find(s, sep).value)
    decreases |s|
  {
    if |s| >= |sep| && s[..|sep|] != sep {
      FindOccurs(s[1..], sep);
      if Find(s, sep).Some? {
        OccursShift(s, sep, Find(s, sep).value);
      }
    }
  }

  /** `sep` occurs nowhere before the position `s.find(sep)` reports, or nowhere at all. */
  lemma {:induction false} FindFirst(s: string, sep: string)
    requires |sep| > 0
    ensures forall i :: 0 <= i < (if Find(s, sep).Some? then Find(s, sep).value else |s|) ==>
              !OccursAt(s, sep, i)
    decreases |s|
  {
    if |s| >= |sep| && s[..|sep|] != sep {
      FindFirst(s[1..], sep);
      forall i | 1 <= i <= |s| ensures OccursAt(s, sep, i) <==> OccursAt(s[1..], sep, i - 1) {
        OccursShift(s, sep, i);
      }
    }
  }

  /** `s.find(sep)` is the first occurrence, when one is known. */
  lemma FindAt(s: string, sep: string, k: nat)
    requires |sep| > 0 && OccursAt(s, sep, k)
    requires forall i :: 0 <= i < k ==> !OccursAt(s, sep, i)
    ensures Find(s, sep) == Some(k)
  {
    FindOccurs(s, sep);
    FindFirst(s, sep);
  }

  /** `s.find(sep)` finds nothing where `sep` does not occur. */
  lemma FindAbsent(s: string, sep: string)
    requires |sep| > 0
    requires forall i :: 0 <= i < |s| ==> !OccursAt(s, sep, i)
    ensures Find(s, sep) == None
  {
    FindOccurs(s, sep);
  }

  /** `s.split(sep)`: the pieces between the non-overlapping occurrences of `sep`, left to right. */
  function Split(s: string, sep: string): (parts: seq<string>)
    requires |sep| > 0
    ensures |parts| >= 1
    decreases |s|
  {
    match Find(s, sep)
    case None => [s]
    case Some(i) => [s[..i]] + Split(s[i + |sep|..], sep)
  }

  /** The position of the last `c` in `s`, as `s.rsplit(c, 1)` cuts it. */
  function RFindChar(s: string, c: char): (r: Option<nat>)
    ensures r.Some? ==> r.value < |s|
    decreases |s|
  {
    if s == [] then None
    else if s[|s| - 1] == c then Some(|s| - 1)
    else RFindChar(s[..|s| - 1], c)
  }

  /** `RFindChar` finds the last occurrence, or reports that there is none. */
  lemma {:induction false} RFindCharSpec(s: string, c: char)
    ensures RFindChar(s, c).Some? ==> s[RFindChar(s, c).value] == c
    ensures forall j :: (if RFindChar(s, c).Some? then RFindChar(s, c).value + 1 else 0) <= j < |s| ==>
              s[j] != c
    decreases |s|
  {
    if s != [] && s[|s| - 1] != c {
      RFindCharSpec(s[..|s| - 1], c);
    }
  }

  /** Two digit strings joined by one `-` split into exactly those two pieces. */
  lemma SplitAtDash(x: string, y: string)
    requires AllDigits(x) && AllDigits(y)
    ensures Split(x + "-" + y, "-") == [x, y]
  {
    var line := x + "-" + y;
    assert OccursAt(line, "-", |x|);
    forall i | 0 <= i < |x| ensures !OccursAt(line, "-", i) {
      assert line[i..i + 1] == [x[i]];
    }
    FindAt(line, "-", |x|);
    forall i | 0 <= i < |y| ensures !OccursAt(y, "-", i) {
      assert y[i..i + 1] == [y[i]];
    }
    FindAbsent(y, "-");
    assert line[..|x|] == x;
    assert line[|x| + 1..] == y;
    assert Split(y, "-") == [y];
  }

  /** `sep.join(parts)`. */
  function Join(parts: seq<string>, sep: string): string
    decreases |parts|
  {
    if |parts| == 0 then ""
    else if |parts| == 1 then parts[0]
    else parts[0] + sep + Join(parts[1..], sep)
  }

  /** Joining a list of at least two pieces puts the separator after the first. */
  lemma JoinCons(x: string, parts: seq<string>, sep: string)
    requires |parts| >= 1
    ensures Join([x] + parts, sep) == x + sep + Join(parts, sep)
  {
    assert ([x] + parts)[1..] == parts;
  }

  /** A string is the concatenation of its three slices at `i` and `j`. */
  lemma SliceThree(s: string, i: nat, j: nat)
    requires i <= j <= |s|
    ensures s == s[..i] + s[i..j] + s[j..]
  {
    assert s == s[..i] + s[i..];
    assert s[i..] == s[i..j] + s[j..];
  }

  /** Joining the pieces of a split with the same separator gives back the string. */
  lemma {:induction false} JoinSplit(s: string, sep: string)
    requires |sep| > 0
    ensures Join(Split(s, sep), sep) == s
    decreases |s|
  {
    if Find(s, sep).Some? {
      var i := Find(s, sep).value;
      FindOccurs(s, sep);
      var rest := s[i + |sep|..];
      JoinSplit(rest, sep);
      var parts := Split(rest, sep);
      assert Split(s, sep) == [s[..i]] + parts;
      JoinCons(s[..i], parts, sep);
      assert s[i..i + |sep|] == sep;
      SliceThree(s, i, i + |sep|);
    }
  }

  /** No piece of a split contains the separator. */
  lemma {:induction false} SplitPiecesFree(s: string, sep: string, p: nat, j: int)
    requires |sep| > 0
    requires p < |Split(s, sep)|
    ensures !OccursAt(Split(s, sep)[p], sep, j)
    decreases |s|
  {
    FindFirst(s, sep);
    match Find(s, sep)
    case None =>
      assert !OccursAt(s, sep, j);
    case Some(i) =>
      if p == 0 {
        assert Split(s, sep)[0] == s[..i];
        if 0 <= j && j + |sep| <= i {
          assert s[..i][j..j + |sep|] == s[j..j + |sep|];
          assert !OccursAt(s, sep, j);
        }
      } else {
        SplitPiecesFree(s[i + |sep|..], sep, p - 1, j);
      }
  }

  /** With a one-character separator, no piece holds that character. */
  lemma SplitOnChar(s: string, c: char, p: nat, j: nat)
    requires p < |Split(s, [c])| && j < |Split(s, [c])[p]|
    ensures Split(s, [c])[p][j] != c
  {
    SplitPiecesFree(s, [c], p, j);
    var piece := Split(s, [c])[p];
    assert piece[j..j + 1] == [piece[j]];
  }

  // ---------------------------------------------------------------------
  // Decimal digits

  function DigitValue(c: char): (d: nat)
    requires IsDigit(c)
    ensures d < 10
  {
    c as int - '0' as int
  }

  function DigitChar(d: nat): (c: char)
    requires d < 10
    ensures IsDigit(c) && DigitValue(c) == d
  {
    ('0' as int + d) as char
  }

  function Pow10(n: nat): (p: nat)
    ensures p >= 1
  {
    if n == 0 then 1 else 10 * Pow10(n - 1)
  }

  /** `d * x >= d` once `x >= 1`. */
  lemma {:induction false} MulAtLeast(d: nat, x: int)
    ensures x >= 1 ==> d * x >= d
    decreases if x > 0 then x else 0
  {
    if x > 1 {
      MulAtLeast(d, x - 1);
      assert d * x == d * (x - 1) + d;
    }
  }

  /** The value of a string of decimal digits, most significant digit first. */
  function DigitsValue(s: string): (n: nat)
    requires AllDigits(s)
    ensures n < Pow10(|s|)
  {
    if s == [] then 0 else DigitsValue(s[..|s| - 1]) * 10 + DigitValue(s[|s| - 1])
  }

  /** The same value read from the most significant digit. */
  lemma {:induction false} DigitsValueFront(s: string)
    requires AllDigits(s) && |s| >= 1
    ensures DigitsValue(s) == DigitValue(s[0]) * Pow10(|s| - 1) + DigitsValue(s[1..])
    decreases |s|
  {
    if |s| > 1 {
      var init, t := s[..|s| - 1], s[1..];
      DigitsValueFront(init);
      assert init[1..] == t[..|t| - 1];
      assert t[|t| - 1] == s[|s| - 1];
      var d0, p, x, dl := DigitValue(s[0]), Pow10(|s| - 2), DigitsValue(init[1..]), DigitValue(s[|s| - 1]);
      assert DigitsValue(s) == DigitsValue(init) * 10 + dl;
      assert DigitsValue(t) == x * 10 + dl;
      assert Pow10(|s| - 1) == 10 * p;
      ShiftDigit(d0, p, x, dl);
    }
  }

  /** Appending a digit after a leading digit `d0` of weight `p`. */
  lemma ShiftDigit(d0: int, p: int, x: int, dl: int)
    ensures (d0 * p + x) * 10 + dl == d0 * (10 * p) + (x * 10 + dl)
  {
    assert (d0 * p) * 10 == d0 * (10 * p);
  }

  /** `str(n)` for a natural number. */
  function DecimalString(n: nat): (s: string)
    ensures |s| >= 1 && AllDigits(s)
    ensures DigitsValue(s) == n
    ensures s[0] == '0' ==> n == 0
    decreases n
  {
    if n < 10 then [DigitChar(n)]
    else
      var s := DecimalString(n / 10) + [DigitChar(n % 10)];
      assert s[..|s| - 1] == DecimalString(n / 10);
      s
  }

  /** `str(n)` for any integer. */
  function IntString(n: int): string {
    if n < 0 then "-" + DecimalString(-n) else DecimalString(n)
  }

  // ---------------------------------------------------------------------
  // int()

  /** The sign `int()` accepts in front of the digits: none, `+` or `-`. */
  predicate IsSign(p: string) {
    p == "" || p == "+" || p == "-"
  }

  /** Python's `int(s)`: surrounding whitespace is ignored; anything else raises. */
  function ParseInt(s: string): Option<int> {
    var t := Strip(s);
    if |t| >= 1 && (t[0] == '-' || t[0] == '+') then
      if |t| >= 2 && AllDigits(t[1..]) then
        if t[0] == '-' then
          var v: int := 0 - DigitsValue(t[1..]) as int;
          Some(v)
        else Some(DigitsValue(t[1..]))
      else None
    else if |t| >= 1 && AllDigits(t) then Some(DigitsValue(t))
    else None
  }

  /** Digits with no sign, once stripped, parse to their value. */
  lemma UnsignedValue(s: string, d: string)
    requires |d| >= 1 && AllDigits(d) && Strip(s) == d
    ensures ParseInt(s) == Some(DigitsValue(d) as int)
  {
    assert IsDigit(d[0]);
  }

  /** A `+` or `-` and digits, once stripped, parse to the digits' value with that sign. */
  lemma SignedValue(s: string, sign: char, d: string)
    requires (sign == '+' || sign == '-') && |d| >= 1 && AllDigits(d) && Strip(s) == [sign] + d
    ensures ParseInt(s) == Some(if sign == '-' then -(DigitsValue(d) as int) else DigitsValue(d) as int)
  {
    var t := Strip(s);
    assert t[0] == sign && t[1..] == d;
  }

  /** A sign and digits, once stripped, parse to the digits' value with that sign. */
  lemma ParseIntValue(s: string, p: string, d: string)
    requires IsSign(p) && |d| >= 1 && AllDigits(d) && Strip(s) == p + d
    ensures ParseInt(s) == Some(if p == "-" then -(DigitsValue(d) as int) else DigitsValue(d) as int)
  {
    if p == "" {
      assert p + d == d;
      UnsignedValue(s, d);
    } else {
      assert p == [p[0]];
      SignedValue(s, p[0], d);
    }
  }

  /** `int(s)` succeeds exactly when `s`, stripped, is a sign followed by one or more digits. */
  lemma ParseIntAccepts(s: string)
    ensures ParseInt(s).Some? <==>
              exists p, d :: IsSign(p) && |d| >= 1 && AllDigits(d) && Strip(s) == p + d
  {
    var t := Strip(s);
    if ParseInt(s).Some? {
      if t[0] == '-' || t[0] == '+' {
        var p, d := [t[0]], t[1..];
        assert |d| >= 1 && AllDigits(d);
        assert t == p + d;
        assert IsSign(p);
      } else {
        var p, d := "", t;
        assert |d| >= 1 && AllDigits(d);
        assert t == p + d;
      }
    } else if exists p, d :: IsSign(p) && |d| >= 1 && AllDigits(d) && t == p + d {
      var p, d :| IsSign(p) && |d| >= 1 && AllDigits(d) && t == p + d;
      ParseIntValue(s, p, d);
    }
  }

  /** `int(s)` is negative only when `s` holds a minus sign. */
  lemma ParseIntNegative(s: string)
    requires ParseInt(s).Some? && ParseInt(s).value < 0
    ensures '-' in s
  {
    StripChars(s, '-');
  }

  /** `int(str(n)) == n`. */
  lemma ParseIntString(n: int)
    ensures ParseInt(IntString(n)) == Some(n)
  {
    var s := IntString(n);
    assert !IsSpace(s[0]) && !IsSpace(s[|s| - 1]);
    StripUnchanged(s);
    if n < 0 {
      assert s[1..] == DecimalString(-n);
    }
  }

  /** A run of digits is its own stripped form and parses to its digit value. */
  lemma ParseDigits(s: string)
    requires |s| >= 1 && AllDigits(s)
    ensures ParseInt(s) == Some(DigitsValue(s))
  {
    assert !IsSpace(s[0]) && !IsSpace(s[|s| - 1]);
    StripUnchanged(s);
  }
}
