/**
 * The paper-roll grid of `day4/day4.py`: a roll (`@`) is accessible when
 * fewer than four of its eight neighbours are rolls. `day4` counts the
 * accessible rolls; `day4_remove_all` removes every accessible roll at once,
 * again and again, until none is accessible, and reports how many it removed.
 */
module PaperRolls {
  import opened Results

  const Roll := '@'
  const Cleared := '.'

  /** The eight Moore-neighbourhood offsets, in the order the loops try them. */
  const Offsets: seq<(int, int)> :=
    [(-1, -1), (-1, 0), (-1, 1), (0, -1), (0, 1), (1, -1), (1, 0), (1, 1)]

  /** A cell position `(row, column)`. */
  type Cell = (int, int)

  /**
   * Every row has at least `cols` characters. The scans read columns
   * `0..cols` of every row, where `cols` is the length of the first row, so
   * a shorter row raises `IndexError` and longer rows are read only in part.
   */
  predicate Wide(g: seq<string>, cols: nat) {
    forall r :: 0 <= r < |g| ==> |g[r]| >= cols
  }

  /** `0 <= rr < rows and 0 <= cc < cols and grid[rr][cc] == '@'`. */
  predicate IsRoll(g: seq<string>, cols: nat, r: int, c: int)
    requires Wide(g, cols)
  {
    0 <= r < |g| && 0 <= c < cols && g[r][c] == Roll
  }

  /** How many of the first `k` offsets around `(r, c)` hold a roll. */
  function CountOffsets(g: seq<string>, cols: nat, r: int, c: int, k: nat): (n: nat)
    requires Wide(g, cols) && k <= |Offsets|
    ensures n <= k
  {
    if k == 0 then 0
    else
      CountOffsets(g, cols, r, c, k - 1)
      + (if IsRoll(g, cols, r + Offsets[k - 1].0, c + Offsets[k - 1].1) then 1 else 0)
  }

  /** The number of rolls among the eight neighbours of `(r, c)`. */
  function Neighbours(g: seq<string>, cols: nat, r: int, c: int): nat
    requires Wide(g, cols)
  {
    CountOffsets(g, cols, r, c, |Offsets|)
  }

  /** A roll with fewer than four rolls around it. */
  predicate Accessible(g: seq<string>, cols: nat, r: int, c: int)
    requires Wide(g, cols)
  {
    IsRoll(g, cols, r, c) && Neighbours(g, cols, r, c) < 4
  }

  /** Every roll of the grid. */
  ghost function Rolls(g: seq<string>, cols: nat): set<Cell>
    requires Wide(g, cols)
  {
    set r, c | 0 <= r < |g| && 0 <= c < cols && IsRoll(g, cols, r, c) :: (r, c)
  }

  /** Every accessible roll of the grid. */
  ghost function Selected(g: seq<string>, cols: nat): set<Cell>
    requires Wide(g, cols)
  {
    set r, c | 0 <= r < |g| && 0 <= c < cols && Accessible(g, cols, r, c) :: (r, c)
  }

  /** `p` comes before `(r, c)` in row-major order. */
  predicate Before(p: Cell, r: int, c: int) {
    p.0 < r || (p.0 == r && p.1 < c)
  }

  /** The accessible rolls a row-major scan has met before reaching `(r, c)`. */
  ghost function SelectedBefore(g: seq<string>, cols: nat, r: int, c: int): set<Cell>
    requires Wide(g, cols)
  {
    set p | p in Selected(g, cols) && Before(p, r, c)
  }

  // ---------------------------------------------------------------------
  // Counting neighbours

  /** Counting more offsets never counts fewer rolls. */
  lemma {:induction false} CountOffsetsMonotone(g: seq<string>, cols: nat, r: int, c: int, k: nat, m: nat)
    requires Wide(g, cols) && k <= m <= |Offsets|
    ensures CountOffsets(g, cols, r, c, k) <= CountOffsets(g, cols, r, c, m)
    decreases m - k
  {
    if k < m {
      CountOffsetsMonotone(g, cols, r, c, k, m - 1);
    }
  }

  /** `n`, but at most 4: what the neighbour loop's `adj` ends as. */
  function AtMostFour(n: nat): nat {
    if n < 4 then n else 4
  }

  /**
   * The neighbour loop over the unmodified lines of `day4`: it counts rolls
   * among the offsets and stops at the fourth, which leaves the `adj < 4`
   * decision as the full count would make it.
   */
  method AdjacentRolls(g: seq<string>, cols: nat, r: int, c: int) returns (adj: nat)
    requires Wide(g, cols)
    ensures adj == AtMostFour(Neighbours(g, cols, r, c))
    ensures adj < 4 <==> Neighbours(g, cols, r, c) < 4
  {
    adj := 0;
    for k := 0 to |Offsets|
      invariant adj == CountOffsets(g, cols, r, c, k) && adj < 4
    {
      var (dr, dc) := Offsets[k];
      var rr, cc := r + dr, c + dc;
      if 0 <= rr < |g| && 0 <= cc < cols && g[rr][cc] == Roll {
        adj := adj + 1;
        if adj >= 4 {
          CountOffsetsMonotone(g, cols, r, c, k + 1, |Offsets|);
          return;
        }
      }
    }
  }

  // ---------------------------------------------------------------------
  // The row-major scan

  /** One more cell of the scan adds it exactly when it is accessible. */
  lemma ScanCell(g: seq<string>, cols: nat, r: int, c: int)
    requires Wide(g, cols) && 0 <= r < |g| && 0 <= c < cols
    ensures Accessible(g, cols, r, c) ==>
              SelectedBefore(g, cols, r, c + 1) == SelectedBefore(g, cols, r, c) + {(r, c)}
    ensures !Accessible(g, cols, r, c) ==>
              SelectedBefore(g, cols, r, c + 1) == SelectedBefore(g, cols, r, c)
    ensures (r, c) !in SelectedBefore(g, cols, r, c)
  {
    if Accessible(g, cols, r, c) {
      assert (r, c) in Selected(g, cols);
    }
  }

  /** The end of a row is the start of the next. */
  lemma ScanRow(g: seq<string>, cols: nat, r: int)
    requires Wide(g, cols)
    ensures SelectedBefore(g, cols, r, cols) == SelectedBefore(g, cols, r + 1, 0)
  {
  }

  /** Once every row is scanned, the scan has met every accessible roll. */
  lemma ScanDone(g: seq<string>, cols: nat)
    requires Wide(g, cols)
    ensures SelectedBefore(g, cols, |g|, 0) == Selected(g, cols)
  {
  }

  /** The inner loop of `day4`: adds the accessible rolls of row `r` to the running total. */
  method CountRow(lines: seq<string>, cols: nat, r: nat, before: nat) returns (total: nat)
    requires Wide(lines, cols) && r < |lines|
    requires before == |SelectedBefore(lines, cols, r, 0)|
    ensures total == |SelectedBefore(lines, cols, r, cols)|
  {
    var row := lines[r];
    total := before;
    for c := 0 to cols
      invariant total == |SelectedBefore(lines, cols, r, c)|
    {
      ScanCell(lines, cols, r, c);
      if row[c] != Roll {
        continue;
      }
      var adj := AdjacentRolls(lines, cols, r, c);
      if adj < 4 {
        total := total + 1;
      }
    }
  }

  /**
   * `day4`: counts the accessible rolls of the lines. No lines gives 0; a
   * row shorter than the first raises.
   */
  method Day4(lines: seq<string>) returns (result: Option<nat>)
    ensures lines == [] ==> result == Some(0)
    ensures lines != [] && !Wide(lines, |lines[0]|) ==> result == None
    ensures lines != [] && Wide(lines, |lines[0]|) ==>
              result == Some(|Selected(lines, |lines[0]|)|)
  {
    if lines == [] {
      return Some(0);
    }
    var rows, cols := |lines|, |lines[0]|;
    if !Wide(lines, cols) {
      return None;
    }
    var total := 0;
    for r := 0 to rows
      invariant total == |SelectedBefore(lines, cols, r, 0)|
    {
      total := CountRow(lines, cols, r, total);
      ScanRow(lines, cols, r);
    }
    ScanDone(lines, cols);
    result := Some(total);
  }

  // ---------------------------------------------------------------------
  // Removing rolls

  /** The grid with every cell of `s` turned into `.` and nothing else changed. */
  function Clear(g: seq<string>, s: set<Cell>): (h: seq<string>)
    ensures |h| == |g|
    ensures forall r :: 0 <= r < |g| ==> |h[r]| == |g[r]|
  {
    seq(|g|, r requires 0 <= r < |g| =>
      seq(|g[r]|, c requires 0 <= c < |g[r]| => if (r, c) in s then Cleared else g[r][c]))
  }

  /** Clearing rolls removes exactly them from the grid's rolls. */
  lemma ClearRolls(g: seq<string>, cols: nat, s: set<Cell>)
    requires Wide(g, cols) && s <= Rolls(g, cols)
    ensures Wide(Clear(g, s), cols)
    ensures Rolls(Clear(g, s), cols) == Rolls(g, cols) - s
    ensures |Rolls(Clear(g, s), cols)| == |Rolls(g, cols)| - |s|
  {
    var h := Clear(g, s);
    assert Rolls(h, cols) == Rolls(g, cols) - s by {
      forall p | p in Rolls(h, cols) ensures p in Rolls(g, cols) - s {
        var (r, c) := p;
        assert h[r][c] == Roll;
      }
      forall p | p in Rolls(g, cols) - s ensures p in Rolls(h, cols) {
        var (r, c) := p;
        assert IsRoll(h, cols, r, c);
      }
    }
  }

  /** Every accessible cell is a roll. */
  lemma SelectedAreRolls(g: seq<string>, cols: nat)
    requires Wide(g, cols)
    ensures Selected(g, cols) <= Rolls(g, cols)
  {
  }

  /**
   * The number of rolls the passes of `day4_remove_all` remove from `g`: each
   * pass clears every accessible roll at once, until a pass finds none.
   */
  ghost function Removed(g: seq<string>, cols: nat): nat
    requires Wide(g, cols)
    decreases |Rolls(g, cols)|
  {
    var s := Selected(g, cols);
    if s == {} then 0
    else
      SelectedAreRolls(g, cols);
      ClearRolls(g, cols, s);
      |s| + Removed(Clear(g, s), cols)
  }

  /** The grid the passes leave behind. */
  ghost function Settled(g: seq<string>, cols: nat): (h: seq<string>)
    requires Wide(g, cols)
    ensures Wide(h, cols)
    decreases |Rolls(g, cols)|
  {
    var s := Selected(g, cols);
    if s == {} then g
    else
      SelectedAreRolls(g, cols);
      ClearRolls(g, cols, s);
      Settled(Clear(g, s), cols)
  }

  /** The passes remove exactly the rolls missing from the settled grid, and no accessible roll is left. */
  lemma {:induction false} RemovedSettles(g: seq<string>, cols: nat)
    requires Wide(g, cols)
    ensures Selected(Settled(g, cols), cols) == {}
    ensures Rolls(Settled(g, cols), cols) <= Rolls(g, cols)
    ensures Removed(g, cols) == |Rolls(g, cols)| - |Rolls(Settled(g, cols), cols)|
    ensures Removed(g, cols) <= |Rolls(g, cols)|
    decreases |Rolls(g, cols)|
  {
    var s := Selected(g, cols);
    if s != {} {
      SelectedAreRolls(g, cols);
      ClearRolls(g, cols, s);
      RemovedSettles(Clear(g, s), cols);
    }
  }

  /** The first pass removes exactly what `day4` counts; later passes only add to it. */
  lemma RemovedFirstPass(g: seq<string>, cols: nat)
    requires Wide(g, cols)
    ensures Removed(g, cols) >= |Selected(g, cols)|
    ensures Removed(g, cols) == 0 <==> Selected(g, cols) == {}
  {
  }

  /** The cells listed in `cells`. */
  ghost function Elems(cells: seq<Cell>): set<Cell> {
    set p | p in cells
  }

  /** The array holds the first `cols` columns of `g`. */
  ghost predicate Mirrors(a: array2<char>, g: seq<string>, cols: nat)
    reads a
  {
    a.Length0 == |g| && a.Length1 == cols && Wide(g, cols)
    && forall r, c :: 0 <= r < a.Length0 && 0 <= c < a.Length1 ==> a[r, c] == g[r][c]
  }

  /** The neighbour loop of `day4_remove_all`, reading the mutable grid. */
  method AdjacentRollsIn(a: array2<char>, ghost g: seq<string>, r: int, c: int) returns (adj: nat)
    requires Mirrors(a, g, a.Length1)
    ensures adj == AtMostFour(Neighbours(g, a.Length1, r, c))
  {
    var rows, cols := a.Length0, a.Length1;
    adj := 0;
    for k := 0 to |Offsets|
      invariant adj == CountOffsets(g, cols, r, c, k) && adj < 4
    {
      var (dr, dc) := Offsets[k];
      var rr, cc := r + dr, c + dc;
      if 0 <= rr < rows && 0 <= cc < cols && a[rr, cc] == Roll {
        adj := adj + 1;
        if adj >= 4 {
          CountOffsetsMonotone(g, cols, r, c, k + 1, |Offsets|);
          return;
        }
      }
    }
  }

  /** Adding a cell not yet listed grows the listed set by one. */
  lemma ElemsAppend(cells: seq<Cell>, p: Cell)
    ensures Elems(cells + [p]) == Elems(cells) + {p}
  {
  }

  /** The inner loop of one pass: appends the accessible rolls of row `r`, left to right. */
  method CollectRow(a: array2<char>, ghost g: seq<string>, r: nat, before: seq<Cell>)
    returns (toRemove: seq<Cell>)
    requires Mirrors(a, g, a.Length1) && r < a.Length0
    requires Elems(before) == SelectedBefore(g, a.Length1, r, 0) && |before| == |Elems(before)|
    requires forall p :: p in before ==> 0 <= p.0 < a.Length0 && 0 <= p.1 < a.Length1
    ensures Elems(toRemove) == SelectedBefore(g, a.Length1, r, a.Length1)
    ensures |toRemove| == |Elems(toRemove)|
    ensures forall p :: p in toRemove ==> 0 <= p.0 < a.Length0 && 0 <= p.1 < a.Length1
  {
    var rows, cols := a.Length0, a.Length1;
    toRemove := before;
    for c := 0 to cols
      invariant Elems(toRemove) == SelectedBefore(g, cols, r, c)
      invariant |toRemove| == |Elems(toRemove)|
      invariant forall p :: p in toRemove ==> 0 <= p.0 < rows && 0 <= p.1 < cols
    {
      ScanCell(g, cols, r, c);
      if a[r, c] != Roll {
        continue;
      }
      var adj := AdjacentRollsIn(a, g, r, c);
      if adj < 4 {
        ElemsAppend(toRemove, (r, c));
        toRemove := toRemove + [(r, c)];
      }
    }
  }

  /**
   * One pass's selection: the accessible rolls in row-major order, read
   * from the grid as it is before the pass; no cell is listed twice.
   */
  method CollectAccessible(a: array2<char>, ghost g: seq<string>) returns (toRemove: seq<Cell>)
    requires Mirrors(a, g, a.Length1)
    ensures Elems(toRemove) == Selected(g, a.Length1)
    ensures |toRemove| == |Selected(g, a.Length1)|
    ensures forall p :: p in toRemove ==> 0 <= p.0 < a.Length0 && 0 <= p.1 < a.Length1
  {
    var rows, cols := a.Length0, a.Length1;
    toRemove := [];
    for r := 0 to rows
      invariant Elems(toRemove) == SelectedBefore(g, cols, r, 0)
      invariant |toRemove| == |Elems(toRemove)|
      invariant forall p :: p in toRemove ==> 0 <= p.0 < rows && 0 <= p.1 < cols
    {
      toRemove := CollectRow(a, g, r, toRemove);
      ScanRow(g, cols, r);
    }
    ScanDone(g, cols);
  }

  /** Clears the listed cells of the grid together, leaving every other cell as it was. */
  method ClearCells(a: array2<char>, ghost g: seq<string>, toRemove: seq<Cell>)
    requires Mirrors(a, g, a.Length1)
    requires forall p :: p in toRemove ==> 0 <= p.0 < a.Length0 && 0 <= p.1 < a.Length1
    modifies a
    ensures Mirrors(a, Clear(g, Elems(toRemove)), a.Length1)
  {
    for i := 0 to |toRemove|
      invariant Mirrors(a, Clear(g, Elems(toRemove[..i])), a.Length1)
    {
      var (r, c) := toRemove[i];
      assert toRemove[..i + 1] == toRemove[..i] + [(r, c)];
      ElemsAppend(toRemove[..i], (r, c));
      a[r, c] := Cleared;
    }
    assert toRemove[..|toRemove|] == toRemove;
  }

  /**
   * `day4_remove_all`: copies the lines into a mutable grid and repeats
   * passes until one finds nothing to remove, returning how many rolls were
   * removed. No lines gives 0; a row shorter than the first raises.
   */
  method Day4RemoveAll(lines: seq<string>) returns (result: Option<nat>)
    ensures lines == [] ==> result == Some(0)
    ensures lines != [] && !Wide(lines, |lines[0]|) ==> result == None
    ensures lines != [] && Wide(lines, |lines[0]|) ==>
              result == Some(Removed(lines, |lines[0]|))
  {
    if lines == [] {
      return Some(0);
    }
    var rows, cols := |lines|, |lines[0]|;
    if !Wide(lines, cols) {
      return None;
    }
    var grid := new char[rows, cols]((r, c) requires 0 <= r < rows && 0 <= c < cols => lines[r][c]);
    ghost var view := lines;
    var totalRemoved := 0;
    while true
      invariant Mirrors(grid, view, cols)
      invariant totalRemoved + Removed(view, cols) == Removed(lines, cols)
      decreases |Rolls(view, cols)|
    {
      var toRemove := CollectAccessible(grid, view);
      if toRemove == [] {
        break;
      }
      ClearCells(grid, view, toRemove);
      totalRemoved := totalRemoved + |toRemove|;
      SelectedAreRolls(view, cols);
      ClearRolls(view, cols, Selected(view, cols));
      view := Clear(view, Selected(view, cols));
    }
    result := Some(totalRemoved);
  }
}
