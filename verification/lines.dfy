/** Line clearing in endless mode: `checkLines` (game.js:349-371). A row or
    column is full when none of its cells is `null`; walls count as occupied,
    and clearing empties every cell of a full line, walls included. */
module Lines {
  import opened Board

  predicate FullRow(g: Grid, r: int)
    requires WellFormed(g) && 0 <= r < Size
  {
    forall c :: 0 <= c < Size ==> g[r][c] != Empty
  }

  predicate FullCol(g: Grid, c: int)
    requires WellFormed(g) && 0 <= c < Size
  {
    forall r :: 0 <= r < Size ==> g[r][c] != Empty
  }

  /** Strictly increasing. */
  predicate Ascending(xs: seq<int>) {
    forall i, j :: 0 <= i < j < |xs| ==> xs[i] < xs[j]
  }

  /** Indices from `k` upwards of the full rows, in the order the loop finds them. */
  function FullRowsFrom(g: Grid, k: nat): (rows: seq<int>)
    requires WellFormed(g) && k <= Size
    ensures forall i :: i in rows <==> k <= i < Size && FullRow(g, i)
    ensures forall j :: 0 <= j < |rows| ==> k <= rows[j] < Size
    ensures Ascending(rows)
    decreases Size - k
  {
    if k == Size then []
    else
      var rest := FullRowsFrom(g, k + 1);
      if FullRow(g, k) then [k] + rest else rest
  }

  /** Indices from `k` upwards of the full columns, in the order the loop finds them. */
  function FullColsFrom(g: Grid, k: nat): (cols: seq<int>)
    requires WellFormed(g) && k <= Size
    ensures forall i :: i in cols <==> k <= i < Size && FullCol(g, i)
    ensures forall j :: 0 <= j < |cols| ==> k <= cols[j] < Size
    ensures Ascending(cols)
    decreases Size - k
  {
    if k == Size then []
    else
      var rest := FullColsFrom(g, k + 1);
      if FullCol(g, k) then [k] + rest else rest
  }

  /** `rTC`: the full rows in ascending order. */
  function FullRows(g: Grid): seq<int>
    requires WellFormed(g)
  {
    FullRowsFrom(g, 0)
  }

  /** `cTC`: the full columns in ascending order. */
  function FullCols(g: Grid): seq<int>
    requires WellFormed(g)
  {
    FullColsFrom(g, 0)
  }

  /** Bonus for clearing `n` lines with one placement. */
  function LineBonus(n: nat): nat {
    10 * n * n
  }

  /** `checkLines`: detect the full rows and columns of the grid, add the
      quadratic bonus and empty every cell of those lines. */
  function CheckLines(g: Grid, score: nat): (res: (Grid, nat))
    requires WellFormed(g)
    ensures WellFormed(res.0)
    ensures var n := |FullRows(g)| + |FullCols(g)|;
      && res.1 == score + LineBonus(n)
      && (n == 0 ==> res.0 == g)
    ensures forall r, c :: 0 <= r < Size && 0 <= c < Size ==>
      res.0[r][c] == (if FullRow(g, r) || FullCol(g, c) then Empty else g[r][c])
  {
    if |FullRows(g)| + |FullCols(g)| > 0 then
      ClearFull(g, score)
    else
      assert forall r :: 0 <= r < Size ==> !FullRow(g, r) by {
        forall r | 0 <= r < Size ensures !FullRow(g, r) { assert r !in FullRows(g); }
      }
      assert forall c :: 0 <= c < Size ==> !FullCol(g, c) by {
        forall c | 0 <= c < Size ensures !FullCol(g, c) { assert c !in FullCols(g); }
      }
      (g, score)
  }

  /** The `cells` set of `checkLines` emptied: every cell of a listed row or
      column becomes `null`, whatever it held. */
  function ClearLines(g: Grid, rows: seq<int>, cols: seq<int>): (g': Grid)
    requires WellFormed(g)
    ensures WellFormed(g')
    ensures forall r, c :: 0 <= r < Size && 0 <= c < Size ==>
      g'[r][c] == (if r in rows || c in cols then Empty else g[r][c])
  {
    seq(Size, r requires 0 <= r < Size =>
      seq(Size, c requires 0 <= c < Size => if r in rows || c in cols then Empty else g[r][c]))
  }

  /** The line-clear branch of `checkLines`, taken when some line is full. */
  function ClearFull(g: Grid, score: nat): (res: (Grid, nat))
    requires WellFormed(g)
    ensures WellFormed(res.0)
    ensures res.1 == score + LineBonus(|FullRows(g)| + |FullCols(g)|)
    ensures forall r, c :: 0 <= r < Size && 0 <= c < Size ==>
      res.0[r][c] == (if FullRow(g, r) || FullCol(g, c) then Empty else g[r][c])
  {
    (ClearLines(g, FullRows(g), FullCols(g)), score + LineBonus(|FullRows(g)| + |FullCols(g)|))
  }

  /** Clearing lines only ever writes `null`: it creates no wall. */
  lemma CheckLinesKeepsNoWalls(g: Grid, score: nat)
    requires WellFormed(g) && NoWalls(g)
    ensures NoWalls(CheckLines(g, score).0)
  {
    var g' := CheckLines(g, score).0;
    forall r, c | 0 <= r < Size && 0 <= c < Size ensures g'[r][c] != Wall {
      assert g[r][c] != Wall;
    }
  }

  /** The clearing rule applied to `g` gives `g'`. */
  predicate ClearedFrom(g: Grid, g': Grid)
    requires WellFormed(g) && WellFormed(g')
  {
    forall r, c {:trigger g'[r][c]} :: 0 <= r < Size && 0 <= c < Size ==>
      g'[r][c] == (if FullRow(g, r) || FullCol(g, c) then Empty else g[r][c])
  }

  /** Once the full lines are emptied, row `r` is not full: a full row was
      emptied, and any other row kept its `null` cell. */
  lemma ClearedRowNotFull(g: Grid, g': Grid, r: int)
    requires WellFormed(g) && WellFormed(g') && ClearedFrom(g, g') && 0 <= r < Size
    ensures !FullRow(g', r)
  {
    if FullRow(g, r) {
      assert g'[r][0] == Empty;
    } else {
      var c :| 0 <= c < Size && g[r][c] == Empty;
      assert g'[r][c] == Empty;
    }
  }

  lemma NoFullRowAfterCheck(g: Grid, score: nat)
    requires WellFormed(g)
    ensures forall r :: 0 <= r < Size ==> !FullRow(CheckLines(g, score).0, r)
  {
    var g' := CheckLines(g, score).0;
    forall r | 0 <= r < Size ensures !FullRow(g', r) {
      ClearedRowNotFull(g, g', r);
    }
  }

  /** Once the full lines are emptied, column `c` is not full. */
  lemma ClearedColNotFull(g: Grid, g': Grid, c: int)
    requires WellFormed(g) && WellFormed(g') && ClearedFrom(g, g') && 0 <= c < Size
    ensures !FullCol(g', c)
  {
    if FullCol(g, c) {
      assert g'[0][c] == Empty;
    } else {
      var r :| 0 <= r < Size && g[r][c] == Empty;
      assert g'[r][c] == Empty;
    }
  }

  lemma NoFullColAfterCheck(g: Grid, score: nat)
    requires WellFormed(g)
    ensures forall c :: 0 <= c < Size ==> !FullCol(CheckLines(g, score).0, c)
  {
    var g' := CheckLines(g, score).0;
    forall c | 0 <= c < Size ensures !FullCol(g', c) {
      ClearedColNotFull(g, g', c);
    }
  }

  /** After `checkLines` no row or column is full any more. */
  lemma NoFullLineAfterCheck(g: Grid, score: nat)
    requires WellFormed(g)
    ensures FullRows(CheckLines(g, score).0) == [] && FullCols(CheckLines(g, score).0) == []
  {
    NoFullRowAfterCheck(g, score);
    NoFullColAfterCheck(g, score);
  }

  /** A second `checkLines` right after the first finds nothing to do. */
  lemma CheckLinesIdempotent(g: Grid, score: nat)
    requires WellFormed(g)
    ensures CheckLines(CheckLines(g, score).0, CheckLines(g, score).1) == CheckLines(g, score)
  {
    NoFullLineAfterCheck(g, score);
    var res := CheckLines(g, score);
    var again := CheckLines(res.0, res.1);
    assert again.0 == res.0 && again.1 == res.1 + LineBonus(0);
  }

  /** Clearing lines together pays more than clearing them one placement at a
      time: two lines at once earn 40, two single clears earn 10 + 10. */
  lemma SimultaneousClearPaysMore(a: nat, b: nat)
    requires a > 0 && b > 0
    ensures LineBonus(a + b) == LineBonus(a) + LineBonus(b) + 20 * a * b
    ensures LineBonus(a + b) > LineBonus(a) + LineBonus(b)
  {
    assert (a + b) * (a + b) == a * a + 2 * a * b + b * b;
  }
}
