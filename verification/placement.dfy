/** Dropping a block on the grid: `isValidPlacement` (game.js:282-296) and the
    grid effect of `placeBlock` (game.js:313-324). */
module Placing {
  import opened Wrappers
  import opened Board
  import opened Shapes

  /** Row-major order on coordinates. */
  predicate Before(p: Pos, q: Pos) {
    p.r < q.r || (p.r == q.r && p.c < q.c)
  }

  /** The list is strictly increasing in row-major order. */
  predicate RowMajor(ps: seq<Pos>) {
    forall i, j :: 0 <= i < j < |ps| ==> Before(ps[i], ps[j])
  }

  /** The list has no repeated coordinate. */
  predicate Distinct(ps: seq<Pos>) {
    forall i, j :: 0 <= i < j < |ps| ==> ps[i] != ps[j]
  }

  lemma RowMajorDistinct(ps: seq<Pos>)
    requires RowMajor(ps)
    ensures Distinct(ps)
  {
  }

  /** Grid coordinates covered by the 1 entries of row `r` left of column `c`,
      when the shape's top-left entry lies on (r0, c0). */
  function RowCells(s: Shape, r: nat, c: nat, r0: int, c0: int): (ps: seq<Pos>)
    requires r < |s| && c <= |s[r]|
    ensures forall p :: p in ps <==> exists j :: Covers(s, r, j) && j < c && p == Pos(r0 + r, c0 + j)
    ensures forall k :: 0 <= k < |ps| ==> ps[k].r == r0 + r && c0 <= ps[k].c < c0 + c
    ensures RowMajor(ps)
    ensures |ps| == OnesBefore(s[r], c)
  {
    if c == 0 then []
    else
      var front := RowCells(s, r, c - 1, r0, c0);
      var last := Pos(r0 + r, c0 + c - 1);
      if s[r][c - 1] == 1 then
        assert Covers(s, r, c - 1);
        assert forall p :: p in front + [last] <==> p in front || p == last;
        front + [last]
      else front
  }

  /** Grid coordinates covered by the 1 entries of the first `r` rows, row by row. */
  function RowsCells(s: Shape, r: nat, r0: int, c0: int): (ps: seq<Pos>)
    requires r <= |s|
    ensures forall p :: p in ps <==> exists i, j :: Covers(s, i, j) && i < r && p == Pos(r0 + i, c0 + j)
    ensures forall k :: 0 <= k < |ps| ==> r0 <= ps[k].r < r0 + r
    ensures RowMajor(ps)
    ensures |ps| == CellsBefore(s, r)
  {
    if r == 0 then []
    else
      var front := RowsCells(s, r - 1, r0, c0);
      var row := RowCells(s, r - 1, |s[r - 1]|, r0, c0);
      assert forall p :: p in front + row <==> p in front || p in row;
      front + row
  }

  /** The cells a block would fill, in the order the source's nested loops visit them. */
  function Footprint(s: Shape, r0: int, c0: int): seq<Pos> {
    RowsCells(s, |s|, r0, c0)
  }

  /** Every 1 entry of the shape lands on an in-bounds `null` cell. */
  predicate Fits(g: Grid, s: Shape, r0: int, c0: int)
    requires WellFormed(g)
  {
    forall r, c :: 0 <= r < |s| && 0 <= c < |s[r]| && s[r][c] == 1 ==> Free(g, Pos(r0 + r, c0 + c))
  }

  /** `Fits` is exactly "every listed footprint cell is free". */
  lemma FitsIffFootprintFree(g: Grid, s: Shape, r0: int, c0: int)
    requires WellFormed(g)
    ensures Fits(g, s, r0, c0) <==> forall k :: 0 <= k < |Footprint(s, r0, c0)| ==> Free(g, Footprint(s, r0, c0)[k])
  {
    var fp := Footprint(s, r0, c0);
    if forall k :: 0 <= k < |fp| ==> Free(g, fp[k]) {
      forall r, c | 0 <= r < |s| && 0 <= c < |s[r]| && s[r][c] == 1 ensures Free(g, Pos(r0 + r, c0 + c)) {
        var p := Pos(r0 + r, c0 + c);
        assert Covers(s, r, c) && p in fp;
        var k :| 0 <= k < |fp| && fp[k] == p;
      }
      assert Fits(g, s, r0, c0);
    } else {
      var k :| 0 <= k < |fp| && !Free(g, fp[k]);
      assert fp[k] in fp;
      var r, c :| Covers(s, r, c) && r < |s| && fp[k] == Pos(r0 + r, c0 + c);
      assert !Fits(g, s, r0, c0);
    }
  }

  /** `isValidPlacement(shape, r0, c0)`: the cell list on success, nothing on failure. */
  function Placement(g: Grid, s: Shape, r0: int, c0: int): (res: Option<seq<Pos>>)
    requires WellFormed(g)
    ensures res.Some? <==> Fits(g, s, r0, c0)
    ensures res.Some? ==> forall p :: p in res.value <==> exists r, c :: Covers(s, r, c) && p == Pos(r0 + r, c0 + c)
    ensures res.Some? ==> RowMajor(res.value) && Distinct(res.value)
    ensures res.Some? ==> |res.value| == CellCount(s)
    ensures res.Some? ==> forall k :: 0 <= k < |res.value| ==> Free(g, res.value[k])
  {
    var fp := Footprint(s, r0, c0);
    FitsIffFootprintFree(g, s, r0, c0);
    RowMajorDistinct(fp);
    if forall k :: 0 <= k < |fp| ==> Free(g, fp[k]) then Some(fp) else None
  }

  /** The source's nested loops with early exit; they agree with `Placement`. */
  method IsValidPlacement(g: Grid, s: Shape, r0: int, c0: int) returns (ok: bool, cells: seq<Pos>)
    requires WellFormed(g)
    ensures ok <==> Fits(g, s, r0, c0)
    ensures ok ==> Placement(g, s, r0, c0) == Some(cells)
  {
    cells := [];
    var r := 0;
    while r < |s|
      invariant 0 <= r <= |s|
      invariant cells == RowsCells(s, r, r0, c0)
      invariant forall k :: 0 <= k < |cells| ==> Free(g, cells[k])
    {
      var c := 0;
      while c < |s[r]|
        invariant 0 <= c <= |s[r]|
        invariant cells == RowsCells(s, r, r0, c0) + RowCells(s, r, c, r0, c0)
        invariant forall k :: 0 <= k < |cells| ==> Free(g, cells[k])
      {
        if s[r][c] == 1 {
          var gr, gc := r0 + r, c0 + c;
          if gr < 0 || gr >= Size || gc < 0 || gc >= Size {
            assert !Free(g, Pos(r0 + r, c0 + c)) && Covers(s, r, c);
            return false, [];
          }
          if g[gr][gc] != Empty {
            assert !Free(g, Pos(r0 + r, c0 + c)) && Covers(s, r, c);
            return false, [];
          }
          cells := cells + [Pos(gr, gc)];
        }
        c := c + 1;
      }
      r := r + 1;
    }
    FitsIffFootprintFree(g, s, r0, c0);
    ok := true;
  }

  /** The forEach of `placeBlock`: every listed cell takes the block's colour. */
  function PlaceCells(g: Grid, cells: seq<Pos>, colour: nat): (g': Grid)
    requires WellFormed(g)
    requires forall k :: 0 <= k < |cells| ==> InBounds(cells[k])
    ensures WellFormed(g')
    ensures forall r, c :: 0 <= r < Size && 0 <= c < Size ==>
      g'[r][c] == (if Pos(r, c) in cells then Filled(colour) else g[r][c])
    decreases |cells|
  {
    if |cells| == 0 then g
    else
      var rest := PlaceCells(SetCell(g, cells[0], Filled(colour)), cells[1..], colour);
      assert forall p :: p in cells <==> p == cells[0] || p in cells[1..];
      rest
  }

  /** After the fill step of a placement (before `checkLines` clears any
      line), the same block cannot be placed on the same origin again: every
      listed cell has stopped being free. */
  lemma PlaceThenBlocked(g: Grid, s: Shape, r0: int, c0: int, colour: nat)
    requires WellFormed(g)
    requires Placement(g, s, r0, c0).Some?
    requires CellCount(s) > 0
    ensures var cells := Placement(g, s, r0, c0).value;
      var g' := PlaceCells(g, cells, colour);
      && (forall k :: 0 <= k < |cells| ==> !Free(g', cells[k]))
      && Placement(g', s, r0, c0).None?
  {
    var cells := Placement(g, s, r0, c0).value;
    var g' := PlaceCells(g, cells, colour);
    forall k | 0 <= k < |cells| ensures !Free(g', cells[k]) {
      assert cells[k] in cells;
    }
    var p := cells[0];
    assert p in cells;
    var r, c :| Covers(s, r, c) && p == Pos(r0 + r, c0 + c);
    assert !Free(g', Pos(r0 + r, c0 + c));
  }
}
