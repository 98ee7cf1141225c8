/** What one `placeBlock` does to a round: the invariant it keeps, the score
    it pays, the cells it changes, the dock it leaves, and how the status
    follows the settled board (game.js:313-334, 349-404). */
module RoundFacts {
  import opened Wrappers
  import opened Board
  import opened Shapes
  import opened Placing
  import opened Lines
  import opened Round

  /** A grid cell is in the drop's cell list exactly when the shape covers
      it at the drop offset; such a cell was free. */
  lemma InPlacementIffCovered(g: Grid, s: Shape, r0: int, c0: int, r: int, c: int)
    requires WellFormed(g) && Placement(g, s, r0, c0).Some?
    requires 0 <= r < Size && 0 <= c < Size
    ensures Pos(r, c) in Placement(g, s, r0, c0).value <==> Covers(s, r - r0, c - c0)
    ensures Covers(s, r - r0, c - c0) ==> g[r][c] == Empty
  {
    var cells := Placement(g, s, r0, c0).value;
    if Covers(s, r - r0, c - c0) {
      assert Pos(r, c) == Pos(r0 + (r - r0), c0 + (c - c0));
      assert Pos(r, c) in cells;
      var k :| 0 <= k < |cells| && cells[k] == Pos(r, c);
      assert Free(g, cells[k]);
    }
  }

  /** The fill step of a drop (before `checkLines` and the refill) changes
      exactly the cells its shape covers at the drop offset; those were free
      and now hold the block's colour. */
  lemma PlacedCells(gm: Game, slot: int, r0: int, c0: int)
    requires Valid(gm) && CanDrop(gm, slot, r0, c0)
    ensures var b := gm.dock[slot].value;
      var g' := Placed(gm, slot, r0, c0).grid;
      && WellFormed(g')
      && (forall r, c :: 0 <= r < Size && 0 <= c < Size ==>
            g'[r][c] == (if Covers(b.shape, r - r0, c - c0) then Filled(b.colour) else gm.grid[r][c]))
      && (forall r, c :: 0 <= r < Size && 0 <= c < Size && Covers(b.shape, r - r0, c - c0) ==>
            gm.grid[r][c] == Empty)
  {
    var b := gm.dock[slot].value;
    var cells := Placement(gm.grid, b.shape, r0, c0).value;
    var g' := PlaceCells(gm.grid, cells, b.colour);
    assert Placed(gm, slot, r0, c0).grid == g';
    forall r, c | 0 <= r < Size && 0 <= c < Size
      ensures g'[r][c] == (if Covers(b.shape, r - r0, c - c0) then Filled(b.colour) else gm.grid[r][c])
      ensures Covers(b.shape, r - r0, c - c0) ==> gm.grid[r][c] == Empty
    {
      InPlacementIffCovered(gm.grid, b.shape, r0, c0, r, c);
    }
  }

  /** The fill step of a drop (before `checkLines` and the refill) keeps the
      walls, pays one point per covered cell and empties the used slot. */
  lemma PlacedKeepsWalls(gm: Game, slot: int, r0: int, c0: int)
    requires Valid(gm) && CanDrop(gm, slot, r0, c0)
    ensures var p := Placed(gm, slot, r0, c0);
      && WellFormed(p.grid) && p.mode == gm.mode
      && WallsMatch(p.mode, p.grid)
      && p.score == gm.score + CellCount(gm.dock[slot].value.shape)
      && p.dock == gm.dock[slot := None]
  {
    PlacedCells(gm, slot, r0, c0);
  }

  /** Line clearing never creates a wall. */
  lemma ResolveKeepsValid(p: Game)
    requires Valid(p)
    ensures Valid(ResolveLines(p))
  {
    if p.mode.Endless? {
      assert NoWalls(p.grid) by {
        forall r, c | 0 <= r < Size && 0 <= c < Size ensures p.grid[r][c] != Wall {
          assert !(p.grid[r][c] == Wall);
        }
      }
      CheckLinesKeepsNoWalls(p.grid, p.score);
    }
  }

  /** In endless mode settling empties exactly the full lines. */
  lemma ResolveClears(p: Game)
    requires Valid(p) && p.mode.Endless?
    ensures forall r, c :: 0 <= r < Size && 0 <= c < Size ==>
      ResolveLines(p).grid[r][c] == (if FullRow(p.grid, r) || FullCol(p.grid, c) then Empty else p.grid[r][c])
  {
    var res := CheckLines(p.grid, p.score);
    assert ResolveLines(p).grid == res.0;
  }

  /** The endless refill puts three catalog blocks in the dock. */
  lemma RefillKeepsValid(q: Game, draws: seq<Draw>)
    requires Valid(q) && |draws| >= EndlessSlots && ValidDraws(draws)
    ensures Valid(Refill(q, draws))
  {
    if q.mode.Endless? && DockEmpty(q.dock) {
      assert Refill(q, draws).dock == SpawnBlocks(Endless, draws);
    }
  }

  /** Settling changes only status and best beyond the line clear and the
      refill. */
  lemma SettleFields(p: Game, draws: seq<Draw>)
    requires WellFormed(p.grid) && ValidMode(p.mode) && |draws| >= EndlessSlots && ValidDraws(draws)
    ensures var t := Refill(ResolveLines(p), draws);
      var res := Settle(p, draws);
      res.mode == t.mode && res.grid == t.grid && res.score == t.score && res.dock == t.dock
  {
  }

  /** Settling keeps the round invariant and touches only status and best
      beyond the line clear and the refill. */
  lemma SettleKeepsValid(p: Game, draws: seq<Draw>)
    requires Valid(p) && |draws| >= EndlessSlots && ValidDraws(draws)
    ensures var t := Refill(ResolveLines(p), draws);
      var res := Settle(p, draws);
      && Valid(res)
      && res.mode == t.mode && res.grid == t.grid && res.score == t.score && res.dock == t.dock
  {
    ResolveKeepsValid(p);
    RefillKeepsValid(ResolveLines(p), draws);
  }

  /** The placed round satisfies the invariant. */
  lemma PlacedValid(gm: Game, slot: int, r0: int, c0: int)
    requires Valid(gm) && CanDrop(gm, slot, r0, c0)
    ensures Valid(Placed(gm, slot, r0, c0))
  {
    PlacedKeepsWalls(gm, slot, r0, c0);
  }

  /** An accepted drop is the settled state of the placed round. */
  lemma PlaceBlockSettles(gm: Game, slot: int, r0: int, c0: int, draws: seq<Draw>)
    requires Valid(gm) && |draws| >= EndlessSlots && ValidDraws(draws)
    requires CanDrop(gm, slot, r0, c0)
    ensures Valid(Placed(gm, slot, r0, c0))
    ensures PlaceBlock(gm, slot, r0, c0, draws).value == Settle(Placed(gm, slot, r0, c0), draws)
  {
    PlacedValid(gm, slot, r0, c0);
  }

  /** `placeBlock` keeps the round invariant: an 8x8 grid whose walls are the
      stage's, a dock of the mode's size holding catalog blocks. */
  lemma PlaceBlockKeepsValid(gm: Game, slot: int, r0: int, c0: int, draws: seq<Draw>)
    requires Valid(gm) && |draws| >= EndlessSlots && ValidDraws(draws)
    requires CanDrop(gm, slot, r0, c0)
    ensures Valid(PlaceBlock(gm, slot, r0, c0, draws).value)
  {
    PlaceBlockSettles(gm, slot, r0, c0, draws);
    SettleKeepsValid(Placed(gm, slot, r0, c0), draws);
  }

  /** Score of a drop: one point per covered cell, plus in endless mode the
      bonus for the lines the drop completed. */
  lemma PlaceBlockScore(gm: Game, slot: int, r0: int, c0: int, draws: seq<Draw>)
    requires Valid(gm) && |draws| >= EndlessSlots && ValidDraws(draws)
    requires CanDrop(gm, slot, r0, c0)
    ensures var n := CellCount(gm.dock[slot].value.shape);
      var g1 := Placed(gm, slot, r0, c0).grid;
      var score' := PlaceBlock(gm, slot, r0, c0, draws).value.score;
      && (gm.mode.Staged? ==> score' == gm.score + n)
      && (gm.mode.Endless? ==> score' == gm.score + n + LineBonus(|FullRows(g1)| + |FullCols(g1)|))
  {
    PlaceBlockSettles(gm, slot, r0, c0, draws);
    PlacedKeepsWalls(gm, slot, r0, c0);
    SettleKeepsValid(Placed(gm, slot, r0, c0), draws);
  }

  /** In stage mode the drop only fills the covered cells. */
  lemma StageDropGrid(gm: Game, slot: int, r0: int, c0: int, draws: seq<Draw>)
    requires Valid(gm) && gm.mode.Staged? && |draws| >= EndlessSlots && ValidDraws(draws)
    requires CanDrop(gm, slot, r0, c0)
    ensures var b := gm.dock[slot].value;
      var g' := PlaceBlock(gm, slot, r0, c0, draws).value.grid;
      forall r, c :: 0 <= r < Size && 0 <= c < Size ==>
        g'[r][c] == (if Covers(b.shape, r - r0, c - c0) then Filled(b.colour) else gm.grid[r][c])
  {
    PlaceBlockSettles(gm, slot, r0, c0, draws);
    PlacedCells(gm, slot, r0, c0);
    SettleKeepsValid(Placed(gm, slot, r0, c0), draws);
  }

  /** In endless mode the drop fills the covered cells, then every cell on a
      row or column that became full is emptied. */
  lemma EndlessDropGrid(gm: Game, slot: int, r0: int, c0: int, draws: seq<Draw>)
    requires Valid(gm) && gm.mode.Endless? && |draws| >= EndlessSlots && ValidDraws(draws)
    requires CanDrop(gm, slot, r0, c0)
    ensures var b := gm.dock[slot].value;
      var g1 := Placed(gm, slot, r0, c0).grid;
      var g' := PlaceBlock(gm, slot, r0, c0, draws).value.grid;
      && WellFormed(g1)
      && (forall r, c :: 0 <= r < Size && 0 <= c < Size ==>
            g1[r][c] == (if Covers(b.shape, r - r0, c - c0) then Filled(b.colour) else gm.grid[r][c]))
      && (forall r, c :: 0 <= r < Size && 0 <= c < Size ==>
            g'[r][c] == (if FullRow(g1, r) || FullCol(g1, c) then Empty else g1[r][c]))
  {
    PlaceBlockSettles(gm, slot, r0, c0, draws);
    var p := Placed(gm, slot, r0, c0);
    SettleFields(p, draws);
    assert PlaceBlock(gm, slot, r0, c0, draws).value.grid == ResolveLines(p).grid;
    PlacedCells(gm, slot, r0, c0);
    ResolveClears(p);
  }

  /** The used slot becomes `null`; a stage dock is never refilled, an
      endless dock is refilled exactly when its last block was used. */
  lemma PlaceBlockDock(gm: Game, slot: int, r0: int, c0: int, draws: seq<Draw>)
    requires Valid(gm) && |draws| >= EndlessSlots && ValidDraws(draws)
    requires CanDrop(gm, slot, r0, c0)
    ensures var dock' := PlaceBlock(gm, slot, r0, c0, draws).value.dock;
      && (gm.mode.Staged? ==> dock' == gm.dock[slot := None])
      && (gm.mode.Endless? && !DockEmpty(gm.dock[slot := None]) ==> dock' == gm.dock[slot := None])
      && (gm.mode.Endless? && DockEmpty(gm.dock[slot := None]) ==> dock' == EndlessDock(draws))
  {
    PlaceBlockSettles(gm, slot, r0, c0, draws);
    PlacedKeepsWalls(gm, slot, r0, c0);
    SettleKeepsValid(Placed(gm, slot, r0, c0), draws);
  }

  /** The status check of a settled round that was in play: a cleared stage
      is won, otherwise the round is lost exactly when `checkGameStatus`
      finds it over, and only a lost endless round records its score. */
  lemma SettleOutcome(p: Game, draws: seq<Draw>)
    requires Valid(p) && p.status == Playing && |draws| >= EndlessSlots && ValidDraws(draws)
    ensures var res := Settle(p, draws);
      && WellFormed(res.grid) && ValidMode(res.mode)
      && (res.status == Won <==> StageCleared(res))
      && (res.status == Lost <==> !StageCleared(res) && GameOver(res.mode, res.grid, res.dock))
      && (res.status == Lost ==> res.best == RecordBest(res.mode, res.score, p.best))
      && (res.status != Lost ==> res.best == p.best)
  {
    SettleKeepsValid(p, draws);
  }

  /** A stage round in play is won by the drop exactly when no target is
      left, and lost exactly when targets are left and the settled dock is
      stuck; stage rounds never touch the best score. */
  lemma StageOutcome(gm: Game, slot: int, r0: int, c0: int, draws: seq<Draw>)
    requires Valid(gm) && gm.mode.Staged? && gm.status == Playing
    requires |draws| >= EndlessSlots && ValidDraws(draws)
    requires CanDrop(gm, slot, r0, c0)
    ensures var res := PlaceBlock(gm, slot, r0, c0, draws).value;
      var left := RemainingTargets(gm.mode.stage.grid, res.grid);
      && (res.status == Won <==> left == 0)
      && (res.status == Lost <==> left > 0 && (DockEmpty(res.dock) || !CanMove(res.grid, res.dock)))
      && res.best == gm.best
  {
    PlaceBlockSettles(gm, slot, r0, c0, draws);
    var p := Placed(gm, slot, r0, c0);
    PlacedKeepsWalls(gm, slot, r0, c0);
    SettleOutcome(p, draws);
    SettleFields(p, draws);
  }

  /** An endless round in play is never won; the drop loses it exactly when
      none of the blocks in the refilled dock fits anywhere, and a loss
      records the score as the best when it beats it. */
  lemma EndlessOutcome(gm: Game, slot: int, r0: int, c0: int, draws: seq<Draw>)
    requires Valid(gm) && gm.mode.Endless? && gm.status == Playing
    requires |draws| >= EndlessSlots && ValidDraws(draws)
    requires CanDrop(gm, slot, r0, c0)
    ensures var res := PlaceBlock(gm, slot, r0, c0, draws).value;
      && !DockEmpty(res.dock)
      && res.status != Won
      && (res.status == Lost <==> !CanMove(res.grid, res.dock))
      && (res.status == Lost ==> res.best >= gm.best && res.best >= res.score
                                 && (res.best == gm.best || res.best == res.score))
      && (res.status == Playing ==> res.best == gm.best)
  {
    PlaceBlockSettles(gm, slot, r0, c0, draws);
    var p := Placed(gm, slot, r0, c0);
    PlacedKeepsWalls(gm, slot, r0, c0);
    SettleOutcome(p, draws);
    SettleFields(p, draws);
    var res := PlaceBlock(gm, slot, r0, c0, draws).value;
    var resolved := ResolveLines(p);
    if DockEmpty(resolved.dock) {
      assert res.dock == EndlessDock(draws);
      assert res.dock[0].Some?;
    } else {
      assert res.dock == resolved.dock;
    }
  }

  /** Filling the cells a shape covers removes exactly the covered targets. */
  lemma FillRemovesCovered(layout: seq<seq<int>>, g: Grid, g': Grid, s: Shape, r0: int, c0: int, colour: nat)
    requires Layout8(layout) && WellFormed(g) && WellFormed(g')
    requires forall r, c :: 0 <= r < Size && 0 <= c < Size ==>
      g'[r][c] == (if Covers(s, r - r0, c - c0) then Filled(colour) else g[r][c])
    ensures TargetsLeft(layout, g') == set p | p in TargetsLeft(layout, g) && !Covers(s, p.r - r0, p.c - c0)
    ensures RemainingTargets(layout, g') <= RemainingTargets(layout, g)
  {
    var before := TargetsLeft(layout, g);
    var after := TargetsLeft(layout, g');
    var kept := set p | p in before && !Covers(s, p.r - r0, p.c - c0);
    forall p | p in after ensures p in kept {
      assert g'[p.r][p.c] == Empty;
    }
    forall p | p in kept ensures p in after {
      assert g'[p.r][p.c] == g[p.r][p.c];
    }
    assert after == kept;
    SubsetSize(kept, before);
  }

  lemma {:induction false} SubsetSize<T>(a: set<T>, b: set<T>)
    requires a <= b
    ensures |a| <= |b|
    decreases |a|
  {
    if a != {} {
      var x :| x in a;
      SubsetSize(a - {x}, b - {x});
    }
  }

  /** In stage mode a drop only removes targets: those its shape covers. */
  lemma StageTargetsShrink(gm: Game, slot: int, r0: int, c0: int, draws: seq<Draw>)
    requires Valid(gm) && gm.mode.Staged? && |draws| >= EndlessSlots && ValidDraws(draws)
    requires CanDrop(gm, slot, r0, c0)
    ensures var b := gm.dock[slot].value;
      var layout := gm.mode.stage.grid;
      var res := PlaceBlock(gm, slot, r0, c0, draws).value;
      && TargetsLeft(layout, res.grid) ==
           set p | p in TargetsLeft(layout, gm.grid) && !Covers(b.shape, p.r - r0, p.c - c0)
      && RemainingTargets(layout, res.grid) <= RemainingTargets(layout, gm.grid)
  {
    var b := gm.dock[slot].value;
    var layout := gm.mode.stage.grid;
    PlaceBlockKeepsValid(gm, slot, r0, c0, draws);
    StageDropGrid(gm, slot, r0, c0, draws);
    var g' := PlaceBlock(gm, slot, r0, c0, draws).value.grid;
    FillRemovesCovered(layout, gm.grid, g', b.shape, r0, c0, b.colour);
  }

  // ---------------------------------------------------------------- moves

  /** A catalog block fits on an empty 8x8 grid with its top-left entry in
      the corner. */
  lemma FitsInEmptyCorner(g: Grid, s: Shape)
    requires WellFormed(g) && InCatalog(s)
    requires forall r, c :: 0 <= r < Size && 0 <= c < Size ==> g[r][c] == Empty
    ensures Fits(g, s, 0, 0)
  {
    CatalogShapeSmall(s);
  }

  /** A fresh endless round always has a move: it cannot be over before the
      first drop. */
  lemma FreshEndlessCanMove(best: nat, draws: seq<Draw>)
    requires |draws| >= EndlessSlots && ValidDraws(draws)
    ensures CanMove(StartEndless(best, draws).grid, StartEndless(best, draws).dock)
  {
    var gm := StartEndless(best, draws);
    assert gm.dock[0].Some? && ValidBlock(gm.dock[0].value);
    FitsInEmptyCorner(gm.grid, gm.dock[0].value.shape);
  }

  /** A catalog block covers at least one entry of its matrix. */
  lemma CatalogShapeCovers(s: Shape) returns (r: int, c: int)
    requires InCatalog(s)
    ensures Covers(s, r, c)
  {
    CatalogShapeSmall(s);
    var cells := Footprint(s, 0, 0);
    assert |cells| == CellCount(s) > 0;
    assert cells[0] in cells;
    r, c :| Covers(s, r, c) && cells[0] == Pos(r, c);
  }

  /** On a board without a `null` cell no catalog block fits anywhere. */
  lemma SaturatedIsStuck(g: Grid, dock: seq<Option<Block>>)
    requires WellFormed(g) && Saturated(g)
    requires forall i :: 0 <= i < |dock| && dock[i].Some? ==> ValidBlock(dock[i].value)
    ensures !CanMove(g, dock)
  {
    forall i, r0, c0 | 0 <= i < |dock| && dock[i].Some? && 0 <= r0 < Size && 0 <= c0 < Size
      ensures !Fits(g, dock[i].value.shape, r0, c0)
    {
      var s := dock[i].value.shape;
      var r, c := CatalogShapeCovers(s);
      assert !Free(g, Pos(r0 + r, c0 + c));
    }
  }
}
