/** Two places where the order in which `placeBlock` runs its follow-up
    steps (game.js:326-333) contradicts what the round is meant to report.
    `PlaceBlockAsWritten` keeps the source's order; `PlaceBlock` is the
    corrected order the rest of the model uses. */
module PlaceBlockOrder {
  import opened Wrappers
  import opened Board
  import opened Shapes
  import opened Placing
  import opened Lines
  import opened Round
  import opened RoundFacts

  /** The two orders agree on everything but the status and the best score. */
  lemma AsWrittenSameBoard(gm: Game, slot: int, r0: int, c0: int, draws: seq<Draw>)
    requires Valid(gm) && |draws| >= EndlessSlots && ValidDraws(draws)
    requires CanDrop(gm, slot, r0, c0)
    ensures var a := PlaceBlockAsWritten(gm, slot, r0, c0, draws).value;
      var b := PlaceBlock(gm, slot, r0, c0, draws).value;
      a.mode == b.mode && a.grid == b.grid && a.score == b.score && a.dock == b.dock
  {
    PlaceBlockSettles(gm, slot, r0, c0, draws);
    SettleFields(Placed(gm, slot, r0, c0), draws);
  }

  /** Away from the two reported defects the source's order and the
      corrected order agree on the whole round: an endless drop that leaves a
      block in the dock, and any stage drop except one that clears the stage
      while the round is over. */
  lemma AsWrittenAgreesElsewhere(gm: Game, slot: int, r0: int, c0: int, draws: seq<Draw>)
    requires Valid(gm) && |draws| >= EndlessSlots && ValidDraws(draws)
    requires CanDrop(gm, slot, r0, c0)
    requires gm.mode.Endless? ==> !DockEmpty(gm.dock[slot := None])
    requires gm.mode.Staged? ==>
      var res := PlaceBlock(gm, slot, r0, c0, draws).value;
      !(StageCleared(res) && GameOver(res.mode, res.grid, res.dock))
    ensures PlaceBlockAsWritten(gm, slot, r0, c0, draws) == PlaceBlock(gm, slot, r0, c0, draws)
  {
    PlaceBlockSettles(gm, slot, r0, c0, draws);
    var p := Placed(gm, slot, r0, c0);
    PlacedKeepsWalls(gm, slot, r0, c0);
    SettleFields(p, draws);
    assert ResolveLines(p).dock == p.dock;
  }

  // ------------------------------------------------------------ endless

  /** As written, a drop that uses the last endless block never ends the
      round: the status check sees an empty dock, and the refill comes after. */
  lemma AsWrittenEmptiedDockNeverLoses(gm: Game, slot: int, r0: int, c0: int, draws: seq<Draw>)
    requires Valid(gm) && gm.mode.Endless? && |draws| >= EndlessSlots && ValidDraws(draws)
    requires CanDrop(gm, slot, r0, c0) && DockEmpty(gm.dock[slot := None])
    ensures var res := PlaceBlockAsWritten(gm, slot, r0, c0, draws).value;
      res.status == gm.status && res.best == gm.best
  {
    PlacedKeepsWalls(gm, slot, r0, c0);
    var p := Placed(gm, slot, r0, c0);
    assert ResolveLines(p).dock == gm.dock[slot := None];
  }

  /** Every cell with an even coordinate sum holds a colour, every other
      cell is `null`. */
  predicate Checkered(g: Grid) {
    && WellFormed(g)
    && forall r, c :: 0 <= r < Size && 0 <= c < Size ==>
         g[r][c] == (if (r + c) % 2 == 0 then Filled(0) else Empty)
  }

  function Checkerboard(): (g: Grid)
    ensures Checkered(g)
  {
    seq(Size, r requires 0 <= r < Size => seq(Size, c requires 0 <= c < Size =>
      if (r + c) % 2 == 0 then Filled(0) else Empty))
  }

  /** An endless round on a checkered board with a single one-cell block left. */
  function LastSingle(g: Grid): Game {
    Game(Endless, g, 0, 0, [None, None, Some(Block(Single, 0))], Playing)
  }

  /** Three square blocks (catalog entry 7) for the refill. */
  function SquareDraws(): seq<Draw> {
    [Draw(7, 0), Draw(7, 0), Draw(7, 0)]
  }

  lemma LastSingleValid(g: Grid)
    requires Checkered(g)
    ensures Valid(LastSingle(g)) && ValidDraws(SquareDraws())
    ensures CanDrop(LastSingle(g), 2, 0, 1)
  {
    assert Catalog()[0].1 == Single;
    assert g[0][1] == Empty;
  }

  /** On the checkerboard with one more cell filled no two horizontally
      adjacent cells are both free, so a square fits nowhere. */
  lemma SquareStuck(g: Grid, dock: seq<Option<Block>>)
    requires WellFormed(g)
    requires forall r, c :: 0 <= r < Size && 0 <= c < Size && (r + c) % 2 == 0 ==> g[r][c] != Empty
    requires forall i :: 0 <= i < |dock| ==> dock[i] == Some(Block(Square, 0))
    ensures !CanMove(g, dock)
  {
    forall i, r, c | 0 <= i < |dock| && dock[i].Some? && 0 <= r < Size && 0 <= c < Size
      ensures !Fits(g, dock[i].value.shape, r, c)
    {
      assert Square[0][0] == 1 && Square[0][1] == 1;
      if (r + c) % 2 == 0 {
        assert !Free(g, Pos(r, c));
      } else {
        assert !Free(g, Pos(r, c + 1));
      }
    }
  }

  /** The checkerboard with (0, 1) filled as well. */
  predicate NearlyCheckered(g: Grid) {
    && WellFormed(g)
    && forall r, c :: 0 <= r < Size && 0 <= c < Size ==>
         g[r][c] == (if (r == 0 && c == 1) || (r + c) % 2 == 0 then Filled(0) else Empty)
  }

  /** That board has no full row or column. */
  lemma NearlyCheckeredNoLine(g: Grid)
    requires NearlyCheckered(g)
    ensures FullRows(g) == [] && FullCols(g) == []
  {
    forall r | 0 <= r < Size ensures !FullRow(g, r) {
      var c := if r == 0 then 3 else if r % 2 == 0 then 1 else 0;
      assert g[r][c] == Empty;
    }
    forall c | 0 <= c < Size ensures !FullCol(g, c) {
      var r := if c == 1 then 2 else (c + 1) % 2;
      assert g[r][c] == Empty;
    }
  }

  /** Dropping a single changes the one cell it lands on. */
  lemma SingleDropCell(gm: Game, slot: int, r0: int, c0: int)
    requires Valid(gm) && CanDrop(gm, slot, r0, c0) && gm.dock[slot].value.shape == Single
    ensures var g' := Placed(gm, slot, r0, c0).grid;
      && WellFormed(g')
      && forall r, c :: 0 <= r < Size && 0 <= c < Size ==>
           g'[r][c] == (if r == r0 && c == c0 then Filled(gm.dock[slot].value.colour) else gm.grid[r][c])
  {
    PlacedCells(gm, slot, r0, c0);
    var g' := Placed(gm, slot, r0, c0).grid;
    forall r, c | 0 <= r < Size && 0 <= c < Size
      ensures g'[r][c] == (if r == r0 && c == c0 then Filled(gm.dock[slot].value.colour) else gm.grid[r][c])
    {
      assert Covers(Single, r - r0, c - c0) <==> r == r0 && c == c0;
    }
  }

  /** The drop of the last single on (0, 1) fills that cell only. */
  lemma LastSingleDrop(g: Grid)
    requires Checkered(g)
    ensures Valid(LastSingle(g)) && CanDrop(LastSingle(g), 2, 0, 1)
    ensures NearlyCheckered(Placed(LastSingle(g), 2, 0, 1).grid)
  {
    LastSingleValid(g);
    SingleDropCell(LastSingle(g), 2, 0, 1);
  }

  /** ... and uses the last block of the dock. */
  lemma LastSingleUsed(g: Grid)
    requires Checkered(g)
    ensures Valid(LastSingle(g)) && CanDrop(LastSingle(g), 2, 0, 1)
    ensures var p := Placed(LastSingle(g), 2, 0, 1);
      Valid(p) && p.mode.Endless? && DockEmpty(p.dock)
  {
    LastSingleValid(g);
    PlacedValid(LastSingle(g), 2, 0, 1);
    PlacedKeepsWalls(LastSingle(g), 2, 0, 1);
  }

  /** An endless round on that board has no line to clear. */
  lemma NearlyCheckeredNoClear(p: Game)
    requires WellFormed(p.grid) && p.mode.Endless? && NearlyCheckered(p.grid)
    ensures ResolveLines(p) == p
  {
    NearlyCheckeredNoLine(p.grid);
    var res := CheckLines(p.grid, p.score);
    assert res == (p.grid, p.score);
  }

  /** The refill of an emptied endless dock from `SquareDraws`. */
  lemma SquareRefill(p: Game)
    requires p.mode.Endless? && DockEmpty(p.dock)
    ensures ValidDraws(SquareDraws())
    ensures var dock := Refill(p, SquareDraws()).dock;
      |dock| == 3 && forall i :: 0 <= i < |dock| ==> dock[i] == Some(Block(Square, 0))
  {
    assert Catalog()[7].1 == Square;
  }

  /** Settling an endless round on that board with an empty dock clears
      nothing and refills the dock with squares, none of which fits. */
  lemma SquaresStuckAfterRefill(p: Game)
    requires Valid(p) && p.mode.Endless? && NearlyCheckered(p.grid) && DockEmpty(p.dock)
    ensures ValidDraws(SquareDraws())
    ensures var t := Refill(ResolveLines(p), SquareDraws());
      && ResolveLines(p) == p
      && WellFormed(t.grid)
      && !DockEmpty(t.dock)
      && !CanMove(t.grid, t.dock)
  {
    NearlyCheckeredNoClear(p);
    SquareRefill(p);
    var t := Refill(p, SquareDraws());
    assert t.grid == p.grid;
    assert t.dock[0].Some?;
    SquareStuck(t.grid, t.dock);
  }

  /** As written, the stuck refilled dock goes unreported: the round stays
      in play although no block of the dock fits anywhere. */
  lemma RefillHidesGameOver()
    ensures Valid(LastSingle(Checkerboard())) && ValidDraws(SquareDraws())
    ensures PlaceBlockAsWritten(LastSingle(Checkerboard()), 2, 0, 1, SquareDraws()).Ok?
    ensures var res := PlaceBlockAsWritten(LastSingle(Checkerboard()), 2, 0, 1, SquareDraws()).value;
      && WellFormed(res.grid)
      && res.status == Playing
      && !CanMove(res.grid, res.dock)
  {
    LastSingleDrop(Checkerboard());
    LastSingleUsed(Checkerboard());
    var gm := LastSingle(Checkerboard());
    var draws := SquareDraws();
    SquaresStuckAfterRefill(Placed(gm, 2, 0, 1));
    AsWrittenEmptiedDockNeverLoses(gm, 2, 0, 1, draws);
    var p := Placed(gm, 2, 0, 1);
    assert PlaceBlockAsWritten(gm, 2, 0, 1, draws).value == SettleAsWritten(p, draws);
  }

  /** The corrected order reports the same drop as a loss. */
  lemma RefilledStuckIsLost()
    ensures Valid(LastSingle(Checkerboard())) && ValidDraws(SquareDraws())
    ensures PlaceBlock(LastSingle(Checkerboard()), 2, 0, 1, SquareDraws()).Ok?
    ensures PlaceBlock(LastSingle(Checkerboard()), 2, 0, 1, SquareDraws()).value.status == Lost
  {
    LastSingleDrop(Checkerboard());
    LastSingleUsed(Checkerboard());
    var gm := LastSingle(Checkerboard());
    var draws := SquareDraws();
    SquaresStuckAfterRefill(Placed(gm, 2, 0, 1));
    PlaceBlockSettles(gm, 2, 0, 1, draws);
    SettleFields(Placed(gm, 2, 0, 1), draws);
    EndlessOutcome(gm, 2, 0, 1, draws);
  }

  // ------------------------------------------------------------ stage

  /** As written, a stage drop that leaves the dock stuck is a loss even when
      it covered the last target: the game-over modal replaces the win. */
  lemma AsWrittenStuckBeatsWin(gm: Game, slot: int, r0: int, c0: int, draws: seq<Draw>)
    requires Valid(gm) && gm.mode.Staged? && |draws| >= EndlessSlots && ValidDraws(draws)
    requires CanDrop(gm, slot, r0, c0)
    ensures var res := PlaceBlockAsWritten(gm, slot, r0, c0, draws).value;
      WellFormed(res.grid) && (GameOver(res.mode, res.grid, res.dock) ==> res.status == Lost)
  {
    PlacedKeepsWalls(gm, slot, r0, c0);
  }

  /** A stage whose only target is the top-left cell, with two single blocks. */
  function CornerStage(): Stage {
    Stage("CORNER",
      seq(Size, r requires 0 <= r < Size => seq(Size, c requires 0 <= c < Size =>
        if r == 0 && c == 0 then 1 else 0)),
      ["single", "single"])
  }

  function SingleDraws(): seq<Draw> {
    [Draw(0, 0), Draw(0, 0), Draw(0, 0)]
  }

  /** The corner stage is a well-formed stage whose one target is (0, 0). */
  lemma CornerStageValid()
    ensures ValidStage(CornerStage()) && ValidDraws(SingleDraws())
    ensures forall r, c :: 0 <= r < Size && 0 <= c < Size ==>
      CornerStage().grid[r][c] == (if r == 0 && c == 0 then 1 else 0)
    ensures Lookup("single") == Some(Single)
  {
    assert Catalog()[0].0 == "single";
  }

  /** The corner stage's queue spawns two colour-0 singles. */
  lemma CornerDock()
    ensures ValidStage(CornerStage()) && ValidDraws(SingleDraws())
    ensures StageDock(CornerStage().blocks, SingleDraws()) == [Some(Block(Single, 0)), Some(Block(Single, 0))]
  {
    CornerStageValid();
    var dock := StageDock(CornerStage().blocks, SingleDraws());
    assert dock[0] == Some(Block(Single, 0));
    assert dock[1] == Some(Block(Single, 0));
  }

  /** The corner stage opens in play with two singles in the dock, its
      corner open and every other cell a wall. */
  lemma CornerStart()
    ensures ValidStage(CornerStage()) && ValidDraws(SingleDraws())
    ensures var gm := StartStage(1, CornerStage(), 0, SingleDraws());
      && Valid(gm) && gm.mode.Staged? && gm.mode.stage == CornerStage() && gm.status == Playing
      && (forall r, c :: 0 <= r < Size && 0 <= c < Size ==> (gm.grid[r][c] == Empty <==> r == 0 && c == 0))
      && gm.dock == [Some(Block(Single, 0)), Some(Block(Single, 0))]
  {
    CornerStageValid();
    CornerDock();
    var st := CornerStage();
    var gm := NewRound(Staged(1, st), 0, SingleDraws());
    assert gm.dock == StageDock(st.blocks, SingleDraws());
    assert st.grid[0][0] == 1;
    forall r, c | 0 <= r < Size && 0 <= c < Size
      ensures gm.grid[r][c] == Empty <==> r == 0 && c == 0
    {
      assert st.grid[r][c] == (if r == 0 && c == 0 then 1 else 0);
    }
  }

  /** A single fits on any free cell. */
  lemma SingleCanDrop(gm: Game, slot: int, r0: int, c0: int)
    requires Valid(gm) && 0 <= r0 < Size && 0 <= c0 < Size && gm.grid[r0][c0] == Empty
    requires 0 <= slot < |gm.dock| && gm.dock[slot].Some? && gm.dock[slot].value.shape == Single
    ensures CanDrop(gm, slot, r0, c0)
  {
    assert Fits(gm.grid, Single, r0, c0);
  }

  /** A stage round whose only open cell is (r0, c0): dropping a single
      there fills the board and covers every target, while the other slots
      keep their blocks. */
  lemma LastCellDropFills(gm: Game, slot: int, r0: int, c0: int, draws: seq<Draw>)
    requires Valid(gm) && gm.mode.Staged? && |draws| >= EndlessSlots && ValidDraws(draws)
    requires 0 <= r0 < Size && 0 <= c0 < Size
    requires forall r, c :: 0 <= r < Size && 0 <= c < Size ==> (gm.grid[r][c] == Empty <==> r == r0 && c == c0)
    requires 0 <= slot < |gm.dock| && gm.dock[slot].Some? && gm.dock[slot].value.shape == Single
    ensures CanDrop(gm, slot, r0, c0)
    ensures var res := PlaceBlock(gm, slot, r0, c0, draws).value;
      && WellFormed(res.grid)
      && Saturated(res.grid)
      && RemainingTargets(gm.mode.stage.grid, res.grid) == 0
      && res.dock == gm.dock[slot := None]
  {
    SingleCanDrop(gm, slot, r0, c0);
    StageDropGrid(gm, slot, r0, c0, draws);
    PlaceBlockDock(gm, slot, r0, c0, draws);
    PlaceBlockKeepsValid(gm, slot, r0, c0, draws);
    var res := PlaceBlock(gm, slot, r0, c0, draws).value;
    assert forall r, c :: 0 <= r < Size && 0 <= c < Size ==> res.grid[r][c] != Empty;
    NoTargetsLeftIffCovered(gm.mode.stage.grid, res.grid);
  }


  /** Dropping the first single on the target clears the corner stage and
      leaves the board without a `null` cell while the second single waits. */
  lemma CornerDrop()
    ensures ValidStage(CornerStage()) && ValidDraws(SingleDraws())
    ensures var gm := StartStage(1, CornerStage(), 0, SingleDraws());
      && Valid(gm) && gm.status == Playing
      && PlaceBlock(gm, 0, 0, 0, SingleDraws()).Ok?
      && var res := PlaceBlock(gm, 0, 0, 0, SingleDraws()).value;
         && Saturated(res.grid)
         && RemainingTargets(CornerStage().grid, res.grid) == 0
         && res.dock[1].Some?
  {
    CornerStart();
    LastCellDropFills(StartStage(1, CornerStage(), 0, SingleDraws()), 0, 0, 0, SingleDraws());
  }

  /** A stage drop that covers the last target and leaves no `null` cell
      while a block still waits: the as-written order reports a loss, the
      corrected order the win. */
  lemma FilledStageVerdicts(gm: Game, slot: int, r0: int, c0: int, draws: seq<Draw>)
    requires Valid(gm) && gm.mode.Staged? && gm.status == Playing
    requires |draws| >= EndlessSlots && ValidDraws(draws)
    requires CanDrop(gm, slot, r0, c0)
    requires var res := PlaceBlock(gm, slot, r0, c0, draws).value;
      && WellFormed(res.grid) && Saturated(res.grid)
      && RemainingTargets(gm.mode.stage.grid, res.grid) == 0
      && !DockEmpty(res.dock)
    ensures PlaceBlockAsWritten(gm, slot, r0, c0, draws).value.status == Lost
    ensures PlaceBlock(gm, slot, r0, c0, draws).value.status == Won
  {
    var res := PlaceBlock(gm, slot, r0, c0, draws).value;
    PlaceBlockKeepsValid(gm, slot, r0, c0, draws);
    SaturatedIsStuck(res.grid, res.dock);
    AsWrittenSameBoard(gm, slot, r0, c0, draws);
    AsWrittenStuckBeatsWin(gm, slot, r0, c0, draws);
    StageOutcome(gm, slot, r0, c0, draws);
  }

  /** As written, clearing the corner stage is reported as a loss; the
      corrected order reports the win. */
  lemma WinOverridden()
    ensures ValidStage(CornerStage()) && ValidDraws(SingleDraws())
    ensures var gm := StartStage(1, CornerStage(), 0, SingleDraws());
      && Valid(gm) && ValidDraws(SingleDraws())
      && PlaceBlock(gm, 0, 0, 0, SingleDraws()).Ok?
      && PlaceBlockAsWritten(gm, 0, 0, 0, SingleDraws()).Ok?
      && RemainingTargets(CornerStage().grid, PlaceBlock(gm, 0, 0, 0, SingleDraws()).value.grid) == 0
      && PlaceBlockAsWritten(gm, 0, 0, 0, SingleDraws()).value.status == Lost
      && PlaceBlock(gm, 0, 0, 0, SingleDraws()).value.status == Won
  {
    CornerDrop();
    FilledStageVerdicts(StartStage(1, CornerStage(), 0, SingleDraws()), 0, 0, 0, SingleDraws());
  }
}
