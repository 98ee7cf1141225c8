/** One playthrough of `BlockBlastGame`: round reset, the dock and its spawn
    policy, placing a block, stage targets, and the win / game-over checks
    (game.js:75-143, 164-192, 313-334, 373-427). */
module Round {
  import opened Wrappers
  import opened Board
  import opened Shapes
  import opened Placing
  import opened Lines

  /** Stages are numbered 1..StageCount (`currentStageIdx < 10`). */
  const StageCount: nat := 10

  /** Number of dock slots in endless mode. */
  const EndlessSlots: nat := 3

  /** A stage record: a title, an 8x8 layout (0 = wall, 1 = target) and the
      block keys the dock receives, in order. */
  datatype Stage = Stage(title: string, grid: seq<seq<int>>, blocks: seq<string>)

  predicate Layout8(layout: seq<seq<int>>) {
    |layout| == Size && forall r :: 0 <= r < Size ==> |layout[r]| == Size
  }

  /** A stage the round can be seeded from: an 8x8 layout, and only block keys
      the catalog knows (an unknown key has no shape to draw or place). */
  predicate ValidStage(st: Stage) {
    Layout8(st.grid) && forall i :: 0 <= i < |st.blocks| ==> IsShapeName(st.blocks[i])
  }

  /** `gameMode` together with `currentStageIdx` and its stage record. */
  datatype Mode = Endless | Staged(idx: nat, stage: Stage)

  predicate ValidMode(mode: Mode) {
    mode.Staged? ==> ValidStage(mode.stage)
  }

  /** A dock item: the shape matrix and the colour drawn for it. */
  datatype Block = Block(shape: Shape, colour: nat)

  predicate ValidBlock(b: Block) {
    InCatalog(b.shape) && b.colour < ColourCount
  }

  /** Whether the round is in play, or which modal ended it. */
  datatype Status = Playing | Won | Lost

  /** One outcome of the `Math.random` calls of `addBlockToDock`: a catalog
      index (endless mode only) and an index into COLORS. */
  datatype Draw = Draw(shape: nat, colour: nat)

  predicate ValidDraws(draws: seq<Draw>) {
    forall i :: 0 <= i < |draws| ==> draws[i].shape < |Catalog()| && draws[i].colour < ColourCount
  }

  /** The state `BlockBlastGame` keeps for a round. */
  datatype Game = Game(mode: Mode, grid: Grid, score: nat, best: nat, dock: seq<Option<Block>>, status: Status)

  /** Why a drop is refused. */
  datatype PlaceError = InvalidSlot | InvalidPlacement

  function DockSize(mode: Mode): nat {
    match mode
    case Endless => EndlessSlots
    case Staged(_, st) => |st.blocks|
  }

  /** Every slot is `null`. */
  predicate DockEmpty(dock: seq<Option<Block>>) {
    forall i :: 0 <= i < |dock| ==> dock[i].None?
  }

  /** Walls of a round: none in endless mode, exactly the 0 entries of the
      layout in stage mode. */
  predicate WallsMatch(mode: Mode, g: Grid)
    requires WellFormed(g) && ValidMode(mode)
  {
    forall r, c :: 0 <= r < Size && 0 <= c < Size ==>
      (g[r][c] == Wall <==> mode.Staged? && mode.stage.grid[r][c] == 0)
  }

  /** The round invariant. */
  predicate Valid(gm: Game) {
    && WellFormed(gm.grid)
    && ValidMode(gm.mode)
    && |gm.dock| == DockSize(gm.mode)
    && (forall i :: 0 <= i < |gm.dock| && gm.dock[i].Some? ==> ValidBlock(gm.dock[i].value))
    && WallsMatch(gm.mode, gm.grid)
  }

  // ---------------------------------------------------------------- dock

  /** Endless `spawnBlocks`: three independent catalog draws. */
  function EndlessDock(draws: seq<Draw>): (dock: seq<Option<Block>>)
    requires |draws| >= EndlessSlots && ValidDraws(draws)
  {
    seq(EndlessSlots, i requires 0 <= i < EndlessSlots =>
      Some(Block(Catalog()[draws[i].shape].1, draws[i].colour)))
  }

  /** Stage `spawnBlocks`: each slot in turn takes the head of the remaining
      block queue (`currentStageBlocks.shift()`). */
  function StageDock(queue: seq<string>, draws: seq<Draw>): (dock: seq<Option<Block>>)
    requires |draws| >= |queue| && ValidDraws(draws)
    requires forall i :: 0 <= i < |queue| ==> IsShapeName(queue[i])
    ensures |dock| == |queue|
    ensures forall i :: 0 <= i < |queue| ==>
      dock[i].Some? && Lookup(queue[i]) == Some(dock[i].value.shape) && dock[i].value.colour == draws[i].colour
    decreases |queue|
  {
    if |queue| == 0 then []
    else [Some(Block(Lookup(queue[0]).value, draws[0].colour))] + StageDock(queue[1..], draws[1..])
  }

  /** `spawnBlocks`: a full dock for the mode. */
  function SpawnBlocks(mode: Mode, draws: seq<Draw>): (dock: seq<Option<Block>>)
    requires ValidMode(mode)
    requires |draws| >= DockSize(mode) && ValidDraws(draws)
    ensures |dock| == DockSize(mode)
    ensures forall i :: 0 <= i < |dock| ==> dock[i].Some? && ValidBlock(dock[i].value)
  {
    match mode
    case Endless =>
      var dock := EndlessDock(draws);
      assert forall i :: 0 <= i < |dock| ==> InCatalog(dock[i].value.shape) by {
        forall i | 0 <= i < |dock| ensures InCatalog(dock[i].value.shape) {
          var k := draws[i].shape;
          assert Catalog()[k].1 == dock[i].value.shape;
        }
      }
      dock
    case Staged(_, st) =>
      var dock := StageDock(st.blocks, draws);
      assert forall i :: 0 <= i < |dock| ==> InCatalog(dock[i].value.shape) by {
        forall i | 0 <= i < |dock| ensures InCatalog(dock[i].value.shape) {
          var k :| 0 <= k < |Catalog()| && Catalog()[k] == (st.blocks[i], dock[i].value.shape);
        }
      }
      dock
  }

  // ---------------------------------------------------------------- targets

  /** Target cells (layout entry 1) whose board cell is still `null`. */
  function TargetsLeft(layout: seq<seq<int>>, g: Grid): set<Pos>
    requires Layout8(layout) && WellFormed(g)
  {
    set r, c | 0 <= r < Size && 0 <= c < Size && layout[r][c] == 1 && g[r][c] == Empty :: Pos(r, c)
  }

  /** The count `updateStageTarget` shows. */
  function RemainingTargets(layout: seq<seq<int>>, g: Grid): nat
    requires Layout8(layout) && WellFormed(g)
  {
    |TargetsLeft(layout, g)|
  }

  /** The stage is cleared exactly when every target cell holds something. */
  lemma NoTargetsLeftIffCovered(layout: seq<seq<int>>, g: Grid)
    requires Layout8(layout) && WellFormed(g)
    ensures RemainingTargets(layout, g) == 0 <==>
      forall r, c :: 0 <= r < Size && 0 <= c < Size && layout[r][c] == 1 ==> g[r][c] != Empty
  {
    if RemainingTargets(layout, g) == 0 {
      forall r, c | 0 <= r < Size && 0 <= c < Size && layout[r][c] == 1
        ensures g[r][c] != Empty
      {
        assert Pos(r, c) !in TargetsLeft(layout, g);
      }
    } else {
      var p :| p in TargetsLeft(layout, g);
    }
  }

  /** The counting loop of `updateStageTarget` (and of `checkGameStatus`). */
  method CountRemainingTargets(layout: seq<seq<int>>, g: Grid) returns (count: nat)
    requires Layout8(layout) && WellFormed(g)
    ensures count == RemainingTargets(layout, g)
  {
    count := 0;
    var r := 0;
    while r < Size
      invariant 0 <= r <= Size
      invariant count == |SeenTargets(layout, g, r, 0)|
    {
      var c := 0;
      while c < Size
        invariant 0 <= c <= Size
        invariant count == |SeenTargets(layout, g, r, c)|
      {
        var seen := SeenTargets(layout, g, r, c);
        if layout[r][c] == 1 && g[r][c] == Empty {
          assert SeenTargets(layout, g, r, c + 1) == seen + {Pos(r, c)};
          count := count + 1;
        } else {
          assert SeenTargets(layout, g, r, c + 1) == seen;
        }
        c := c + 1;
      }
      assert SeenTargets(layout, g, r + 1, 0) == SeenTargets(layout, g, r, Size);
      r := r + 1;
    }
    assert SeenTargets(layout, g, Size, 0) == TargetsLeft(layout, g);
  }

  /** Remaining targets the loop has visited before reaching (row, col). */
  ghost function SeenTargets(layout: seq<seq<int>>, g: Grid, row: int, col: int): set<Pos>
    requires Layout8(layout) && WellFormed(g)
  {
    set r, c | 0 <= r < Size && 0 <= c < Size && (r < row || (r == row && c < col))
      && layout[r][c] == 1 && g[r][c] == Empty :: Pos(r, c)
  }

  // ---------------------------------------------------------------- reset

  /** The grid `resetGame` builds: all `null`, then walls where the layout holds 0. */
  function SeedGrid(mode: Mode): (g: Grid)
    requires ValidMode(mode)
    ensures WellFormed(g)
  {
    seq(Size, r requires 0 <= r < Size => seq(Size, c requires 0 <= c < Size =>
      if mode.Staged? && mode.stage.grid[r][c] == 0 then Wall else Empty))
  }

  /** `resetGame` (reached through `startEndless`, `startStage` or the restart
      button): score 0, a fresh grid, a full dock, and an immediate win for a
      stage without targets. */
  function NewRound(mode: Mode, best: nat, draws: seq<Draw>): (gm: Game)
    requires ValidMode(mode)
    requires |draws| >= DockSize(mode) && ValidDraws(draws)
    ensures Valid(gm)
    ensures gm.mode == mode && gm.score == 0 && gm.best == best
    ensures forall r, c :: 0 <= r < Size && 0 <= c < Size ==>
      gm.grid[r][c] == (if mode.Staged? && mode.stage.grid[r][c] == 0 then Wall else Empty)
    ensures forall i :: 0 <= i < |gm.dock| ==> gm.dock[i].Some?
    ensures gm.status != Lost
    ensures mode.Endless? ==> gm.status == Playing
    ensures mode.Staged? ==>
      (gm.status == Won <==> forall r, c :: 0 <= r < Size && 0 <= c < Size ==> mode.stage.grid[r][c] != 1)
  {
    var g := SeedGrid(mode);
    var won := mode.Staged? && RemainingTargets(mode.stage.grid, g) == 0;
    assert mode.Staged? ==>
      (won <==> forall r, c :: 0 <= r < Size && 0 <= c < Size ==> mode.stage.grid[r][c] != 1) by {
      if mode.Staged? {
        NoTargetsLeftIffCovered(mode.stage.grid, g);
      }
    }
    Game(mode, g, 0, best, SpawnBlocks(mode, draws), if won then Won else Playing)
  }

  /** `startEndless`. */
  function StartEndless(best: nat, draws: seq<Draw>): Game
    requires |draws| >= EndlessSlots && ValidDraws(draws)
  {
    NewRound(Endless, best, draws)
  }

  /** `startStage(idx)`, given the stage record stored under `idx`. */
  function StartStage(idx: nat, stage: Stage, best: nat, draws: seq<Draw>): Game
    requires ValidStage(stage)
    requires |draws| >= |stage.blocks| && ValidDraws(draws)
  {
    NewRound(Staged(idx, stage), best, draws)
  }

  /** The restart button: `resetGame` in the current mode. */
  function Restart(gm: Game, draws: seq<Draw>): Game
    requires ValidMode(gm.mode)
    requires |draws| >= DockSize(gm.mode) && ValidDraws(draws)
  {
    NewRound(gm.mode, gm.best, draws)
  }

  /** What the next-stage button leads to. */
  datatype NextStep = StartNext(idx: nat) | BackToMenu

  /** `goToNextStage`: the following stage, or the menu after the last one. */
  function GoToNextStage(idx: nat): (next: NextStep)
    ensures next.StartNext? <==> idx < StageCount
    ensures next.StartNext? ==> next.idx == idx + 1 && next.idx <= StageCount
  {
    if idx < StageCount then StartNext(idx + 1) else BackToMenu
  }

  // ---------------------------------------------------------------- status

  /** Some pending block fits somewhere: the search of `checkGameStatus`. */
  predicate CanMove(g: Grid, dock: seq<Option<Block>>)
    requires WellFormed(g)
  {
    exists i, r, c :: 0 <= i < |dock| && dock[i].Some? && 0 <= r < Size && 0 <= c < Size
      && Fits(g, dock[i].value.shape, r, c)
  }

  /** `checkGameStatus`: with an empty dock only a stage with targets left is
      lost; otherwise the round is lost when no pending block fits anywhere. */
  predicate GameOver(mode: Mode, g: Grid, dock: seq<Option<Block>>)
    requires WellFormed(g) && ValidMode(mode)
  {
    if DockEmpty(dock) then mode.Staged? && RemainingTargets(mode.stage.grid, g) > 0
    else !CanMove(g, dock)
  }

  /** The nested loops of `checkGameStatus`, each probe a call of `isValidPlacement`,
      leaving all three loops at the first block and origin that fit. */
  method HasLegalMove(g: Grid, dock: seq<Option<Block>>) returns (canMove: bool)
    requires WellFormed(g)
    ensures canMove <==> CanMove(g, dock)
  {
    canMove := false;
    var i := 0;
    while i < |dock|
      invariant 0 <= i <= |dock|
      invariant !canMove
      invariant forall j, r, c :: 0 <= j < i && dock[j].Some? && 0 <= r < Size && 0 <= c < Size ==>
        !Fits(g, dock[j].value.shape, r, c)
    {
      if dock[i].Some? {
        var s := dock[i].value.shape;
        var r := 0;
        while r < Size
          invariant 0 <= r <= Size
          invariant forall r', c :: 0 <= r' < r && 0 <= c < Size ==> !Fits(g, s, r', c)
        {
          var c := 0;
          while c < Size
            invariant 0 <= c <= Size
            invariant forall c' :: 0 <= c' < c ==> !Fits(g, s, r, c')
          {
            var ok, _ := IsValidPlacement(g, s, r, c);
            if ok {
              canMove := true;
              return;
            }
            c := c + 1;
          }
          r := r + 1;
        }
      }
      i := i + 1;
    }
  }

  /** The best-score update of `showGameOver`: only endless rounds record a score. */
  function RecordBest(mode: Mode, score: nat, best: nat): (best': nat)
    ensures mode.Staged? ==> best' == best
    ensures mode.Endless? ==> best' >= best && best' >= score && (best' == best || best' == score)
  {
    if mode.Endless? && score > best then score else best
  }

  // ---------------------------------------------------------------- placing

  /** The grid, score and dock effect of `placeBlock` for the cells
      `isValidPlacement` returned. */
  function Commit(gm: Game, slot: nat, cells: seq<Pos>, colour: nat): Game
    requires WellFormed(gm.grid) && slot < |gm.dock|
    requires forall k :: 0 <= k < |cells| ==> InBounds(cells[k])
  {
    gm.(grid := PlaceCells(gm.grid, cells, colour),
        score := gm.score + |cells|,
        dock := gm.dock[slot := None])
  }

  /** Endless mode runs `checkLines`; stage mode leaves grid and score alone. */
  function ResolveLines(gm: Game): (gm': Game)
    requires WellFormed(gm.grid)
    ensures WellFormed(gm'.grid)
  {
    if gm.mode.Endless? then
      var res := CheckLines(gm.grid, gm.score);
      gm.(grid := res.0, score := res.1)
    else gm
  }

  /** The endless refill: three fresh blocks once every slot is `null`. */
  function Refill(gm: Game, draws: seq<Draw>): Game
    requires |draws| >= EndlessSlots && ValidDraws(draws)
  {
    if gm.mode.Endless? && DockEmpty(gm.dock) then gm.(dock := EndlessDock(draws)) else gm
  }

  /** `updateStageTarget` reaching 0. */
  predicate StageCleared(gm: Game)
    requires WellFormed(gm.grid) && ValidMode(gm.mode)
  {
    gm.mode.Staged? && RemainingTargets(gm.mode.stage.grid, gm.grid) == 0
  }

  /** What happens after the cells are filled: lines or targets, the refill,
      then the status check on the settled dock. A cleared stage is won and
      stays won. */
  function Settle(gm: Game, draws: seq<Draw>): Game
    requires WellFormed(gm.grid) && ValidMode(gm.mode)
    requires |draws| >= EndlessSlots && ValidDraws(draws)
  {
    var settled := Refill(ResolveLines(gm), draws);
    var won := StageCleared(settled);
    var lost := !won && GameOver(settled.mode, settled.grid, settled.dock);
    settled.(status := if won then Won else if lost then Lost else settled.status,
             best := if lost then RecordBest(settled.mode, settled.score, settled.best) else settled.best)
  }

  /** The drop `placeBlock` performs once `isValidPlacement` accepted it. */
  predicate CanDrop(gm: Game, slot: int, r0: int, c0: int)
    requires Valid(gm)
  {
    0 <= slot < |gm.dock| && gm.dock[slot].Some? && Fits(gm.grid, gm.dock[slot].value.shape, r0, c0)
  }

  /** The round right after the block's cells are filled, before lines,
      targets, refill and status are looked at. */
  function Placed(gm: Game, slot: int, r0: int, c0: int): Game
    requires Valid(gm) && CanDrop(gm, slot, r0, c0)
  {
    var b := gm.dock[slot].value;
    Commit(gm, slot, Placement(gm.grid, b.shape, r0, c0).value, b.colour)
  }

  /** `placeBlock` on the block in `slot` dropped with its top-left entry on
      (r0, c0); `draws` feeds a possible endless refill. A refused drop
      reports why and changes nothing. */
  function PlaceBlock(gm: Game, slot: int, r0: int, c0: int, draws: seq<Draw>): (res: Result<Game, PlaceError>)
    requires Valid(gm)
    requires |draws| >= EndlessSlots && ValidDraws(draws)
    ensures res == Err(InvalidSlot) <==> !(0 <= slot < |gm.dock|) || gm.dock[slot].None?
    ensures res == Err(InvalidPlacement) <==>
      0 <= slot < |gm.dock| && gm.dock[slot].Some? && !Fits(gm.grid, gm.dock[slot].value.shape, r0, c0)
    ensures res.Ok? <==> CanDrop(gm, slot, r0, c0)
  {
    if !(0 <= slot < |gm.dock|) || gm.dock[slot].None? then Err(InvalidSlot)
    else
      match Placement(gm.grid, gm.dock[slot].value.shape, r0, c0)
      case None => Err(InvalidPlacement)
      case Some(_) => Ok(Settle(Placed(gm, slot, r0, c0), draws))
  }

  /** `placeBlock` in the order the source runs it: `checkGameStatus` runs
      synchronously, before the deferred endless refill, and its game over
      follows (and overrides) a stage win. */
  function SettleAsWritten(gm: Game, draws: seq<Draw>): Game
    requires WellFormed(gm.grid) && ValidMode(gm.mode)
    requires |draws| >= EndlessSlots && ValidDraws(draws)
  {
    var resolved := ResolveLines(gm);
    var over := GameOver(resolved.mode, resolved.grid, resolved.dock);
    var status := if over then Lost else if StageCleared(resolved) then Won else resolved.status;
    var best := if over then RecordBest(resolved.mode, resolved.score, resolved.best) else resolved.best;
    Refill(resolved, draws).(status := status, best := best)
  }

  function PlaceBlockAsWritten(gm: Game, slot: int, r0: int, c0: int, draws: seq<Draw>): (res: Result<Game, PlaceError>)
    requires Valid(gm)
    requires |draws| >= EndlessSlots && ValidDraws(draws)
    ensures res.Ok? <==> CanDrop(gm, slot, r0, c0)
  {
    if !CanDrop(gm, slot, r0, c0) then PlaceBlock(gm, slot, r0, c0, draws)
    else Ok(SettleAsWritten(Placed(gm, slot, r0, c0), draws))
  }
}
