/** `LevelEditor` (editor.js:5-181): an 8x8 sketch of targets and walls plus
    an ordered list of block keys, exported as a stage record the game can
    play. */
module Editor {
  import opened Wrappers
  import opened Board
  import opened Shapes
  import opened Round

  /** An editor cell: `null` (blank), 1 (target) or 0 (wall). */
  datatype Mark = Blank | Target | WallMark

  /** The editor state: the sketch and `selectedBlocks`. */
  datatype Sketch = Sketch(grid: seq<seq<Mark>>, selected: seq<string>)

  predicate WellFormedSketch(e: Sketch) {
    |e.grid| == Size && forall r :: 0 <= r < Size ==> |e.grid[r]| == Size
  }

  /** The title every exported stage carries. */
  const CustomTitle: string := "CUSTOM STAGE"

  /** The constructor's state: every cell blank, no block selected. */
  function InitialSketch(): (e: Sketch)
    ensures WellFormedSketch(e)
    ensures forall r, c :: 0 <= r < Size && 0 <= c < Size ==> e.grid[r][c] == Blank
    ensures e.selected == []
  {
    Sketch(seq(Size, _ => seq(Size, _ => Blank)), [])
  }

  // ---------------------------------------------------------------- grid

  /** One click on a cell: blank, target, wall, blank again. */
  function NextMark(m: Mark): (m': Mark)
    ensures m' != m
  {
    match m
    case Blank => Target
    case Target => WallMark
    case WallMark => Blank
  }

  /** `toggleCell(r, c)`: only the clicked cell moves on in the cycle. */
  function ToggleCell(e: Sketch, r: int, c: int): (e': Sketch)
    requires WellFormedSketch(e) && 0 <= r < Size && 0 <= c < Size
    ensures WellFormedSketch(e')
    ensures e'.grid[r][c] == NextMark(e.grid[r][c]) && e'.grid[r][c] != e.grid[r][c]
    ensures forall i, j :: 0 <= i < Size && 0 <= j < Size && (i, j) != (r, c) ==> e'.grid[i][j] == e.grid[i][j]
    ensures e'.selected == e.selected
  {
    e.(grid := e.grid[r := e.grid[r][c := NextMark(e.grid[r][c])]])
  }

  /** Three clicks on the same cell restore the sketch. */
  lemma ToggleThriceRestores(e: Sketch, r: int, c: int)
    requires WellFormedSketch(e) && 0 <= r < Size && 0 <= c < Size
    ensures ToggleCell(ToggleCell(ToggleCell(e, r, c), r, c), r, c) == e
  {
    var e3 := ToggleCell(ToggleCell(ToggleCell(e, r, c), r, c), r, c);
    assert e3.grid[r][c] == e.grid[r][c];
    assert forall i :: 0 <= i < Size ==> e3.grid[i] == e.grid[i];
  }

  /** Clicks on two different cells can be made in either order. */
  lemma TogglesCommute(e: Sketch, r1: int, c1: int, r2: int, c2: int)
    requires WellFormedSketch(e)
    requires 0 <= r1 < Size && 0 <= c1 < Size && 0 <= r2 < Size && 0 <= c2 < Size
    ensures ToggleCell(ToggleCell(e, r1, c1), r2, c2) == ToggleCell(ToggleCell(e, r2, c2), r1, c1)
  {
    var a := ToggleCell(ToggleCell(e, r1, c1), r2, c2);
    var b := ToggleCell(ToggleCell(e, r2, c2), r1, c1);
    assert forall i :: 0 <= i < Size ==> a.grid[i] == b.grid[i];
  }

  // ---------------------------------------------------------------- blocks

  /** `addBlock(key)`: the palette click appends the key. */
  function AddBlock(e: Sketch, key: string): (e': Sketch)
    ensures e'.grid == e.grid
    ensures |e'.selected| == |e.selected| + 1 && e'.selected[|e.selected|] == key
    ensures e'.selected[..|e.selected|] == e.selected
  {
    e.(selected := e.selected + [key])
  }

  /** A click on the selected item at `index`: `splice(index, 1)`, which
      removes that one key and keeps the others in order. The handler passes
      the item's own `forEach` position, so the index is never negative; an
      index past the end removes nothing. */
  function RemoveBlockAt(e: Sketch, index: nat): (e': Sketch)
    ensures e'.grid == e.grid
    ensures index >= |e.selected| ==> e' == e
    ensures index < |e.selected| ==>
      && |e'.selected| == |e.selected| - 1
      && (forall j :: 0 <= j < index ==> e'.selected[j] == e.selected[j])
      && (forall j :: index <= j < |e'.selected| ==> e'.selected[j] == e.selected[j + 1])
      && multiset(e'.selected) + multiset{e.selected[index]} == multiset(e.selected)
  {
    if index < |e.selected| then
      assert e.selected == e.selected[..index] + [e.selected[index]] + e.selected[index + 1..];
      e.(selected := e.selected[..index] + e.selected[index + 1..])
    else e
  }

  /** Removing the key just added undoes the click. */
  lemma AddThenRemove(e: Sketch, key: string)
    ensures RemoveBlockAt(AddBlock(e, key), |e.selected|) == e
  {
    var e' := RemoveBlockAt(AddBlock(e, key), |e.selected|);
    assert e'.selected == e.selected;
  }

  /** Removing a key and putting it back at the same place restores the list. */
  lemma RemoveThenReinsert(e: Sketch, index: nat)
    requires index < |e.selected|
    ensures var s := RemoveBlockAt(e, index).selected;
      s[..index] + [e.selected[index]] + s[index..] == e.selected
  {
    var s := RemoveBlockAt(e, index).selected;
    assert s[..index] + [e.selected[index]] + s[index..] == e.selected;
  }

  /** The clear-blocks button. */
  function ClearBlocks(e: Sketch): (e': Sketch)
    ensures e'.grid == e.grid && e'.selected == []
  {
    e.(selected := [])
  }

  /** Only catalog keys are selected (the palette offers nothing else). */
  predicate KeysKnown(e: Sketch) {
    forall i :: 0 <= i < |e.selected| ==> IsShapeName(e.selected[i])
  }

  /** Every block operation keeps the selected keys in the catalog when the
      added key comes from the catalog. */
  lemma BlockEditsKeepKeysKnown(e: Sketch, key: string, index: nat)
    requires KeysKnown(e) && IsShapeName(key)
    ensures KeysKnown(AddBlock(e, key))
    ensures KeysKnown(RemoveBlockAt(e, index))
    ensures KeysKnown(ClearBlocks(e))
  {
    var s := RemoveBlockAt(e, index).selected;
    if index < |e.selected| {
      forall j | 0 <= j < |s| ensures IsShapeName(s[j]) {
        if j >= index {
          assert s[j] == e.selected[j + 1];
        }
      }
    }
  }

  // ---------------------------------------------------------------- export

  /** `exportJSON` before serialisation: a target exports as 1, anything
      else (blank or wall) as 0. */
  function Export(e: Sketch): (st: Stage)
    requires WellFormedSketch(e)
    ensures st.title == CustomTitle
    ensures Layout8(st.grid)
    ensures forall r, c :: 0 <= r < Size && 0 <= c < Size ==>
      (st.grid[r][c] == 1 <==> e.grid[r][c] == Target) && (st.grid[r][c] == 0 <==> e.grid[r][c] != Target)
    ensures st.blocks == e.selected
  {
    Stage(CustomTitle,
      seq(Size, r requires 0 <= r < Size => seq(Size, c requires 0 <= c < Size =>
        if e.grid[r][c] == Target then 1 else 0)),
      e.selected)
  }

  /** Blank and wall cells export alike: two sketches export the same stage
      exactly when they agree on targets and on the selected keys. */
  lemma ExportSeesOnlyTargets(e1: Sketch, e2: Sketch)
    requires WellFormedSketch(e1) && WellFormedSketch(e2)
    ensures Export(e1) == Export(e2) <==>
      && e1.selected == e2.selected
      && forall r, c :: 0 <= r < Size && 0 <= c < Size ==> (e1.grid[r][c] == Target <==> e2.grid[r][c] == Target)
  {
    var s1 := Export(e1);
    var s2 := Export(e2);
    if e1.selected == e2.selected &&
       forall r, c :: 0 <= r < Size && 0 <= c < Size ==> (e1.grid[r][c] == Target <==> e2.grid[r][c] == Target) {
      assert forall r :: 0 <= r < Size ==> s1.grid[r] == s2.grid[r];
    }
    if s1 == s2 {
      forall r, c | 0 <= r < Size && 0 <= c < Size
        ensures e1.grid[r][c] == Target <==> e2.grid[r][c] == Target
      {
        assert s1.grid[r][c] == s2.grid[r][c];
      }
    }
  }

  /** The cells marked as targets. */
  function TargetMarks(e: Sketch): set<Pos>
    requires WellFormedSketch(e)
  {
    set r, c | 0 <= r < Size && 0 <= c < Size && e.grid[r][c] == Target :: Pos(r, c)
  }

  /** Playing an exported stage: every target of the sketch is an open cell
      still to be covered, every other cell is a wall, the dock holds the
      selected keys in order, and the round opens already won exactly when
      the sketch has no target. */
  lemma PlayExported(e: Sketch, idx: nat, best: nat, draws: seq<Draw>)
    requires WellFormedSketch(e) && KeysKnown(e)
    requires |draws| >= |e.selected| && ValidDraws(draws)
    ensures ValidStage(Export(e))
    ensures var gm := StartStage(idx, Export(e), best, draws);
      && (forall r, c :: 0 <= r < Size && 0 <= c < Size ==>
            (gm.grid[r][c] == Wall <==> e.grid[r][c] != Target)
            && (gm.grid[r][c] == Empty <==> e.grid[r][c] == Target))
      && TargetsLeft(Export(e).grid, gm.grid) == TargetMarks(e)
      && |gm.dock| == |e.selected|
      && (forall i :: 0 <= i < |e.selected| ==>
            gm.dock[i].Some? && Lookup(e.selected[i]) == Some(gm.dock[i].value.shape))
      && (gm.status == Won <==> TargetMarks(e) == {})
  {
    var st := Export(e);
    var gm := StartStage(idx, st, best, draws);
    var mode := Staged(idx, st);
    assert gm == NewRound(mode, best, draws);
    assert gm.dock == SpawnBlocks(mode, draws) == StageDock(e.selected, draws);
    assert TargetsLeft(st.grid, gm.grid) == TargetMarks(e) by {
      forall p | p in TargetMarks(e) ensures p in TargetsLeft(st.grid, gm.grid) {
        assert gm.grid[p.r][p.c] == Empty;
      }
    }
    if TargetMarks(e) == {} {
      forall r, c | 0 <= r < Size && 0 <= c < Size ensures st.grid[r][c] != 1 {
        assert Pos(r, c) !in TargetMarks(e);
      }
    } else {
      var p :| p in TargetMarks(e);
      assert st.grid[p.r][p.c] == 1;
    }
  }
}
