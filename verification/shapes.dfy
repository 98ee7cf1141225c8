/** The fixed catalog of block shapes (`this.shapes`, game.js:49-55): named
    0/1 matrices, possibly non-square, in the key order `Object.keys` yields. */
module Shapes {
  import opened Wrappers

  /** A block shape; a matrix entry is part of the block iff it is exactly 1. */
  type Shape = seq<seq<int>>

  /** Entry (r, c) exists and is 1 (the `shape[r][c] === 1` test). */
  predicate Covers(s: Shape, r: int, c: int) {
    0 <= r < |s| && 0 <= c < |s[r]| && s[r][c] == 1
  }

  /** Number of 1 entries among the first `c` entries of a row. */
  function OnesBefore(row: seq<int>, c: nat): nat
    requires c <= |row|
  {
    if c == 0 then 0 else OnesBefore(row, c - 1) + (if row[c - 1] == 1 then 1 else 0)
  }

  /** Number of 1 entries in the first `r` rows of a matrix. */
  function CellsBefore(s: Shape, r: nat): nat
    requires r <= |s|
  {
    if r == 0 then 0 else CellsBefore(s, r - 1) + OnesBefore(s[r - 1], |s[r - 1]|)
  }

  /** Number of 1 entries of a matrix: the number of grid cells the block covers. */
  function CellCount(s: Shape): nat {
    CellsBefore(s, |s|)
  }

  /** The first `c` entries of a row are all 0 or 1. */
  predicate BinaryBefore(row: seq<int>, c: nat)
    requires c <= |row|
  {
    c == 0 || (BinaryBefore(row, c - 1) && (row[c - 1] == 0 || row[c - 1] == 1))
  }

  /** The first `r` rows all have `width` entries, each 0 or 1. */
  predicate RowsBefore(s: Shape, r: nat, width: nat)
    requires r <= |s|
  {
    r == 0 || (RowsBefore(s, r - 1, width) && |s[r - 1]| == width && BinaryBefore(s[r - 1], width))
  }

  /** A catalog shape: a non-empty rectangle of at most 4x4 0/1 entries
      holding one to four 1s. */
  predicate WellShaped(s: Shape) {
    && 0 < |s| <= 4
    && 0 < |s[0]| <= 4
    && RowsBefore(s, |s|, |s[0]|)
    && 1 <= CellCount(s) <= 4
  }

  const Single: Shape := [[1]]
  const H2: Shape := [[1, 1]]
  const V2: Shape := [[1], [1]]
  const H3: Shape := [[1, 1, 1]]
  const V3: Shape := [[1], [1], [1]]
  const H4: Shape := [[1, 1, 1, 1]]
  const V4: Shape := [[1], [1], [1], [1]]
  const Square: Shape := [[1, 1], [1, 1]]
  const LBr: Shape := [[1, 0], [1, 1]]
  const LBl: Shape := [[0, 1], [1, 1]]
  const LTr: Shape := [[1, 1], [1, 0]]
  const LTl: Shape := [[1, 1], [0, 1]]
  const TUp: Shape := [[0, 1, 0], [1, 1, 1]]
  const TDown: Shape := [[1, 1, 1], [0, 1, 0]]
  const TLeft: Shape := [[0, 1], [1, 1], [0, 1]]
  const TRight: Shape := [[1, 0], [1, 1], [1, 0]]

  /** The catalog as (key, matrix) pairs in declaration order. */
  function Catalog(): (cat: seq<(string, Shape)>)
    ensures |cat| == 16
    ensures forall i, j :: 0 <= i < j < |cat| ==> cat[i].0 != cat[j].0
  {
    [ ("single", Single), ("h2", H2), ("v2", V2), ("h3", H3), ("v3", V3),
      ("h4", H4), ("v4", V4), ("square", Square),
      ("l_br", LBr), ("l_bl", LBl), ("l_tr", LTr), ("l_tl", LTl),
      ("t_up", TUp), ("t_down", TDown), ("t_left", TLeft), ("t_right", TRight) ]
  }
  /** `name` is a key of the catalog. */
  predicate IsShapeName(name: string) {
    exists i :: 0 <= i < |Catalog()| && Catalog()[i].0 == name
  }

  /** `s` is the matrix of some catalog entry. */
  predicate InCatalog(s: Shape) {
    exists i :: 0 <= i < |Catalog()| && Catalog()[i].1 == s
  }

  /** `this.shapes[name]`: the matrix stored under a key, or nothing for an unknown key. */
  function Lookup(name: string): (r: Option<Shape>)
    ensures r.Some? <==> IsShapeName(name)
    ensures r.Some? ==> exists i :: 0 <= i < |Catalog()| && Catalog()[i] == (name, r.value)
  {
    LookupFrom(name, 0)
  }

  function LookupFrom(name: string, k: nat): (r: Option<Shape>)
    requires k <= |Catalog()|
    ensures r.Some? <==> exists i :: k <= i < |Catalog()| && Catalog()[i].0 == name
    ensures r.Some? ==> exists i :: k <= i < |Catalog()| && Catalog()[i] == (name, r.value)
    decreases |Catalog()| - k
  {
    if k == |Catalog()| then None
    else if Catalog()[k].0 == name then Some(Catalog()[k].1)
    else LookupFrom(name, k + 1)
  }

  /** The rows counted by `RowsBefore` all have the given width. */
  lemma {:induction false} RowsBeforeWidth(s: Shape, n: nat, width: nat)
    requires n <= |s| && RowsBefore(s, n, width)
    ensures forall r :: 0 <= r < n ==> |s[r]| == width
  {
    if n > 0 {
      RowsBeforeWidth(s, n - 1, width);
    }
  }

  /** Every entry of a catalog shape lies in its top-left 4x4 corner. */
  lemma CatalogShapeSmall(s: Shape)
    requires InCatalog(s)
    ensures 0 < |s| <= 4 && forall r :: 0 <= r < |s| ==> 0 < |s[r]| <= 4
    ensures 1 <= CellCount(s) <= 4
  {
    var k :| 0 <= k < |Catalog()| && Catalog()[k].1 == s;
    EntryWellShaped(k);
    RowsBeforeWidth(s, |s|, |s[0]|);
  }

  /** Every catalog entry is a well-formed block of one to four cells. */
  lemma CatalogWellShaped()
    ensures forall i :: 0 <= i < |Catalog()| ==> WellShaped(Catalog()[i].1)
  {
    forall i | 0 <= i < |Catalog()| ensures WellShaped(Catalog()[i].1) {
      EntryWellShaped(i);
    }
  }

  lemma EntryWellShaped(i: nat)
    requires i < |Catalog()|
    ensures WellShaped(Catalog()[i].1)
  {
    if i < 8 { LineEntriesWellShaped(i); } else { BentEntriesWellShaped(i); }
  }

  /** The single, the straight pieces and the square. */
  lemma LineEntriesWellShaped(i: nat)
    requires i < 8
    ensures WellShaped(Catalog()[i].1)
  {
    match i
    case 0 => assert CellCount(Single) == 1;
    case 1 => assert CellCount(H2) == 2;
    case 2 => assert CellCount(V2) == 2;
    case 3 => assert CellCount(H3) == 3;
    case 4 => assert CellCount(V3) == 3;
    case 5 => assert CellCount(H4) == 4;
    case 6 => assert CellCount(V4) == 4;
    case _ => assert CellCount(Square) == 4;
  }

  /** The L and T pieces. */
  lemma BentEntriesWellShaped(i: nat)
    requires 8 <= i < |Catalog()|
    ensures WellShaped(Catalog()[i].1)
  {
    match i
    case 8 => { assert OnesBefore(LBr[0], 1) == 1; assert CellsBefore(LBr, 1) == 1; assert CellsBefore(LBr, 2) == 3; }
    case 9 => { assert OnesBefore(LBl[0], 1) == 0; assert CellsBefore(LBl, 1) == 1; assert CellsBefore(LBl, 2) == 3; }
    case 10 => { assert CellsBefore(LTr, 1) == 2; assert CellsBefore(LTr, 2) == 3; }
    case 11 => { assert CellsBefore(LTl, 1) == 2; assert CellsBefore(LTl, 2) == 3; }
    case 12 => { assert CellsBefore(TUp, 1) == 1; assert CellsBefore(TUp, 2) == 4; }
    case 13 => { assert CellsBefore(TDown, 1) == 3; assert CellsBefore(TDown, 2) == 4; }
    case 14 => { assert CellsBefore(TLeft, 1) == 1; assert CellsBefore(TLeft, 2) == 3; assert CellsBefore(TLeft, 3) == 4; }
    case _ => { assert CellsBefore(TRight, 1) == 1; assert CellsBefore(TRight, 2) == 3; assert CellsBefore(TRight, 3) == 4; }
  }
}
