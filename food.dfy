/**
 The food of the_snake.py: `Apple.randomize_position` and the two list
 comprehensions it builds. The random cell is an input (`choice`), the
 pair of values the two `random.randint` calls would return.
 */
module Food {
  import opened Wrappers
  import opened Grid

  /** The `ValueError` raised when no grid cell is free. */
  datatype PlacementError = NoFreePositions

  /** Number of cells of the grid. */
  const CellCount: int := GridWidth * GridHeight

  /** The comprehension `all_positions`: every cell corner, grid_x outer, grid_y inner. */
  function AllPositions(): (r: seq<Pos>)
    ensures |r| == CellCount
    ensures AllOnGrid(r)
  {
    var r := seq(CellCount, i requires 0 <= i < CellCount => CellAt(IndexCell(i)));
    assert forall i :: 0 <= i < |r| ==> r[i] == CellAt(IndexCell(i));
    r
  }

  /** The cell `(i // GRID_HEIGHT, i % GRID_HEIGHT)` enumerated at index `i` of `all_positions`. */
  function IndexCell(i: int): (c: Cell)
    requires 0 <= i < CellCount
    ensures c.InGrid()
  {
    assert GridHeight == 24 && CellCount == 768;
    Cell(i / 24, i % 24)
  }

  /** The cell `(gx, gy)` sits at index `gx * GRID_HEIGHT + gy` of `all_positions`. */
  lemma {:induction false} AllPositionsAt(c: Cell)
    requires c.InGrid()
    ensures 0 <= c.gx * GridHeight + c.gy < CellCount
    ensures AllPositions()[c.gx * GridHeight + c.gy] == CellAt(c)
  {
    assert GridHeight == 24 && CellCount == 768;
    var i := c.gx * 24 + c.gy;
    IndexSplit(i, c.gx, c.gy);
    assert 0 <= i < 768;
    assert AllPositions()[i] == CellAt(IndexCell(i));
  }

  /** Division by the column height recovers the column and row of an index. */
  lemma IndexSplit(i: int, q: int, r: int)
    requires 0 <= r < GridHeight && i == q * GridHeight + r
    ensures i / GridHeight == q && i % GridHeight == r
  {
    assert GridHeight == 24;
    var q', r' := i / 24, i % 24;
    assert i == q' * 24 + r';
    assert (q - q') * 24 == r' - r;
  }

  /** `all_positions` lists exactly the cell corners inside the screen. */
  lemma {:induction false} AllPositionsExactly()
    ensures forall p :: p in AllPositions() <==> OnGrid(p)
  {
    forall p | OnGrid(p)
      ensures p in AllPositions()
    {
      AllPositionsAt(CellOf(p));
    }
  }

  /** No cell appears twice in `all_positions`. */
  lemma AllPositionsDistinct()
    ensures Distinct(AllPositions())
  {
    var all := AllPositions();
    forall i, j | 0 <= i < j < |all|
      ensures all[i] != all[j]
    {
      assert i == (i / GridHeight) * GridHeight + i % GridHeight;
      assert j == (j / GridHeight) * GridHeight + j % GridHeight;
    }
  }

  predicate Distinct(s: seq<Pos>) {
    forall i, j :: 0 <= i < j < |s| ==> s[i] != s[j]
  }

  /** The filter of the comprehension `free_positions`, order kept. */
  function FreeOf(cells: seq<Pos>, occupied: seq<Pos>): (r: seq<Pos>)
    ensures forall p :: p in r <==> p in cells && p !in occupied
    ensures |r| <= |cells|
  {
    if cells == [] then []
    else (if cells[0] in occupied then [] else [cells[0]]) + FreeOf(cells[1..], occupied)
  }

  /** The comprehension `free_positions`: the grid cells not in `occupied_position`. */
  function FreePositions(occupied: seq<Pos>): (r: seq<Pos>)
    ensures forall p :: p in r <==> OnGrid(p) && p !in occupied
  {
    AllPositionsExactly();
    FreeOf(AllPositions(), occupied)
  }

  /**
   The outcome of `randomize_position(occupied)` with `choice` as the two
   random indices: the error exactly when every cell is occupied, and
   otherwise the chosen cell, which is NOT checked against `occupied`.
   */
  function Placement(occupied: seq<Pos>, choice: Cell): (r: Result<Pos, PlacementError>)
    requires choice.InGrid()
    ensures r.Err? <==> forall p :: OnGrid(p) ==> p in occupied
    ensures r.Ok? ==> r.value == CellAt(choice) && OnGrid(r.value)
  {
    var free := FreePositions(occupied);
    if free == [] then Err(NoFreePositions)
    else
      assert OnGrid(free[0]) && free[0] !in occupied;
      Ok(CellAt(choice))
  }

  /** The placed food may lie on an occupied cell: the comprehension `free_positions` is not used for the choice. */
  lemma PlacementMayBeOccupied()
    ensures Placement([Pos(0, 0)], Cell(0, 0)) == Ok(Pos(0, 0))
  {
    assert OnGrid(Pos(GridSize, 0)) && Pos(GridSize, 0) !in [Pos(0, 0)];
  }

  lemma {:induction false} SetOfSeqBound(s: seq<Pos>)
    ensures |set p | p in s| <= |s|
  {
    if s != [] {
      SetOfSeqBound(s[1..]);
      assert (set p | p in s) == {s[0]} + (set p | p in s[1..]);
    }
  }

  lemma {:induction false} SetOfDistinctSeq(s: seq<Pos>)
    requires Distinct(s)
    ensures |set p | p in s| == |s|
  {
    if s != [] {
      SetOfDistinctSeq(s[1..]);
      assert (set p | p in s) == {s[0]} + (set p | p in s[1..]);
      assert s[0] !in s[1..];
    }
  }

  /** Placement can only fail once `occupied` lists at least as many entries as the grid has cells. */
  lemma {:induction false} PlacementSucceedsWhenShort(occupied: seq<Pos>, choice: Cell)
    requires choice.InGrid()
    requires |occupied| < CellCount
    ensures Placement(occupied, choice) == Ok(CellAt(choice))
  {
    AllPositionsExactly();
    AllPositionsDistinct();
    var all := set p | p in AllPositions();
    var occ := set p | p in occupied;
    SetOfDistinctSeq(AllPositions());
    SetOfSeqBound(occupied);
    if all <= occ {
      SubsetCard(all, occ);
      assert false;
    }
    var p :| p in all && p !in occ;
    assert OnGrid(p) && p !in occupied;
  }

  lemma SubsetCard(a: set<Pos>, b: set<Pos>)
    requires a <= b
    ensures |a| <= |b|
  {
    assert b == a + (b - a);
  }

  /** The apple; `position` is the field `randomize_position` overwrites. */
  class Apple {
    var position: Pos

    /** `Apple()`: the constructor places the apple with no occupied cells. */
    constructor (choice: Cell)
      requires choice.InGrid()
      ensures position == CellAt(choice)
    {
      PlacementSucceedsWhenShort([], choice);
      position := Placement([], choice).value;
    }

    /** `randomize_position(occupied)`; an `Err` result is the raised `ValueError`, which leaves the apple where it was. */
    method RandomizePosition(occupied: seq<Pos>, choice: Cell) returns (result: Result<Pos, PlacementError>)
      requires choice.InGrid()
      modifies this
      ensures result == Placement(occupied, choice)
      ensures position == if result.Ok? then result.value else old(position)
    {
      var free := FreePositions(occupied);
      if free == [] {
        result := Err(NoFreePositions);
        return;
      }
      position := CellAt(choice);
      result := Ok(position);
    }
  }
}
