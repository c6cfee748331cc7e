/** The save payload {size, step, active_cells} and the load that rebuilds a
    board from it, as written and with the axes in the intended order. */
module Snapshots {
  import opened Positions
  import opened Grids

  /** A saved game: size is the matrix shape (num_cols, num_rows), step the
      generation counter, activeCells the active positions as [i, j] pairs. */
  datatype Record = Record(size: (nat, nat), step: int, activeCells: seq<seq<int>>)

  /** Positions written as two-element lists, as they appear in the payload. */
  function Entries(ps: seq<Pos>): (e: seq<seq<int>>)
    ensures |e| == |ps|
  {
    seq(|ps|, k requires 0 <= k < |ps| => [ps[k].0, ps[k].1])
  }

  /** The payload of a save: the shape, the counter and the active cells in scan order. */
  function Save(g: Grid, steps: int): (r: Record)
    requires g.Valid()
    ensures r.size == (g.cols, g.rows) && r.step == steps
    ensures forall k :: 0 <= k < |r.activeCells| ==> |r.activeCells[k]| == 2
    ensures forall p :: Lists(r.activeCells, p) <==> g.InBounds(p) && g.At(p) == 1
  {
    SavedEntries(g);
    Record((g.cols, g.rows), steps, Entries(ActiveCells(g)))
  }

  /** Load as written: size[0] is passed as num_rows and size[1] as num_cols,
      so the rebuilt matrix has shape (size[1], size[0]). */
  function Restore(rec: Record): (r: Result<Grid>)
    requires Indexable(rec.activeCells, rec.size.1, rec.size.0)
    ensures r.Err? <==> exists k :: 0 <= k < |rec.activeCells| && |rec.activeCells[k]| != 2
    ensures r.Ok? ==> r.value.Valid() && r.value.cols == rec.size.1 && r.value.rows == rec.size.0
    ensures r.Ok? ==> forall p :: r.value.At(p) == 1 <==> r.value.InBounds(p) && Lists(rec.activeCells, p)
  {
    Build(rec.size.0, rec.size.1, rec.activeCells)
  }

  /** Load with size[0] passed as num_cols and size[1] as num_rows, so the
      rebuilt matrix has the saved shape. */
  function RestoreFixed(rec: Record): (r: Result<Grid>)
    requires Indexable(rec.activeCells, rec.size.0, rec.size.1)
    ensures r.Err? <==> exists k :: 0 <= k < |rec.activeCells| && |rec.activeCells[k]| != 2
    ensures r.Ok? ==> r.value.Valid() && r.value.cols == rec.size.0 && r.value.rows == rec.size.1
    ensures r.Ok? ==> forall p :: r.value.At(p) == 1 <==> r.value.InBounds(p) && Lists(rec.activeCells, p)
  {
    Build(rec.size.1, rec.size.0, rec.activeCells)
  }

  /** The saved entries are all pairs, name exactly the active cells, and are
      indexable on a board of the saved shape. */
  lemma SavedEntries(g: Grid)
    requires g.Valid()
    ensures FirstMalformed(Entries(ActiveCells(g))) == |ActiveCells(g)|
    ensures Indexable(Entries(ActiveCells(g)), g.cols, g.rows)
    ensures forall p :: Lists(Entries(ActiveCells(g)), p) <==> g.InBounds(p) && g.At(p) == 1
  {
    var ac := ActiveCells(g);
    var e := Entries(ac);
    forall k | 0 <= k < |e|
      ensures e[k] == [ac[k].0, ac[k].1] && g.InBounds(ac[k])
    {
      ActiveCellsMembers(g, ac[k]);
    }
    forall p
      ensures Lists(e, p) <==> g.InBounds(p) && g.At(p) == 1
    {
      ActiveCellsMembers(g, p);
      if Lists(e, p) {
        var k :| 0 <= k < |e| && e[k] == [p.0, p.1];
        assert ac[k] == p;
      }
      if g.InBounds(p) && g.At(p) == 1 {
        var k :| 0 <= k < |ac| && ac[k] == p;
        assert e[k] == [p.0, p.1];
      }
    }
  }

  /** Saving and then loading with the axes in order gives back the board
      and the counter. */
  lemma SaveRestoreFixed(g: Grid, steps: int)
    requires g.Valid()
    ensures Indexable(Save(g, steps).activeCells, g.cols, g.rows)
    ensures RestoreFixed(Save(g, steps)) == Ok(g) && Save(g, steps).step == steps
  {
    SavedEntries(g);
    var r := RestoreFixed(Save(g, steps));
    assert r.Ok?;
    SameGrid(r.value, g);
  }

  /** Saving and then loading as written gives back the board exactly when the
      board is square: otherwise some saved cell is off the swapped board
      (the load fails on it) or the rebuilt board has the wrong shape. */
  lemma SaveRestoreAsWritten(g: Grid, steps: int)
    requires g.Valid()
    ensures (Indexable(Save(g, steps).activeCells, g.rows, g.cols) && Restore(Save(g, steps)) == Ok(g))
            <==> g.cols == g.rows
  {
    SaveRestoreFixed(g, steps);
  }

  /** An empty board saves no cells. */
  lemma ZeroSavesNoCells(cols: nat, rows: nat, steps: int)
    ensures Save(Zero(cols, rows), steps) == Record((cols, rows), steps, [])
  {
    ZeroHasNoActiveCells(cols, rows);
  }

  /** A concrete board that does not survive the round trip as written: one
      column of two rows, with no active cell, loads as two columns of one row. */
  lemma NonSquareCounterexample()
    ensures Indexable(Save(Zero(1, 2), 0).activeCells, 2, 1)
    ensures Restore(Save(Zero(1, 2), 0)) == Ok(Zero(2, 1)) && Zero(2, 1) != Zero(1, 2)
  {
    ZeroSavesNoCells(1, 2, 0);
    var r := Restore(Save(Zero(1, 2), 0));
    SameGrid(r.value, Zero(2, 1));
  }
}
