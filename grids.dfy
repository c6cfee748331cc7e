/** The board as a value: its cells, the neighbourhood of a cell, the two
    rule variants, the next generation, the list of changed cells, the score,
    single-cell updates and the board built from a list of initial positions. */
module Grids {
  import opened Positions

  /** A cell value: 1 is active, 0 inactive (the engine stores unsigned bytes
      and never writes anything but 0 or 1). */
  type Bit = b: int | 0 <= b <= 1

  /** A board of shape (cols, rows): cells[i][j] for 0 <= i < cols, 0 <= j < rows. */
  datatype Grid = Grid(cols: nat, rows: nat, cells: seq<seq<Bit>>)
  {
    predicate Valid() {
      |cells| == cols && forall i :: 0 <= i < cols ==> |cells[i]| == rows
    }

    predicate InBounds(p: Pos) {
      0 <= p.0 < cols && 0 <= p.1 < rows
    }

    /** The value at p, read as 0 where no cell is stored. */
    function At(p: Pos): Bit {
      if 0 <= p.0 < |cells| && 0 <= p.1 < |cells[p.0]| then cells[p.0][p.1] else 0
    }
  }

  /** Two well-shaped boards of one shape that agree on every cell are equal. */
  lemma SameGrid(a: Grid, b: Grid)
    requires a.Valid() && b.Valid() && a.cols == b.cols && a.rows == b.rows
    requires forall i, j {:trigger a.At((i, j))} :: 0 <= i < a.cols && 0 <= j < a.rows ==> a.At((i, j)) == b.At((i, j))
    ensures a == b
  {
    forall i | 0 <= i < a.cols
      ensures a.cells[i] == b.cells[i]
    {
      forall j | 0 <= j < a.rows
        ensures a.cells[i][j] == b.cells[i][j]
      {
        assert a.At((i, j)) == b.At((i, j));
      }
    }
  }

  /** The board of the given shape with every cell inactive. */
  function Zero(cols: nat, rows: nat): (g: Grid)
    ensures g.Valid() && g.cols == cols && g.rows == rows
    ensures forall p :: g.At(p) == 0
  {
    Grid(cols, rows, seq(cols, i => seq(rows, j => 0)))
  }

  /** Offsets from a cell to its eight neighbours, in the order the engine tries them. */
  const Moves: seq<Pos> := [(0, 1), (0, -1), (1, 0), (1, 1), (1, -1), (-1, 0), (-1, 1), (-1, -1)]

  /** Moves lists each of the eight non-zero offsets of at most one step in
      either direction, once. */
  lemma MovesOffsets(d: Pos)
    ensures d in Moves <==> d != (0, 0) && -1 <= d.0 <= 1 && -1 <= d.1 <= 1
    ensures |Moves| == 8 && Distinct(Moves)
  {
  }

  function Shift(p: Pos, d: Pos): Pos {
    (p.0 + d.0, p.1 + d.1)
  }

  /** The eight positions around p, in the order of Moves (some may be off the board). */
  function Around(p: Pos): seq<Pos> {
    seq(|Moves|, k requires 0 <= k < |Moves| => Shift(p, Moves[k]))
  }

  /** q is on the board and its cell is active. */
  predicate ActiveAt(g: Grid, q: Pos) {
    g.InBounds(q) && g.At(q) == 1
  }

  /** The active positions among ps, in the order of ps. */
  function ActiveAmong(g: Grid, ps: seq<Pos>): seq<Pos> {
    Where(ps, q => ActiveAt(g, q))
  }

  /** The active neighbours of p: the positions p + d for d in Moves, in that
      order, that lie on the board (there is no wrap-around) and are active. */
  function Neighbors(g: Grid, p: Pos): (r: seq<Pos>)
    ensures forall q :: q in r ==> q in Around(p) && g.InBounds(q) && g.At(q) == 1
  {
    WhereKept(Around(p), q => ActiveAt(g, q));
    ActiveAmong(g, Around(p))
  }

  lemma AroundIs(p: Pos)
    ensures Around(p) == [(p.0, p.1 + 1), (p.0, p.1 - 1), (p.0 + 1, p.1), (p.0 + 1, p.1 + 1),
                          (p.0 + 1, p.1 - 1), (p.0 - 1, p.1), (p.0 - 1, p.1 + 1), (p.0 - 1, p.1 - 1)]
  {
  }

  /** q is an active neighbour of p exactly when it is one of the eight
      positions around p, is on the board and holds 1; none is listed twice. */
  lemma NeighborsMembers(g: Grid, p: Pos, q: Pos)
    ensures q in Neighbors(g, p) <==>
            (exists k :: 0 <= k < |Moves| && q == Shift(p, Moves[k])) && g.InBounds(q) && g.At(q) == 1
    ensures Distinct(Neighbors(g, p))
  {
    WhereMembers(Around(p), q => ActiveAt(g, q), q);
    if q in Around(p) {
      var k :| 0 <= k < |Around(p)| && Around(p)[k] == q;
      assert q == Shift(p, Moves[k]);
    }
    AroundIs(p);
    WhereDistinct(Around(p), q => ActiveAt(g, q));
  }

  lemma ActiveAmongSnoc(g: Grid, ps: seq<Pos>, p: Pos)
    ensures ActiveAmong(g, ps + [p]) == ActiveAmong(g, ps) + (if ActiveAt(g, p) then [p] else [])
  {
    assert (ps + [p])[..|ps|] == ps;
  }

  /** The active neighbours of p all lie in any set that holds every
      position around p that is on the board. */
  lemma NeighborsWithin(g: Grid, p: Pos, bound: set<Pos>)
    requires forall q :: q in Around(p) && g.InBounds(q) ==> q in bound
    ensures |Neighbors(g, p)| <= |bound|
  {
    var nb := Neighbors(g, p);
    NeighborsMembers(g, p, p);
    forall q | q in nb
      ensures q in bound
    {
      WhereMembers(Around(p), q => ActiveAt(g, q), q);
    }
    DistinctBound(nb, bound);
  }

  /** A cell has at most eight active neighbours. */
  lemma NeighborsBound(g: Grid, p: Pos)
    ensures |Neighbors(g, p)| <= 8
  {
    WhereLength(Around(p), q => ActiveAt(g, q));
  }

  /** A cell on an edge of the board has at most five active neighbours. */
  lemma NeighborsOnEdge(g: Grid, p: Pos)
    requires g.InBounds(p) && (p.0 == 0 || p.0 == g.cols - 1 || p.1 == 0 || p.1 == g.rows - 1)
    ensures |Neighbors(g, p)| <= 5
  {
    if p.0 == 0 || p.0 == g.cols - 1 {
      NeighborsOnSide(g, p);
    } else {
      NeighborsOnTopOrBottom(g, p);
    }
  }

  /** The bound for a cell in the first or last column. */
  lemma NeighborsOnSide(g: Grid, p: Pos)
    requires g.InBounds(p) && (p.0 == 0 || p.0 == g.cols - 1)
    ensures |Neighbors(g, p)| <= 5
  {
    AroundIs(p);
    // s points from the edge column into the board
    var s := if p.0 == 0 then 1 else -1;
    NeighborsWithin(g, p, {(p.0, p.1 - 1), (p.0, p.1 + 1), (p.0 + s, p.1 - 1), (p.0 + s, p.1), (p.0 + s, p.1 + 1)});
  }

  /** The bound for a cell in the first or last row. */
  lemma NeighborsOnTopOrBottom(g: Grid, p: Pos)
    requires g.InBounds(p) && (p.1 == 0 || p.1 == g.rows - 1)
    ensures |Neighbors(g, p)| <= 5
  {
    AroundIs(p);
    // t points from the edge row into the board
    var t := if p.1 == 0 then 1 else -1;
    NeighborsWithin(g, p, {(p.0 - 1, p.1), (p.0 + 1, p.1), (p.0 - 1, p.1 + t), (p.0, p.1 + t), (p.0 + 1, p.1 + t)});
  }

  /** A cell in a corner of the board has at most three active neighbours. */
  lemma NeighborsInCorner(g: Grid, p: Pos)
    requires g.InBounds(p) && (p.0 == 0 || p.0 == g.cols - 1) && (p.1 == 0 || p.1 == g.rows - 1)
    ensures |Neighbors(g, p)| <= 3
  {
    AroundIs(p);
    var s := if p.0 == 0 then 1 else -1;
    var t := if p.1 == 0 then 1 else -1;
    NeighborsWithin(g, p, {(p.0, p.1 + t), (p.0 + s, p.1), (p.0 + s, p.1 + t)});
  }

  /** The rule variants: Conway's B3/S23 and HighLife's B36/S23. */
  datatype Rule = Conway | HighLife

  /** An active cell stays active with two or three active neighbours (both variants). */
  predicate Survives(n: nat) {
    n == 2 || n == 3
  }

  /** An inactive cell becomes active with three active neighbours, or with six under HighLife. */
  predicate Born(rule: Rule, n: nat) {
    n == 3 || (rule == HighLife && n == 6)
  }

  /** The next value of a cell holding v with n active neighbours. */
  function NextCell(rule: Rule, v: Bit, n: nat): (r: Bit)
    ensures r == 1 <==> (v == 1 && (n == 2 || n == 3)) || (v == 0 && (n == 3 || (rule == HighLife && n == 6)))
  {
    if v == 1 then (if Survives(n) then 1 else 0)
    else (if Born(rule, n) then 1 else 0)
  }

  /** The next generation: every cell's next value is decided from the
      neighbour count on the current board, never on a partly updated one. */
  function NextGrid(rule: Rule, g: Grid): (r: Grid)
    requires g.Valid()
    ensures r.Valid() && r.cols == g.cols && r.rows == g.rows
  {
    Grid(g.cols, g.rows, seq(g.cols, i => seq(g.rows, j => NextAt(rule, g, (i, j)))))
  }

  /** The next value of the cell at p, from the current board. */
  function NextAt(rule: Rule, g: Grid, p: Pos): Bit {
    NextCell(rule, g.At(p), |ActiveAmong(g, Around(p))|)
  }

  /** A cell of the next generation, read from the current board. */
  lemma NextGridCell(rule: Rule, g: Grid, p: Pos)
    requires g.Valid() && g.InBounds(p)
    ensures NextGrid(rule, g).At(p) == NextCell(rule, g.At(p), |Neighbors(g, p)|)
  {
  }

  /** The rules in terms of the board: a cell on the board is active in the
      next generation exactly when it is active now with two or three active
      neighbours, or inactive now and born; off the board nothing is active. */
  lemma NextGridAt(rule: Rule, g: Grid, p: Pos)
    requires g.Valid()
    ensures NextGrid(rule, g).At(p) == 1 <==>
            g.InBounds(p) &&
            ((g.At(p) == 1 && |Neighbors(g, p)| in {2, 3}) ||
             (g.At(p) == 0 && (|Neighbors(g, p)| == 3 || (rule == HighLife && |Neighbors(g, p)| == 6))))
  {
  }

  /** HighLife differs from Conway's rules only at inactive cells with
      exactly six active neighbours, which it makes active. */
  lemma HighLifeDiffers(g: Grid, p: Pos)
    requires g.Valid()
    ensures NextGrid(HighLife, g).At(p) != NextGrid(Conway, g).At(p) <==>
            g.InBounds(p) && g.At(p) == 0 && |Neighbors(g, p)| == 6
    ensures NextGrid(HighLife, g).At(p) != NextGrid(Conway, g).At(p) ==> NextGrid(HighLife, g).At(p) == 1
  {
  }

  /** The positions among ps whose value differs between a and b, in the order of ps. */
  function ChangedAmong(a: Grid, b: Grid, ps: seq<Pos>): seq<Pos> {
    Where(ps, p => a.At(p) != b.At(p))
  }

  lemma ChangedAmongSnoc(a: Grid, b: Grid, ps: seq<Pos>, p: Pos)
    ensures ChangedAmong(a, b, ps + [p]) == ChangedAmong(a, b, ps) + (if a.At(p) != b.At(p) then [p] else [])
  {
    assert (ps + [p])[..|ps|] == ps;
  }

  /** The positions among ps whose value the next generation changes, in the order of ps. */
  function Flips(rule: Rule, g: Grid, ps: seq<Pos>): seq<Pos> {
    Where(ps, p => NextAt(rule, g, p) != g.At(p))
  }

  lemma FlipsSnoc(rule: Rule, g: Grid, ps: seq<Pos>, p: Pos)
    ensures Flips(rule, g, ps + [p]) == Flips(rule, g, ps) + (if NextAt(rule, g, p) != g.At(p) then [p] else [])
  {
    assert (ps + [p])[..|ps|] == ps;
  }

  /** Extending the scan by the next cell (i, j) of column i appends that
      cell exactly when the rule flips it. */
  lemma FlipsColumnSnoc(rule: Rule, g: Grid, i: nat, j: nat, rows: nat)
    ensures Flips(rule, g, Scan(i, rows) + Column(i, j + 1)) ==
            Flips(rule, g, Scan(i, rows) + Column(i, j)) + (if NextAt(rule, g, (i, j)) != g.At((i, j)) then [(i, j)] else [])
  {
    ScanColumnSnoc(i, j, rows);
    FlipsSnoc(rule, g, Scan(i, rows) + Column(i, j), (i, j));
  }

  /** On the board, the cells the next generation changes are the cells
      where the board and the next generation differ. */
  lemma {:induction false} FlipsChanged(rule: Rule, g: Grid, ps: seq<Pos>)
    requires g.Valid()
    requires forall p :: p in ps ==> g.InBounds(p)
    ensures Flips(rule, g, ps) == ChangedAmong(g, NextGrid(rule, g), ps)
  {
    if ps != [] {
      var init, last := ps[..|ps| - 1], ps[|ps| - 1];
      assert ps == init + [last];
      FlipsChanged(rule, g, init);
      FlipsSnoc(rule, g, init, last);
      ChangedAmongSnoc(g, NextGrid(rule, g), init, last);
      NextGridCell(rule, g, last);
    }
  }

  /** Over the whole scan, the cells the next generation changes are its change list. */
  lemma ScanFlips(rule: Rule, g: Grid)
    requires g.Valid()
    ensures Flips(rule, g, Scan(g.cols, g.rows)) == Changed(g, NextGrid(rule, g))
  {
    forall p | p in Scan(g.cols, g.rows)
      ensures g.InBounds(p)
    {
      ScanMembers(g.cols, g.rows, p);
    }
    FlipsChanged(rule, g, Scan(g.cols, g.rows));
  }

  /** The positions whose value differs between a and b, in scan order. */
  function Changed(a: Grid, b: Grid): seq<Pos> {
    ChangedAmong(a, b, Scan(a.cols, a.rows))
  }

  /** The change list of two boards of one shape holds exactly the cells
      that differ, each once, in row-major order. */
  lemma ChangedMembers(a: Grid, b: Grid, p: Pos)
    requires a.Valid() && b.Valid() && a.cols == b.cols && a.rows == b.rows
    ensures p in Changed(a, b) <==> a.InBounds(p) && a.At(p) != b.At(p)
    ensures Ascending(Changed(a, b)) && Distinct(Changed(a, b))
  {
    ScanMembers(a.cols, a.rows, p);
    WhereMembers(Scan(a.cols, a.rows), p => a.At(p) != b.At(p), p);
    ScanAscending(a.cols, a.rows);
    WhereAscending(Scan(a.cols, a.rows), p => a.At(p) != b.At(p));
  }

  /** The cells that one generation changes: active cells without two or
      three active neighbours, and inactive cells that are born. */
  lemma StepChanges(rule: Rule, g: Grid, p: Pos)
    requires g.Valid()
    ensures p in Changed(g, NextGrid(rule, g)) <==>
            g.InBounds(p) &&
            ((g.At(p) == 1 && !Survives(|Neighbors(g, p)|)) || (g.At(p) == 0 && Born(rule, |Neighbors(g, p)|)))
  {
    ChangedMembers(g, NextGrid(rule, g), p);
  }

  /** The sum of the cell values at ps. */
  function Sum(g: Grid, ps: seq<Pos>): nat {
    if ps == [] then 0 else Sum(g, ps[..|ps| - 1]) + g.At(ps[|ps| - 1])
  }

  /** The sum of all cell values of the board. */
  function Score(g: Grid): nat {
    Sum(g, Scan(g.cols, g.rows))
  }

  /** The active cells in scan order. */
  function ActiveCells(g: Grid): seq<Pos> {
    ActiveAmong(g, Scan(g.cols, g.rows))
  }

  /** The set of positions holding 1. */
  function ActiveSet(g: Grid): set<Pos> {
    set i, j | 0 <= i < g.cols && 0 <= j < g.rows && g.At((i, j)) == 1 :: (i, j)
  }

  lemma {:induction false} SumCountsActive(g: Grid, ps: seq<Pos>)
    requires g.Valid()
    ensures Sum(g, ps) == |ActiveAmong(g, ps)|
  {
    if ps != [] {
      SumCountsActive(g, ps[..|ps| - 1]);
    }
  }

  /** The active cells are listed once each, in row-major order, and are
      exactly the positions of the board that hold 1. */
  lemma ActiveCellsMembers(g: Grid, p: Pos)
    ensures p in ActiveCells(g) <==> g.InBounds(p) && g.At(p) == 1
    ensures Ascending(ActiveCells(g)) && Distinct(ActiveCells(g))
  {
    ScanMembers(g.cols, g.rows, p);
    WhereMembers(Scan(g.cols, g.rows), q => ActiveAt(g, q), p);
    ScanAscending(g.cols, g.rows);
    WhereAscending(Scan(g.cols, g.rows), q => ActiveAt(g, q));
  }

  /** The score is the number of cells holding 1, and the length of the active-cell list. */
  lemma ScoreCountsActive(g: Grid)
    requires g.Valid()
    ensures Score(g) == |ActiveCells(g)| == |ActiveSet(g)|
  {
    SumCountsActive(g, Scan(g.cols, g.rows));
    var ac := ActiveCells(g);
    forall p
      ensures p in ac <==> p in ActiveSet(g)
    {
      ActiveCellsMembers(g, p);
    }
    assert (set x | x in ac) == ActiveSet(g);
    ActiveCellsMembers(g, (0, 0));
    DistinctCard(ac);
  }

  /** The board with the cell at p set to v. */
  function Set(g: Grid, p: Pos, v: Bit): (r: Grid)
    requires g.Valid() && g.InBounds(p)
    ensures r.Valid() && r.cols == g.cols && r.rows == g.rows
    ensures forall q :: r.At(q) == if q == p then v else g.At(q)
  {
    var row: seq<Bit> := g.cells[p.0][p.1 := v];
    g.(cells := g.cells[p.0 := row])
  }

  /** The board with the cell at p flipped. */
  function Flip(g: Grid, p: Pos): Grid
    requires g.Valid() && g.InBounds(p)
  {
    Set(g, p, 1 - g.At(p))
  }

  /** The empty board has no active cell. */
  lemma ZeroHasNoActiveCells(cols: nat, rows: nat)
    ensures ActiveCells(Zero(cols, rows)) == []
  {
    var ac := ActiveCells(Zero(cols, rows));
    forall p
      ensures p !in ac
    {
      ActiveCellsMembers(Zero(cols, rows), p);
    }
    ActiveCellsMembers(Zero(cols, rows), (0, 0));
    DistinctBound(ac, {});
  }

  /** Setting a cell changes at most that cell: the change list is [p] when
      its value differs from v and empty otherwise. */
  lemma SetChanges(g: Grid, p: Pos, v: Bit)
    requires g.Valid() && g.InBounds(p)
    ensures Changed(g, Set(g, p, v)) == if g.At(p) == v then [] else [p]
  {
    var r := Set(g, p, v);
    var c := Changed(g, r);
    ChangedMembers(g, r, p);
    forall q | q in c
      ensures q == p
    {
      ChangedMembers(g, r, q);
    }
    DistinctBound(c, {p});
    if g.At(p) == v {
      assert p !in c;
      DistinctBound(c, {});
    } else {
      assert p in c;
    }
  }

  /** Flipping a cell twice gives back the board, and a flip changes exactly that cell. */
  lemma FlipTwice(g: Grid, p: Pos)
    requires g.Valid() && g.InBounds(p)
    ensures Flip(Flip(g, p), p) == g
    ensures Changed(g, Flip(g, p)) == [p]
  {
    SameGrid(Flip(Flip(g, p), p), g);
    SetChanges(g, p, 1 - g.At(p));
  }

  /** Some pair among the entries names p. */
  predicate Lists(entries: seq<seq<int>>, p: Pos) {
    exists k :: 0 <= k < |entries| && Names(entries[k], p)
  }

  /** The entry is the pair [p.0, p.1]. */
  predicate Names(e: seq<int>, p: Pos) {
    |e| == 2 && e[0] == p.0 && e[1] == p.1
  }

  /** The board of shape (cols, rows) whose active cells are those listed in entries. */
  function Initial(cols: nat, rows: nat, entries: seq<seq<int>>): (g: Grid)
    ensures g.Valid() && g.cols == cols && g.rows == rows
  {
    Grid(cols, rows, seq(cols, i => seq(rows, j => if Lists(entries, (i, j)) then 1 else 0)))
  }

  lemma InitialCell(cols: nat, rows: nat, entries: seq<seq<int>>, p: Pos)
    requires 0 <= p.0 < cols && 0 <= p.1 < rows
    ensures Initial(cols, rows, entries).At(p) == if Lists(entries, p) then 1 else 0
  {
  }

  lemma PrefixSnoc(entries: seq<seq<int>>, k: nat)
    requires k < |entries|
    ensures entries[..k + 1] == entries[..k] + [entries[k]]
  {
  }

  /** Activating the cell of one more entry gives the board of the longer list. */
  lemma InitialSnoc(cols: nat, rows: nat, entries: seq<seq<int>>, e: seq<int>)
    requires |e| == 2 && 0 <= e[0] < cols && 0 <= e[1] < rows
    ensures Set(Initial(cols, rows, entries), (e[0], e[1]), 1) == Initial(cols, rows, entries + [e])
  {
    var a, b := Set(Initial(cols, rows, entries), (e[0], e[1]), 1), Initial(cols, rows, entries + [e]);
    forall i, j {:trigger a.At((i, j))} | 0 <= i < cols && 0 <= j < rows
      ensures a.At((i, j)) == b.At((i, j))
    {
      InitialCell(cols, rows, entries, (i, j));
      InitialCell(cols, rows, entries + [e], (i, j));
      if Lists(entries, (i, j)) {
        var k :| 0 <= k < |entries| && Names(entries[k], (i, j));
        assert (entries + [e])[k] == entries[k];
      }
      assert (entries + [e])[|entries|] == e;
    }
    SameGrid(a, b);
  }

  /** The index of the first entry that is not a pair, or the number of entries if all are. */
  function FirstMalformed(entries: seq<seq<int>>): (k: nat)
    ensures k <= |entries|
    ensures forall l :: 0 <= l < k ==> |entries[l]| == 2
    ensures k < |entries| ==> |entries[k]| != 2
  {
    if entries == [] || |entries[0]| != 2 then 0 else 1 + FirstMalformed(entries[1..])
  }

  /** Every entry before the first malformed one names a position on a
      cols x rows board (the engine indexes its matrix with each of them). */
  predicate Indexable(entries: seq<seq<int>>, cols: nat, rows: nat) {
    forall k :: 0 <= k < FirstMalformed(entries) ==> 0 <= entries[k][0] < cols && 0 <= entries[k][1] < rows
  }

  /** The failure of construction: an initial entry that is not a pair. */
  datatype Error = BadInitialPosition(entry: seq<int>)

  datatype Result<T> = Ok(value: T) | Err(error: Error)

  /** Construction from (num_rows, num_cols, initial entries): the first entry
      that is not a pair is reported; otherwise the board has shape
      (num_cols, num_rows) with exactly the listed cells active. */
  function Build(numRows: nat, numCols: nat, entries: seq<seq<int>>): (r: Result<Grid>)
    requires Indexable(entries, numCols, numRows)
    ensures r.Err? <==> exists k :: 0 <= k < |entries| && |entries[k]| != 2
    ensures r.Err? ==> exists k :: 0 <= k < |entries| && r.error == BadInitialPosition(entries[k]) &&
                                   forall l :: 0 <= l < k ==> |entries[l]| == 2
    ensures r.Ok? ==> r.value.Valid() && r.value.cols == numCols && r.value.rows == numRows
    ensures r.Ok? ==> forall p :: r.value.At(p) == 1 <==> r.value.InBounds(p) && Lists(entries, p)
  {
    var k := FirstMalformed(entries);
    if k < |entries| then Err(BadInitialPosition(entries[k])) else Ok(Initial(numCols, numRows, entries))
  }
}
