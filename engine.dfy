/** The simulation engine: a matrix of shape (num_cols, num_rows) updated in
    place, a generation counter, and the operations the game offers on them. */
module Engine {
  import opened Positions
  import opened Grids
  import opened Snapshots

  /** A game of life. The base game follows Conway's rules; the HighLife
      variant differs only in its step, which `rule` selects. */
  class GameOfLife {
    const numCols: nat
    const numRows: nat
    const rule: Rule
    var mat: array2<Bit>
    var steps: int
    /** The board the matrix holds. */
    ghost var board: Grid

    /** The matrix keeps the shape it was created with and holds the board. */
    ghost predicate Valid()
      reads this, mat
    {
      mat.Length0 == numCols && mat.Length1 == numRows &&
      board.Valid() && board.cols == numCols && board.rows == numRows &&
      forall i, j {:trigger mat[i, j]} :: 0 <= i < numCols && 0 <= j < numRows ==> board.At((i, j)) == mat[i, j]
    }

    /** The board read off the matrix, cell by cell. */
    function Matrix(): (g: Grid)
      reads this, mat
      requires Valid()
      ensures g == board
    {
      var m := mat;
      var g := Grid(numCols, numRows,
                    seq(numCols, i requires 0 <= i < m.Length0 reads m =>
                      seq(numRows, j requires 0 <= j < m.Length1 reads m => m[i, j])));
      SameGrid(g, board);
      g
    }

    /** An all-zero matrix of shape (num_cols, num_rows) at generation 0. */
    constructor Blank(numRows: nat, numCols: nat, rule: Rule)
      ensures Valid() && fresh(mat)
      ensures this.numRows == numRows && this.numCols == numCols && this.rule == rule
      ensures board == Zero(numCols, numRows) && steps == 0
    {
      this.numRows := numRows;
      this.numCols := numCols;
      this.rule := rule;
      mat := new Bit[numCols, numRows]((i, j) => 0);
      steps := 0;
      board := Zero(numCols, numRows);
    }

    /** Construction from (num_rows, num_cols) and a list of initial
        positions: the first entry that is not a pair fails construction;
        otherwise exactly the listed cells are 1 and the counter is 0. */
    static method Create(numRows: nat, numCols: nat, initialActive: seq<seq<int>>, rule: Rule)
      returns (r: Result<GameOfLife>)
      requires Indexable(initialActive, numCols, numRows)
      ensures r.Ok? <==> FirstMalformed(initialActive) == |initialActive|
      ensures r.Err? ==> r.error == BadInitialPosition(initialActive[FirstMalformed(initialActive)])
      ensures r.Ok? ==> fresh(r.value) && fresh(r.value.mat) && r.value.Valid()
      ensures r.Ok? ==> r.value.numCols == numCols && r.value.numRows == numRows && r.value.rule == rule
      ensures r.Ok? ==> r.value.board == Initial(numCols, numRows, initialActive) && r.value.steps == 0
    {
      var g := new GameOfLife.Blank(numRows, numCols, rule);
      assert initialActive[..0] == [];
      SameGrid(Zero(numCols, numRows), Initial(numCols, numRows, []));
      ghost var valid := FirstMalformed(initialActive);
      for k := 0 to |initialActive|
        invariant forall l :: 0 <= l < k ==> |initialActive[l]| == 2
        invariant k <= valid
        invariant fresh(g) && fresh(g.mat) && g.Valid()
        invariant g.numCols == numCols && g.numRows == numRows && g.rule == rule && g.steps == 0
        invariant g.board == Initial(numCols, numRows, initialActive[..k])
      {
        var p := initialActive[k];
        if |p| != 2 {
          assert valid == k;
          return Err(BadInitialPosition(p));
        }
        assert k < valid;
        g.Activate((p[0], p[1]));
        PrefixSnoc(initialActive, k);
        InitialSnoc(numCols, numRows, initialActive[..k], p);
      }
      assert initialActive[..|initialActive|] == initialActive;
      r := Ok(g);
    }

    /** The shape of the matrix, (num_cols, num_rows). */
    function Size(): (shape: (nat, nat))
      reads this, mat
      requires Valid()
      ensures shape == (numCols, numRows)
    {
      (mat.Length0, mat.Length1)
    }

    /** The score: the sum of the matrix, which is the number of active cells. */
    function Score(): (n: nat)
      reads this, mat
      requires Valid()
      ensures n == |ActiveSet(board)| == |ActiveCells(board)|
    {
      ScoreCountsActive(board);
      Grids.Score(Matrix())
    }

    /** The active neighbours of p, collected by trying each offset of Moves in turn. */
    method ActiveNeighbors(p: Pos) returns (neighbors: seq<Pos>)
      requires Valid()
      ensures neighbors == Neighbors(board, p)
    {
      neighbors := [];
      var around := Around(p);
      for k := 0 to |Moves|
        invariant neighbors == ActiveAmong(board, around[..k])
      {
        var q := Shift(p, Moves[k]);
        assert around[..k + 1] == around[..k] + [q];
        ActiveAmongSnoc(board, around[..k], q);
        if 0 <= q.0 < numCols && 0 <= q.1 < numRows && mat[q.0, q.1] == 1 {
          neighbors := neighbors + [q];
        }
      }
      assert around[..|Moves|] == around;
    }

    /** The next value of the cell at p and whether it differs from the
        current one, decided by the branches of the step. */
    method NextValue(p: Pos) returns (v: Bit, switched: bool)
      requires Valid() && 0 <= p.0 < numCols && 0 <= p.1 < numRows
      ensures v == NextAt(rule, board, p)
      ensures switched <==> v != board.At(p)
    {
      var neighbors := ActiveNeighbors(p);
      if mat[p.0, p.1] == 1 {
        if |neighbors| == 2 || |neighbors| == 3 {
          v, switched := 1, false;
        } else {
          v, switched := 0, true;
        }
      } else {
        if Born(rule, |neighbors|) {
          v, switched := 1, true;
        } else {
          v, switched := 0, false;
        }
      }
    }

    /** The body of the inner loop of the step: writes the next value of the
        cell p into newMat and says whether it differs from the current one. */
    method WriteNext(newMat: array2<Bit>, p: Pos) returns (switched: bool)
      requires Valid() && 0 <= p.0 < numCols && 0 <= p.1 < numRows && newMat != mat
      requires newMat.Length0 == numCols && newMat.Length1 == numRows
      modifies newMat
      ensures forall a, b {:trigger newMat[a, b]} :: 0 <= a < numCols && 0 <= b < numRows ==>
                newMat[a, b] == if a == p.0 && b == p.1 then NextAt(rule, board, p) else old(newMat[a, b])
      ensures switched <==> NextAt(rule, board, p) != board.At(p)
    {
      var v;
      v, switched := NextValue(p);
      newMat[p.0, p.1] := v;
    }

    /** The inner loop of the step for column i: writes the next value of
        each cell (i, j) into newMat and appends, in order of j, the cells
        whose value changes. */
    method NextColumn(i: nat, newMat: array2<Bit>, changed: seq<Pos>) returns (changed': seq<Pos>)
      requires Valid() && i < numCols && newMat != mat
      requires newMat.Length0 == numCols && newMat.Length1 == numRows
      requires changed == Flips(rule, board, Scan(i, numRows))
      modifies newMat
      ensures forall a, b {:trigger newMat[a, b]} :: 0 <= a < numCols && 0 <= b < numRows ==>
                newMat[a, b] == if a == i then NextAt(rule, board, (a, b)) else old(newMat[a, b])
      ensures changed' == Flips(rule, board, Scan(i + 1, numRows))
    {
      changed' := changed;
      assert Scan(i, numRows) + Column(i, 0) == Scan(i, numRows);
      for j := 0 to numRows
        invariant forall a, b {:trigger newMat[a, b]} :: 0 <= a < numCols && 0 <= b < numRows ==>
                    newMat[a, b] == if a == i && b < j then NextAt(rule, board, (a, b)) else old(newMat[a, b])
        invariant changed' == Flips(rule, board, Scan(i, numRows) + Column(i, j))
      {
        var switched := WriteNext(newMat, (i, j));
        if switched {
          changed' := changed' + [(i, j)];
        }
        FlipsColumnSnoc(rule, board, i, j, numRows);
      }
    }

    /** A matrix holding the next value of every cell holds the next generation. */
    lemma HoldsNext(newMat: array2<Bit>)
      requires Valid() && newMat.Length0 == numCols && newMat.Length1 == numRows
      requires forall a, b {:trigger newMat[a, b]} :: 0 <= a < numCols && 0 <= b < numRows ==> newMat[a, b] == NextAt(rule, board, (a, b))
      ensures forall i, j {:trigger newMat[i, j]} :: 0 <= i < numCols && 0 <= j < numRows ==> NextGrid(rule, board).At((i, j)) == newMat[i, j]
    {
      forall i, j {:trigger newMat[i, j]} | 0 <= i < numCols && 0 <= j < numRows
        ensures NextGrid(rule, board).At((i, j)) == newMat[i, j]
      {
        NextGridCell(rule, board, (i, j));
      }
    }

    /** The two loops of the step: a fresh matrix holding the next value of
        every cell, and the cells whose value changes, in scan order. */
    method Successor() returns (newMat: array2<Bit>, changed: seq<Pos>)
      requires Valid()
      ensures fresh(newMat) && newMat.Length0 == numCols && newMat.Length1 == numRows
      ensures forall a, b {:trigger newMat[a, b]} :: 0 <= a < numCols && 0 <= b < numRows ==> newMat[a, b] == NextAt(rule, board, (a, b))
      ensures changed == Flips(rule, board, Scan(numCols, numRows))
    {
      changed := [];
      newMat := new Bit[numCols, numRows]((i, j) => 0);
      for i := 0 to numCols
        invariant forall a, b {:trigger newMat[a, b]} :: 0 <= a < i && 0 <= b < numRows ==> newMat[a, b] == NextAt(rule, board, (a, b))
        invariant changed == Flips(rule, board, Scan(i, numRows))
        modifies newMat
      {
        changed := NextColumn(i, newMat, changed);
      }
    }

    /** One generation: every cell's next value is computed from the old
        matrix into a new one, which then replaces it; the counter advances by
        one; the result lists the cells whose value changed, in scan order. */
    method Step() returns (changed: seq<Pos>)
      requires Valid()
      modifies this
      ensures Valid() && fresh(mat)
      ensures board == NextGrid(rule, old(board))
      ensures changed == Changed(old(board), board)
      ensures steps == old(steps) + 1
    {
      var newMat;
      newMat, changed := Successor();
      ScanFlips(rule, board);
      ghost var next := NextGrid(rule, board);
      HoldsNext(newMat);
      mat := newMat;
      board := next;
      steps := steps + 1;
    }

    /** Sets the cell at p to 1; nothing else changes. */
    method Activate(p: Pos)
      requires Valid() && 0 <= p.0 < numCols && 0 <= p.1 < numRows
      modifies this, mat
      ensures Valid() && mat == old(mat) && steps == old(steps)
      ensures board == Set(old(board), p, 1)
    {
      mat[p.0, p.1] := 1;
      board := Set(board, p, 1);
    }

    /** Sets the cell at p to 0; nothing else changes. */
    method Deactivate(p: Pos)
      requires Valid() && 0 <= p.0 < numCols && 0 <= p.1 < numRows
      modifies this, mat
      ensures Valid() && mat == old(mat) && steps == old(steps)
      ensures board == Set(old(board), p, 0)
    {
      mat[p.0, p.1] := 0;
      board := Set(board, p, 0);
    }

    /** Replaces the cell at p by one minus its value; nothing else changes. */
    method Toggle(p: Pos)
      requires Valid() && 0 <= p.0 < numCols && 0 <= p.1 < numRows
      modifies this, mat
      ensures Valid() && mat == old(mat) && steps == old(steps)
      ensures board == Flip(old(board), p)
    {
      mat[p.0, p.1] := 1 - mat[p.0, p.1];
      board := Flip(board, p);
    }

    /** Replaces the matrix by an all-zero one of the same shape; the counter is kept. */
    method Restart()
      requires Valid()
      modifies this
      ensures Valid() && fresh(mat) && steps == old(steps)
      ensures board == Zero(numCols, numRows)
    {
      mat := new Bit[numCols, numRows]((i, j) => 0);
      board := Zero(numCols, numRows);
    }

    /** The payload a save writes: the shape, the counter and the active cells
        in scan order; loading it with the axes in order gives the board back. */
    function SavePayload(): (rec: Record)
      reads this, mat
      requires Valid()
      ensures rec == Save(board, steps)
      ensures rec.size == Size() && rec.step == steps
      ensures forall p :: Lists(rec.activeCells, p) <==> ActiveAt(board, p)
      ensures Indexable(rec.activeCells, numCols, numRows) && RestoreFixed(rec) == Ok(board)
    {
      SavedEntries(board);
      SaveRestoreFixed(board, steps);
      Save(Matrix(), steps)
    }

    /** Load as written: builds a game with num_rows = size[0] and
        num_cols = size[1] from the saved cells, then restores the counter. */
    static method Load(rec: Record, rule: Rule) returns (r: Result<GameOfLife>)
      requires Indexable(rec.activeCells, rec.size.1, rec.size.0)
      ensures r.Ok? <==> Restore(rec).Ok?
      ensures r.Err? ==> r.error == Restore(rec).error
      ensures r.Ok? ==> fresh(r.value) && fresh(r.value.mat) && r.value.Valid() && r.value.rule == rule
      ensures r.Ok? ==> r.value.board == Restore(rec).value && r.value.steps == rec.step
    {
      r := Create(rec.size.0, rec.size.1, rec.activeCells, rule);
      if r.Ok? {
        r.value.steps := rec.step;
      }
    }

    /** Load with the axes in order: num_cols = size[0], num_rows = size[1]. */
    static method LoadFixed(rec: Record, rule: Rule) returns (r: Result<GameOfLife>)
      requires Indexable(rec.activeCells, rec.size.0, rec.size.1)
      ensures r.Ok? <==> RestoreFixed(rec).Ok?
      ensures r.Err? ==> r.error == RestoreFixed(rec).error
      ensures r.Ok? ==> fresh(r.value) && fresh(r.value.mat) && r.value.Valid() && r.value.rule == rule
      ensures r.Ok? ==> r.value.board == RestoreFixed(rec).value && r.value.steps == rec.step
    {
      r := Create(rec.size.1, rec.size.0, rec.activeCells, rule);
      if r.Ok? {
        r.value.steps := rec.step;
      }
    }
  }
}
