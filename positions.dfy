/** Cell coordinates, the row-major order in which the engine visits them,
    and order-preserving selection of coordinates from a list. */
module Positions {

  /** A cell coordinate (i, j): i runs along the first axis of the board
      (its num_cols cells), j along the second (its num_rows cells). */
  type Pos = (int, int)

  /** Row-major order: first by i, then by j. */
  predicate Before(p: Pos, q: Pos) {
    p.0 < q.0 || (p.0 == q.0 && p.1 < q.1)
  }

  /** Strictly increasing in row-major order. */
  predicate Ascending(s: seq<Pos>) {
    forall a, b :: 0 <= a < b < |s| ==> Before(s[a], s[b])
  }

  predicate Distinct(s: seq<Pos>) {
    forall a, b :: 0 <= a < b < |s| ==> s[a] != s[b]
  }

  /** The elements of ps that satisfy keep, in the order they have in ps:
      what a loop appending each kept element to a list produces. */
  function Where(ps: seq<Pos>, keep: Pos -> bool): seq<Pos>
  {
    if ps == [] then []
    else Where(ps[..|ps| - 1], keep) + (if keep(ps[|ps| - 1]) then [ps[|ps| - 1]] else [])
  }

  /** Positions (i, 0), (i, 1), ..., (i, n - 1): the inner loop over j for one i. */
  function Column(i: int, n: nat): seq<Pos>
  {
    seq(n, j => (i, j))
  }

  /** Every position of a cols x rows board in scan order: outer index i over
      [0, cols), inner index j over [0, rows). */
  function Scan(cols: nat, rows: nat): seq<Pos>
  {
    if cols == 0 then [] else Scan(cols - 1, rows) + Column(cols - 1, rows)
  }

  lemma {:induction false} WhereMembers(ps: seq<Pos>, keep: Pos -> bool, x: Pos)
    ensures x in Where(ps, keep) <==> x in ps && keep(x)
  {
    if ps != [] {
      var init := ps[..|ps| - 1];
      WhereMembers(init, keep, x);
      assert ps == init + [ps[|ps| - 1]];
    }
  }

  /** Everything selected is in the list and kept. */
  lemma WhereKept(ps: seq<Pos>, keep: Pos -> bool)
    ensures forall x :: x in Where(ps, keep) ==> x in ps && keep(x)
  {
    forall x | x in Where(ps, keep)
      ensures x in ps && keep(x)
    {
      WhereMembers(ps, keep, x);
    }
  }

  lemma {:induction false} WhereLength(ps: seq<Pos>, keep: Pos -> bool)
    ensures |Where(ps, keep)| <= |ps|
  {
    if ps != [] {
      WhereLength(ps[..|ps| - 1], keep);
    }
  }

  /** Selection keeps the order of the list it selects from. */
  lemma {:induction false} WhereAscending(ps: seq<Pos>, keep: Pos -> bool)
    requires Ascending(ps)
    ensures Ascending(Where(ps, keep))
  {
    if ps != [] {
      var init, last := ps[..|ps| - 1], ps[|ps| - 1];
      WhereAscending(init, keep);
      var w := Where(init, keep);
      forall a | 0 <= a < |w|
        ensures Before(w[a], last)
      {
        WhereMembers(init, keep, w[a]);
        var c :| 0 <= c < |init| && init[c] == w[a];
        assert ps[c] == init[c];
      }
    }
  }

  /** Selection from a list without repetitions has none either. */
  lemma {:induction false} WhereDistinct(ps: seq<Pos>, keep: Pos -> bool)
    requires Distinct(ps)
    ensures Distinct(Where(ps, keep))
  {
    if ps != [] {
      var init, last := ps[..|ps| - 1], ps[|ps| - 1];
      WhereDistinct(init, keep);
      var w := Where(init, keep);
      forall a | 0 <= a < |w|
        ensures w[a] != last
      {
        WhereMembers(init, keep, w[a]);
        var c :| 0 <= c < |init| && init[c] == w[a];
        assert ps[c] == init[c];
      }
    }
  }

  /** The scan of i columns followed by the first j + 1 positions of column i. */
  lemma ScanColumnSnoc(i: nat, j: nat, rows: nat)
    ensures Scan(i, rows) + Column(i, j + 1) == (Scan(i, rows) + Column(i, j)) + [(i, j)]
  {
    assert Column(i, j + 1) == Column(i, j) + [(i, j)];
  }

  /** The scan visits exactly the positions of the board. */
  lemma {:induction false} ScanMembers(cols: nat, rows: nat, p: Pos)
    ensures p in Scan(cols, rows) <==> 0 <= p.0 < cols && 0 <= p.1 < rows
  {
    if cols > 0 {
      ScanMembers(cols - 1, rows, p);
      if p.0 == cols - 1 && 0 <= p.1 < rows {
        assert Column(cols - 1, rows)[p.1] == p;
      }
    }
  }

  /** The scan visits them in row-major order, so each exactly once. */
  lemma {:induction false} ScanAscending(cols: nat, rows: nat)
    ensures Ascending(Scan(cols, rows))
  {
    if cols > 0 {
      ScanAscending(cols - 1, rows);
      var s := Scan(cols - 1, rows);
      forall a | 0 <= a < |s|
        ensures s[a].0 < cols - 1
      {
        ScanMembers(cols - 1, rows, s[a]);
      }
    }
  }

  /** A list without repetitions that lies within a set is no longer than the set. */
  lemma {:induction false} DistinctBound(s: seq<Pos>, bound: set<Pos>)
    requires Distinct(s)
    requires forall x :: x in s ==> x in bound
    ensures |s| <= |bound|
  {
    if s != [] {
      var init, last := s[..|s| - 1], s[|s| - 1];
      assert last !in init;
      forall x | x in init
        ensures x in bound - {last}
      {
        assert x in s;
      }
      DistinctBound(init, bound - {last});
    }
  }

  /** A list without repetitions has as many elements as the set of its elements. */
  lemma {:induction false} DistinctCard(s: seq<Pos>)
    requires Distinct(s)
    ensures |set x | x in s| == |s|
  {
    if s != [] {
      var init, last := s[..|s| - 1], s[|s| - 1];
      assert s == init + [last];
      assert last !in init;
      assert (set x | x in s) == (set x | x in init) + {last};
      DistinctCard(init);
    }
  }
}
