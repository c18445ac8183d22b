/** Two-dimensional detector and slice data as values: a grid is a sequence of rows. */
module Grids {
  import CMath

  type Grid<T> = seq<seq<T>>

  /** `g` has `rows` rows of `cols` entries each. */
  ghost predicate IsGrid<T>(g: Grid<T>, rows: nat, cols: nat) {
    |g| == rows && forall i :: 0 <= i < rows ==> |g[i]| == cols
  }

  /** A rows-by-cols grid whose every entry is `v`. */
  function Constant<T>(rows: nat, cols: nat, v: T): (g: Grid<T>)
    ensures IsGrid(g, rows, cols)
    ensures forall i, j :: 0 <= i < rows && 0 <= j < cols ==> g[i][j] == v
  {
    seq(rows, i => seq(cols, j => v))
  }

  /** Column `j` of `g`, top row first. */
  function Column<T>(g: Grid<T>, j: nat): (c: seq<T>)
    requires forall i :: 0 <= i < |g| ==> j < |g[i]|
    ensures |c| == |g| && forall i :: 0 <= i < |g| ==> c[i] == g[i][j]
  {
    seq(|g|, i requires 0 <= i < |g| => g[i][j])
  }

  /** The current contents of a two-dimensional array as a grid. */
  ghost function Snapshot<T>(a: array2<T>): (g: Grid<T>)
    reads a
    ensures IsGrid(g, a.Length0, a.Length1)
    ensures forall i, j :: 0 <= i < a.Length0 && 0 <= j < a.Length1 ==> g[i][j] == a[i, j]
  {
    seq(a.Length0, i requires 0 <= i < a.Length0 reads a =>
      seq(a.Length1, j requires 0 <= j < a.Length1 reads a => a[i, j]))
  }

  /** Two grids of the same shape that agree everywhere are equal. */
  lemma GridExt<T>(g: Grid<T>, h: Grid<T>, rows: nat, cols: nat)
    requires IsGrid(g, rows, cols) && IsGrid(h, rows, cols)
    requires forall i, j :: 0 <= i < rows && 0 <= j < cols ==> g[i][j] == h[i][j]
    ensures g == h
  {
    forall i | 0 <= i < rows ensures g[i] == h[i] {
      assert forall j :: 0 <= j < cols ==> g[i][j] == h[i][j];
    }
  }

  /** The current contents of a three-dimensional array, slice by slice. */
  ghost function Snapshot3<T>(a: array3<T>): (v: seq<seq<seq<T>>>)
    reads a
    ensures |v| == a.Length0
    ensures forall i :: 0 <= i < a.Length0 ==> |v[i]| == a.Length1
    ensures forall i, j :: 0 <= i < a.Length0 && 0 <= j < a.Length1 ==> |v[i][j]| == a.Length2
    ensures forall i, j, k :: 0 <= i < a.Length0 && 0 <= j < a.Length1 && 0 <= k < a.Length2 ==>
      v[i][j][k] == a[i, j, k]
  {
    seq(a.Length0, i requires 0 <= i < a.Length0 reads a =>
      seq(a.Length1, j requires 0 <= j < a.Length1 reads a =>
        seq(a.Length2, k requires 0 <= k < a.Length2 reads a => a[i, j, k])))
  }

  /** Row-major position of entry (i, j) of a rows-by-cols grid stored flat. */
  function FlatIndex(rows: nat, cols: nat, i: nat, j: nat): (n: nat)
    requires i < rows && j < cols
    ensures n < rows * cols
  {
    CMath.BlockBefore(i, rows, cols, j);
    i * cols + j
  }

  /** Distinct entries occupy distinct positions of the flat store. */
  lemma FlatIndexInjective(rows: nat, cols: nat, i: nat, j: nat, i2: nat, j2: nat)
    requires i < rows && j < cols && i2 < rows && j2 < cols
    requires FlatIndex(rows, cols, i, j) == FlatIndex(rows, cols, i2, j2)
    ensures i == i2 && j == j2
  {
    CMath.BlockUnique(i, i2, cols, j, j2);
  }
}
