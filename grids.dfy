/**
 * Sequences and row-major grids: the value view of the numpy vectors and
 * matrices the watermarking code works on.
 */
module Grids {

  /** `g` has `rows` rows of `cols` entries each. */
  predicate IsGrid<T>(g: seq<seq<T>>, rows: nat, cols: nat) {
    |g| == rows && forall i :: 0 <= i < |g| ==> |g[i]| == cols
  }

  /** numpy's `v[::-1]` on a vector and `np.flipud` on a matrix: the rows in reverse order. */
  function Reversed<T>(s: seq<T>): seq<T> {
    seq(|s|, i requires 0 <= i < |s| => s[|s| - 1 - i])
  }

  /** Applies `f` to every entry of a grid, as a numpy element-wise operation does. */
  function MapGrid<T, U>(g: seq<seq<T>>, f: T -> U): (r: seq<seq<U>>)
    ensures |r| == |g|
    ensures forall i :: 0 <= i < |g| ==> |r[i]| == |g[i]|
  {
    seq(|g|, i requires 0 <= i < |g| => seq(|g[i]|, j requires 0 <= j < |g[i]| => f(g[i][j])))
  }

  /** The contents of a 2-D array, row by row. */
  function Grid<T>(m: array2<T>): (g: seq<seq<T>>)
    reads m
    ensures IsGrid(g, m.Length0, m.Length1)
    ensures forall i, j :: 0 <= i < m.Length0 && 0 <= j < m.Length1 ==> g[i][j] == m[i, j]
  {
    seq(m.Length0, i reads m requires 0 <= i < m.Length0 =>
      seq(m.Length1, j reads m requires 0 <= j < m.Length1 => m[i, j]))
  }

  /** A 2-D array whose every cell agrees with a grid of its shape holds exactly that grid. */
  lemma GridEquals<T>(m: array2<T>, g: seq<seq<T>>)
    requires IsGrid(g, m.Length0, m.Length1)
    requires forall i, j :: 0 <= i < m.Length0 && 0 <= j < m.Length1 ==> m[i, j] == g[i][j]
    ensures Grid(m) == g
  {
    var h := Grid(m);
    forall i | 0 <= i < m.Length0
      ensures h[i] == g[i]
    {
    }
  }
}
