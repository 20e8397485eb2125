/** Row-major two-dimensional tables, the shape of the numpy arrays the tagger builds. */
module Tables {

  /** A row-major table with `rows` rows of `cols` cells each (a numpy array of that shape). */
  predicate IsGrid<T>(g: seq<seq<T>>, rows: nat, cols: nat) {
    |g| == rows && forall r :: 0 <= r < rows ==> |g[r]| == cols
  }

  /** The column of a row-major table. */
  function Column<T>(table: seq<seq<T>>, t: nat): (col: seq<T>)
    requires forall r :: 0 <= r < |table| ==> t < |table[r]|
    ensures |col| == |table|
    ensures forall r :: 0 <= r < |table| ==> col[r] == table[r][t]
  {
    seq(|table|, r requires 0 <= r < |table| => table[r][t])
  }
}
