/**
 * The temperature-anomaly variable as a time x latitude x longitude grid of
 * values, and the two numeric operations the renderer applies to it: the
 * latitude flip `data[t, ::-1, :]` (code/plot_tempanomaly.py, line 25) and
 * the minimum and maximum over the whole variable (lines 19-20).
 */
module Slices {

  /** Values along one latitude row, ordered by longitude. */
  type Row = seq<int>
  /** One time step: latitude rows, south first. */
  type Slice = seq<Row>
  /**
   * The whole variable: one slice per time step. A NetCDF variable is
   * rectangular (every slice has the same rows, every row the same length);
   * the type also admits ragged grids, and every lemma here holds for those too.
   */
  type Variable = seq<Slice>

  /** `s[::-1]` on the latitude axis: the rows in reverse order, each row unchanged. */
  function FlipRows(s: Slice): (r: Slice)
    ensures |r| == |s|
  {
    if s == [] then [] else FlipRows(s[1..]) + [s[0]]
  }

  /** Row `i` of the flipped slice is row `|s| - 1 - i` of the original. */
  lemma {:induction false} FlipRowsAt(s: Slice, i: int)
    requires 0 <= i < |s|
    ensures FlipRows(s)[i] == s[|s| - 1 - i]
  {
    if i < |s| - 1 {
      FlipRowsAt(s[1..], i);
    }
  }

  /** Flipping twice gives back the original slice. */
  lemma {:induction false} FlipRowsInvolution(s: Slice)
    ensures FlipRows(FlipRows(s)) == s
  {
    var f := FlipRows(s);
    forall i | 0 <= i < |s|
      ensures FlipRows(f)[i] == s[i]
    {
      FlipRowsAt(f, i);
      FlipRowsAt(s, |s| - 1 - i);
    }
  }

  /** The values of a slice, row after row. */
  function FlattenRows(s: Slice): seq<int>
  {
    if s == [] then [] else s[0] + FlattenRows(s[1..])
  }

  /** The values of the whole variable, `data[:, :, :]` read in storage order. */
  function Flatten(v: Variable): seq<int>
  {
    if v == [] then [] else FlattenRows(v[0]) + Flatten(v[1..])
  }

  lemma {:induction false} FlattenRowsHas(s: Slice, i: int, j: int)
    requires 0 <= i < |s| && 0 <= j < |s[i]|
    ensures s[i][j] in FlattenRows(s)
  {
    if i > 0 {
      FlattenRowsHas(s[1..], i - 1, j);
    }
  }

  /** Every value of the variable occurs among the values `min` and `max` range over. */
  lemma {:induction false} FlattenHas(v: Variable, t: int, i: int, j: int)
    requires 0 <= t < |v| && 0 <= i < |v[t]| && 0 <= j < |v[t][i]|
    ensures v[t][i][j] in Flatten(v)
  {
    if t == 0 {
      FlattenRowsHas(v[0], i, j);
    } else {
      FlattenHas(v[1..], t - 1, i, j);
    }
  }

  lemma {:induction false} FlattenRowsOnly(s: Slice, x: int)
    requires x in FlattenRows(s)
    ensures exists i, j :: 0 <= i < |s| && 0 <= j < |s[i]| && s[i][j] == x
  {
    assert s != [];
    if x in s[0] {
      var j :| 0 <= j < |s[0]| && s[0][j] == x;
      assert s[0][j] == x;
    } else {
      FlattenRowsOnly(s[1..], x);
      var i, j :| 0 <= i < |s[1..]| && 0 <= j < |s[1..][i]| && s[1..][i][j] == x;
      assert s[i + 1][j] == x;
    }
  }

  /** ... and every value among them is a value of the variable. */
  lemma {:induction false} FlattenOnly(v: Variable, x: int)
    requires x in Flatten(v)
    ensures exists t, i, j :: 0 <= t < |v| && 0 <= i < |v[t]| && 0 <= j < |v[t][i]| && v[t][i][j] == x
  {
    assert v != [];
    if x in FlattenRows(v[0]) {
      FlattenRowsOnly(v[0], x);
      var i, j :| 0 <= i < |v[0]| && 0 <= j < |v[0][i]| && v[0][i][j] == x;
      assert v[0][i][j] == x;
    } else {
      FlattenOnly(v[1..], x);
      var t, i, j :| 0 <= t < |v[1..]| && 0 <= i < |v[1..][t]| && 0 <= j < |v[1..][t][i]| && v[1..][t][i][j] == x;
      assert v[t + 1][i][j] == x;
    }
  }

  /** Every value of a flipped slice of the variable lies between its minimum and maximum. */
  lemma {:induction false} FlippedWithinRange(v: Variable, t: int)
    requires 0 <= t < |v| && |Flatten(v)| > 0
    ensures var f := FlipRows(v[t]);
      forall r, c :: 0 <= r < |f| && 0 <= c < |f[r]| ==> MinOf(Flatten(v)) <= f[r][c] <= MaxOf(Flatten(v))
  {
    var f := FlipRows(v[t]);
    forall r, c | 0 <= r < |f| && 0 <= c < |f[r]|
      ensures MinOf(Flatten(v)) <= f[r][c] <= MaxOf(Flatten(v))
    {
      FlipRowsAt(v[t], r);
      FlattenHas(v, t, |v[t]| - 1 - r, c);
    }
  }

  /** The variable has no values at all exactly when every one of its rows is empty. */
  lemma {:induction false} FlattenEmpty(v: Variable)
    ensures |Flatten(v)| == 0 <==> forall t, i :: 0 <= t < |v| && 0 <= i < |v[t]| ==> |v[t][i]| == 0
  {
    if v != [] {
      FlattenEmpty(v[1..]);
      FlattenRowsEmpty(v[0]);
      assert forall t, i :: 1 <= t < |v| && 0 <= i < |v[t]| ==> v[t][i] == v[1..][t - 1][i];
    }
  }

  lemma {:induction false} FlattenRowsEmpty(s: Slice)
    ensures |FlattenRows(s)| == 0 <==> forall i :: 0 <= i < |s| ==> |s[i]| == 0
  {
    if s != [] {
      FlattenRowsEmpty(s[1..]);
      assert forall i :: 1 <= i < |s| ==> s[i] == s[1..][i - 1];
    }
  }

  /** `.min()` of a non-empty sequence: one of its values, no larger than any. */
  function MinOf(s: seq<int>): (r: int)
    requires |s| > 0
    ensures r in s && forall x :: x in s ==> r <= x
  {
    if |s| == 1 then s[0]
    else
      var m := MinOf(s[1..]);
      assert forall x :: x in s ==> x == s[0] || x in s[1..];
      if s[0] <= m then s[0] else m
  }

  /** `.max()` of a non-empty sequence: one of its values, no smaller than any. */
  function MaxOf(s: seq<int>): (r: int)
    requires |s| > 0
    ensures r in s && forall x :: x in s ==> x <= r
  {
    if |s| == 1 then s[0]
    else
      var m := MaxOf(s[1..]);
      assert forall x :: x in s ==> x == s[0] || x in s[1..];
      if s[0] >= m then s[0] else m
  }
}
