/** The similarity graph as a dense matrix of real weights, and the
    out-weight sums the ranking divides by. */
module Graph {

  /** The threshold below which a log-sum denominator or an out-weight sum
      counts as zero. */
  const Eps: real := 0.000001

  function Abs(x: real): (r: real)
    ensures r >= 0.0 && (r == x || r == -x)
  {
    if x < 0.0 then -x else x
  }

  function Max(a: real, b: real): (r: real)
    ensures r >= a && r >= b && (r == a || r == b)
  {
    if a < b then b else a
  }

  /** `m` has `n` rows of `n` entries each. */
  ghost predicate IsSquare(m: seq<seq<real>>, n: nat)
  {
    |m| == n && forall i :: 0 <= i < n ==> |m[i]| == n
  }

  ghost predicate Symmetric(m: seq<seq<real>>)
    requires IsSquare(m, |m|)
  {
    forall i, j :: 0 <= i < |m| && 0 <= j < |m| ==> m[i][j] == m[j][i]
  }

  ghost predicate ZeroDiagonal(m: seq<seq<real>>)
    requires IsSquare(m, |m|)
  {
    forall i :: 0 <= i < |m| ==> m[i][i] == 0.0
  }

  ghost predicate NonNegative(m: seq<seq<real>>)
    requires IsSquare(m, |m|)
  {
    forall i, j :: 0 <= i < |m| && 0 <= j < |m| ==> m[i][j] >= 0.0
  }

  /** The sum of the first `len` entries of `row`, leaving out the entry at `skip`. */
  function SumExceptUpTo(row: seq<real>, skip: nat, len: nat): real
    requires len <= |row|
  {
    if len == 0 then 0.0
    else SumExceptUpTo(row, skip, len - 1) + (if len - 1 == skip then 0.0 else row[len - 1])
  }

  /** The total weight node `skip` gives to all other nodes: the sum of its
      row without the diagonal entry. */
  function OutWeight(row: seq<real>, skip: nat): real
  {
    SumExceptUpTo(row, skip, |row|)
  }

  /** The plain sum of the first `len` entries of a row. */
  function SumUpTo(row: seq<real>, len: nat): real
    requires len <= |row|
  {
    if len == 0 then 0.0 else SumUpTo(row, len - 1) + row[len - 1]
  }

  /** With a zero diagonal entry, leaving it out does not change the sum. */
  lemma {:induction false} OutWeightIsRowSum(row: seq<real>, skip: nat, len: nat)
    requires len <= |row| && skip < |row| && row[skip] == 0.0
    ensures SumExceptUpTo(row, skip, len) == SumUpTo(row, len)
  {
    if len > 0 {
      OutWeightIsRowSum(row, skip, len - 1);
    }
  }

  /** A sum of non-negative weights is non-negative. */
  lemma {:induction false} OutWeightNonNegative(row: seq<real>, skip: nat, len: nat)
    requires len <= |row|
    requires forall j :: 0 <= j < |row| ==> row[j] >= 0.0
    ensures SumExceptUpTo(row, skip, len) >= 0.0
  {
    if len > 0 {
      OutWeightNonNegative(row, skip, len - 1);
    }
  }
}
