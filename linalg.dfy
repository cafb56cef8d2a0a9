// Vectors and matrices over exact reals, with the sums and dot products that
// the rod calculator's assembly and linear solve are stated in terms of.
module LinAlg {

  type Vector = seq<real>
  type Matrix = seq<seq<real>>

  function Abs(x: real): real
  {
    if x < 0.0 then -x else x
  }

  function Zeros(n: nat): Vector
  {
    seq(n, _ => 0.0)
  }

  function Ones(n: nat): Vector
  {
    seq(n, _ => 1.0)
  }

  /** Every row of `M` has exactly `cols` entries, and there are `rows` rows. */
  predicate IsMatrix(M: Matrix, rows: nat, cols: nat)
  {
    |M| == rows && forall r :: 0 <= r < rows ==> |M[r]| == cols
  }

  function ZeroMatrix(n: nat): Matrix
  {
    seq(n, _ => Zeros(n))
  }

  /** s[0] + ... + s[hi-1] */
  function SumTo(s: Vector, hi: nat): real
    requires hi <= |s|
  {
    if hi == 0 then 0.0 else SumTo(s, hi - 1) + s[hi - 1]
  }

  function Sum(s: Vector): real
  {
    SumTo(s, |s|)
  }

  /** u[lo]*v[lo] + ... + u[hi-1]*v[hi-1] */
  function RangeDot(u: Vector, v: Vector, lo: nat, hi: nat): real
    requires lo <= hi <= |u| && hi <= |v|
    decreases hi - lo
  {
    if lo == hi then 0.0 else RangeDot(u, v, lo, hi - 1) + u[hi - 1] * v[hi - 1]
  }

  function Dot(u: Vector, v: Vector): real
    requires |u| == |v|
  {
    RangeDot(u, v, 0, |u|)
  }

  /** The product M·x, one dot product per row. */
  function MatVec(M: Matrix, x: Vector): Vector
    requires forall r :: 0 <= r < |M| ==> |M[r]| == |x|
  {
    seq(|M|, r requires 0 <= r < |M| => Dot(M[r], x))
  }

  /** Adding d to one entry of s adds d to every prefix sum that covers it. */
  lemma {:induction false} SumToUpdate(s: Vector, i: nat, d: real, hi: nat)
    requires i < |s| && hi <= |s|
    ensures SumTo(s[i := s[i] + d], hi) == SumTo(s, hi) + (if i < hi then d else 0.0)
  {
    if hi > 0 {
      SumToUpdate(s, i, d, hi - 1);
    }
  }

  lemma SumUpdate(s: Vector, i: nat, d: real)
    requires i < |s|
    ensures Sum(s[i := s[i] + d]) == Sum(s) + d
  {
    SumToUpdate(s, i, d, |s|);
  }

  /** A range dot product only depends on the products of the entries in its range. */
  lemma {:induction false} RangeDotPointwise(u: Vector, v: Vector, u': Vector, v': Vector, lo: nat, hi: nat)
    requires lo <= hi <= |u| && hi <= |v| && hi <= |u'| && hi <= |v'|
    requires forall t :: lo <= t < hi ==> u[t] * v[t] == u'[t] * v'[t]
    ensures RangeDot(u, v, lo, hi) == RangeDot(u', v', lo, hi)
    decreases hi - lo
  {
    if lo < hi {
      RangeDotPointwise(u, v, u', v', lo, hi - 1);
    }
  }

  lemma {:induction false} RangeDotSplit(u: Vector, v: Vector, lo: nat, mid: nat, hi: nat)
    requires lo <= mid <= hi <= |u| && hi <= |v|
    ensures RangeDot(u, v, lo, hi) == RangeDot(u, v, lo, mid) + RangeDot(u, v, mid, hi)
    decreases hi - mid
  {
    if mid < hi {
      RangeDotSplit(u, v, lo, mid, hi - 1);
    }
  }

  lemma {:induction false} RangeDotZero(u: Vector, v: Vector, lo: nat, hi: nat)
    requires lo <= hi <= |u| && hi <= |v|
    requires forall t :: lo <= t < hi ==> u[t] == 0.0
    ensures RangeDot(u, v, lo, hi) == 0.0
    decreases hi - lo
  {
    if lo < hi {
      RangeDotZero(u, v, lo, hi - 1);
    }
  }

  /** Dot products are linear in their first argument: if r = a·u + c·w, so is r·v. */
  lemma {:induction false} RangeDotLinear(u: Vector, w: Vector, r: Vector, a: real, c: real, v: Vector, lo: nat, hi: nat)
    requires lo <= hi <= |u| && hi <= |w| && hi <= |r| && hi <= |v|
    requires forall t :: lo <= t < hi ==> r[t] == a * u[t] + c * w[t]
    ensures RangeDot(r, v, lo, hi) == a * RangeDot(u, v, lo, hi) + c * RangeDot(w, v, lo, hi)
    decreases hi - lo
  {
    if lo < hi {
      RangeDotLinear(u, w, r, a, c, v, lo, hi - 1);
      var t := hi - 1;
      assert r[t] * v[t] == a * (u[t] * v[t]) + c * (w[t] * v[t]);
    }
  }

  /** Dotting with the all-ones vector sums the entries. */
  lemma {:induction false} RangeDotOnes(s: Vector, hi: nat)
    requires hi <= |s|
    ensures RangeDot(s, Ones(|s|), 0, hi) == SumTo(s, hi)
  {
    if hi > 0 {
      RangeDotOnes(s, hi - 1);
    }
  }

  lemma DotOnes(s: Vector)
    ensures Dot(s, Ones(|s|)) == Sum(s)
  {
    RangeDotOnes(s, |s|);
  }

  /**
   * A row whose only possible non-zero entries are at positions i-1, i and i+1
   * has a three-term dot product with any vector.
   */
  lemma DotTridiagonalRow(row: Vector, v: Vector, i: nat)
    requires |row| == |v| && i < |row|
    requires forall t :: 0 <= t < |row| && (t + 1 < i || t > i + 1) ==> row[t] == 0.0
    ensures Dot(row, v) ==
      (if i > 0 then row[i - 1] * v[i - 1] else 0.0) + row[i] * v[i] +
      (if i + 1 < |row| then row[i + 1] * v[i + 1] else 0.0)
  {
    var n := |row|;
    var lo := if i > 0 then i - 1 else 0;
    var hi := if i + 2 <= n then i + 2 else n;
    RangeDotSplit(row, v, 0, lo, n);
    RangeDotSplit(row, v, lo, hi, n);
    RangeDotZero(row, v, 0, lo);
    RangeDotZero(row, v, hi, n);
    assert RangeDot(row, v, lo, lo) == 0.0;
    if i > 0 {
      assert RangeDot(row, v, lo, i) == row[i - 1] * v[i - 1];
    }
    assert RangeDot(row, v, lo, i + 1) == RangeDot(row, v, lo, i) + row[i] * v[i];
    if i + 1 < n {
      assert RangeDot(row, v, lo, i + 2) == RangeDot(row, v, lo, i + 1) + row[i + 1] * v[i + 1];
    }
  }
}
