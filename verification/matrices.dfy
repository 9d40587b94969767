/** Integer matrices as sequences of rows, with the notions every other
    module shares: squareness, ±1 entries, row dot products, row-major
    flattening and the Hadamard property. */
module Matrices {

  type Row = seq<int>
  type Matrix = seq<Row>

  /** m has exactly n rows of exactly n entries each. */
  predicate IsSquare(m: Matrix, n: nat) {
    |m| == n && forall i :: 0 <= i < |m| ==> |m[i]| == n
  }

  predicate IsSign(x: int) {
    x == 1 || x == -1
  }

  /** Every entry of every row is +1 or -1. */
  predicate IsSignMatrix(m: Matrix) {
    forall i, j :: 0 <= i < |m| && 0 <= j < |m[i]| ==> IsSign(m[i][j])
  }

  /** Sum of u[k] * v[k], accumulated left to right as the checker's loop does. */
  function Dot(u: Row, v: Row): int
    requires |u| == |v|
    decreases |u|
  {
    if |u| == 0 then 0 else Dot(u[..|u| - 1], v[..|v| - 1]) + u[|u| - 1] * v[|v| - 1]
  }

  /** Entry-wise negation of a row. */
  function Neg(u: Row): (r: Row)
    ensures |r| == |u|
  {
    seq(|u|, k requires 0 <= k < |u| => -u[k])
  }

  /** An n x n matrix (n >= 1) with ±1 entries whose distinct rows are orthogonal. */
  predicate IsHadamard(m: Matrix, n: nat) {
    && n >= 1
    && IsSquare(m, n)
    && IsSignMatrix(m)
    && forall i, j :: 0 <= i < n && 0 <= j < n && i != j ==> Dot(m[i], m[j]) == 0
  }

  /** Row-major flattening: the rows concatenated in order. */
  function Flatten<T>(m: seq<seq<T>>): seq<T>
  {
    if |m| == 0 then [] else m[0] + Flatten(m[1..])
  }

  // ---------------------------------------------------------------------
  // Dot product algebra

  lemma {:induction false} DotAppend(a: Row, b: Row, c: Row, d: Row)
    requires |a| == |c| && |b| == |d|
    ensures Dot(a + b, c + d) == Dot(a, c) + Dot(b, d)
    decreases |b|
  {
    if |b| == 0 {
      assert a + b == a;
      assert c + d == c;
    } else {
      var b', d' := b[..|b| - 1], d[..|d| - 1];
      assert (a + b)[..|a + b| - 1] == a + b';
      assert (c + d)[..|c + d| - 1] == c + d';
      DotAppend(a, b', c, d');
    }
  }

  lemma {:induction false} DotNegLeft(u: Row, v: Row)
    requires |u| == |v|
    ensures Dot(Neg(u), v) == -Dot(u, v)
    decreases |u|
  {
    if |u| > 0 {
      assert Neg(u)[..|u| - 1] == Neg(u[..|u| - 1]);
      DotNegLeft(u[..|u| - 1], v[..|v| - 1]);
    }
  }

  lemma {:induction false} DotSymmetric(u: Row, v: Row)
    requires |u| == |v|
    ensures Dot(u, v) == Dot(v, u)
    decreases |u|
  {
    if |u| > 0 {
      DotSymmetric(u[..|u| - 1], v[..|v| - 1]);
    }
  }

  lemma DotNegRight(u: Row, v: Row)
    requires |u| == |v|
    ensures Dot(u, Neg(v)) == -Dot(u, v)
  {
    DotSymmetric(u, Neg(v));
    DotNegLeft(v, u);
    DotSymmetric(u, v);
  }

  /** Two pairs of rows whose entry-wise products agree have the same dot product. */
  lemma {:induction false} DotPointwise(u: Row, v: Row, u': Row, v': Row)
    requires |u| == |v| == |u'| == |v'|
    requires forall k :: 0 <= k < |u| ==> u[k] * v[k] == u'[k] * v'[k]
    ensures Dot(u, v) == Dot(u', v')
    decreases |u|
  {
    if |u| > 0 {
      var n := |u| - 1;
      assert u[n] * v[n] == u'[n] * v'[n];
      DotPointwise(u[..n], v[..n], u'[..n], v'[..n]);
    }
  }

  /** A ±1 row has squared norm equal to its length: H * H^T has n on the diagonal. */
  lemma {:induction false} DotSelfSign(u: Row)
    requires forall k :: 0 <= k < |u| ==> IsSign(u[k])
    ensures Dot(u, u) == |u|
    decreases |u|
  {
    if |u| > 0 {
      assert IsSign(u[|u| - 1]);
      DotSelfSign(u[..|u| - 1]);
    }
  }

  // ---------------------------------------------------------------------
  // Flattening

  lemma {:induction false} FlattenAppend<T>(a: seq<seq<T>>, b: seq<seq<T>>)
    ensures Flatten(a + b) == Flatten(a) + Flatten(b)
    decreases |a|
  {
    if |a| == 0 {
      assert a + b == b;
    } else {
      assert (a + b)[1..] == a[1..] + b;
      FlattenAppend(a[1..], b);
    }
  }

  /** i * w + j addresses a cell of an n x w row-major grid. */
  lemma RowMajorBound(i: nat, j: nat, n: nat, w: nat)
    requires i < n && j < w
    ensures i * w + j < n * w
  {
    assert (i + 1) * w <= n * w by {
      assert n * w == (i + 1) * w + (n - i - 1) * w;
    }
  }

  /** The flattening of the first i + 1 rows extends that of the first i by row i. */
  lemma FlattenSnoc<T>(m: seq<seq<T>>, i: nat)
    requires i < |m|
    ensures Flatten(m[..i + 1]) == Flatten(m[..i]) + m[i]
  {
    assert m[..i + 1] == m[..i] + [m[i]];
    FlattenAppend(m[..i], [m[i]]);
    assert [m[i]][1..] == [];
  }

  lemma {:induction false} FlattenLength<T>(m: seq<seq<T>>, w: nat)
    requires forall i :: 0 <= i < |m| ==> |m[i]| == w
    ensures |Flatten(m)| == |m| * w
    decreases |m|
  {
    if |m| > 0 {
      FlattenLength(m[1..], w);
      assert |m| * w == w + (|m| - 1) * w;
    }
  }

  /** Flattening rows of equal width w puts entry [i][j] at index i * w + j. */
  lemma {:induction false} FlattenCell<T>(m: seq<seq<T>>, w: nat, i: nat, j: nat)
    requires forall k :: 0 <= k < |m| ==> |m[k]| == w
    requires i < |m| && j < w
    ensures i * w + j < |Flatten(m)| && Flatten(m)[i * w + j] == m[i][j]
    decreases i
  {
    FlattenLength(m, w);
    RowMajorBound(i, j, |m|, w);
    if i > 0 {
      var rest := m[1..];
      FlattenCell(rest, w, i - 1, j);
      assert i * w + j == w + ((i - 1) * w + j);
    }
  }

  // ---------------------------------------------------------------------
  // Row-major reshaping

  /** The n x n matrix whose cell [i][j] is f[i * n + j] (numpy's reshape and
      the checker's reshape_to_matrix). */
  function Unflatten<T>(f: seq<T>, n: nat): (m: seq<seq<T>>)
    requires |f| == n * n
    ensures |m| == n && forall i :: 0 <= i < n ==> |m[i]| == n
  {
    seq(n, i requires 0 <= i < n =>
      seq(n, j requires 0 <= j < n => RowMajorBound(i, j, n, n); f[i * n + j]))
  }

  /** Element k of the flat sequence lands in row k / n, column k % n. */
  lemma UnflattenIndex<T>(f: seq<T>, n: nat, k: nat)
    requires |f| == n * n && k < |f|
    ensures n > 0 && k / n < n && k % n < n
    ensures Unflatten(f, n)[k / n][k % n] == f[k]
  {
    assert n > 0;
    var i, j := k / n, k % n;
    assert k == i * n + j;
  }

  /** Reshaping undoes row-major flattening of a square matrix. */
  lemma UnflattenFlatten<T>(m: seq<seq<T>>, n: nat)
    requires forall i :: 0 <= i < |m| ==> |m[i]| == n
    requires |m| == n
    ensures |Flatten(m)| == n * n
    ensures Unflatten(Flatten(m), n) == m
  {
    FlattenLength(m, n);
    var u := Unflatten(Flatten(m), n);
    forall i, j | 0 <= i < n && 0 <= j < n
      ensures u[i][j] == m[i][j]
    {
      FlattenCell(m, n, i, j);
    }
    assert forall i :: 0 <= i < n ==> u[i] == m[i];
  }

  /** Flattening undoes reshaping. */
  lemma FlattenUnflatten<T>(f: seq<T>, n: nat)
    requires |f| == n * n
    ensures Flatten(Unflatten(f, n)) == f
  {
    var u := Unflatten(f, n);
    FlattenLength(u, n);
    forall k | 0 <= k < |f|
      ensures Flatten(u)[k] == f[k]
    {
      FlattenUnflattenAt(f, n, k);
    }
  }

  /** One position of FlattenUnflatten. */
  lemma FlattenUnflattenAt<T>(f: seq<T>, n: nat, k: nat)
    requires |f| == n * n && k < |f|
    ensures |Flatten(Unflatten(f, n))| == n * n && Flatten(Unflatten(f, n))[k] == f[k]
  {
    var u := Unflatten(f, n);
    FlattenLength(u, n);
    UnflattenIndex(f, n, k);
    var i, j := k / n, k % n;
    DivMod(k, n);
    FlattenCell(u, n, i, j);
  }

  /** Euclidean division splits k into whole rows of n and a remainder. */
  lemma DivMod(k: nat, n: nat)
    requires n > 0
    ensures k / n * n + k % n == k
  {
  }
}
