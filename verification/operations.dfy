/** The elementary operations apply_random_operations draws from, in
    data_generator/matrix.py and data_generator/hadamard.cpp. The random
    choices are an explicit sequence of draws; everything else is a pure
    function on matrices. */
module Operations {
  import opened Matrices
  import opened Seqs

  datatype OpKind = RowSwap | ColSwap | RowFlip | ColFlip

  /** One random draw: the operation kind and the two indices drawn with it.
      Swaps use both indices; flips use only i. */
  datatype Draw = Draw(kind: OpKind, i: nat, j: nat)

  /** Both indices lie in [0, size), as `rand() % size` gives them in C++. */
  predicate InRange(d: Draw, size: nat) {
    d.i < size && d.j < size
  }

  /** Two distinct indices in [0, size), as `random.sample(range(size), 2)`
      gives them in Python. */
  predicate DistinctInRange(d: Draw, size: nat) {
    InRange(d, size) && d.i != d.j
  }

  /** The row u with positions i and j exchanged. */
  function SwapAt(u: Row, i: nat, j: nat): (r: Row)
    requires i < |u| && j < |u|
    ensures |r| == |u| && r[i] == u[j] && r[j] == u[i]
    ensures forall c :: 0 <= c < |u| && c != i && c != j ==> r[c] == u[c]
    ensures i == j ==> r == u
  {
    u[i := u[j]][j := u[i]]
  }

  /** Row swap: rows i and j trade places, every other row stays. */
  function SwapRows(m: Matrix, i: nat, j: nat): (r: Matrix)
    requires i < |m| && j < |m|
    ensures |r| == |m| && r[i] == m[j] && r[j] == m[i]
    ensures forall k :: 0 <= k < |m| && k != i && k != j ==> r[k] == m[k]
    ensures i == j ==> r == m
  {
    m[i := m[j]][j := m[i]]
  }

  /** Column swap: in every row, entries i and j trade places. */
  function SwapCols(m: Matrix, i: nat, j: nat): (r: Matrix)
    requires forall k :: 0 <= k < |m| ==> i < |m[k]| && j < |m[k]|
    ensures |r| == |m|
    ensures forall k :: 0 <= k < |m| ==> |r[k]| == |m[k]| && r[k][i] == m[k][j] && r[k][j] == m[k][i]
    ensures forall k, c :: 0 <= k < |m| && 0 <= c < |m[k]| && c != i && c != j ==> r[k][c] == m[k][c]
    ensures i == j ==> r == m
  {
    seq(|m|, k requires 0 <= k < |m| => SwapAt(m[k], i, j))
  }

  /** Row flip: row i is negated, every other row stays. */
  function NegateRow(m: Matrix, i: nat): (r: Matrix)
    requires i < |m|
    ensures |r| == |m| && |r[i]| == |m[i]|
    ensures forall c :: 0 <= c < |m[i]| ==> r[i][c] == -m[i][c]
    ensures forall k :: 0 <= k < |m| && k != i ==> r[k] == m[k]
  {
    m[i := Neg(m[i])]
  }

  /** Column flip: entry i of every row is negated, all other entries stay. */
  function NegateCol(m: Matrix, i: nat): (r: Matrix)
    requires forall k :: 0 <= k < |m| ==> i < |m[k]|
    ensures |r| == |m|
    ensures forall k :: 0 <= k < |m| ==> |r[k]| == |m[k]| && r[k][i] == -m[k][i]
    ensures forall k, c :: 0 <= k < |m| && 0 <= c < |m[k]| && c != i ==> r[k][c] == m[k][c]
  {
    seq(|m|, k requires 0 <= k < |m| => m[k][i := -m[k][i]])
  }

  /** One operation on a square matrix; the result has the same shape. */
  function Apply(m: Matrix, d: Draw): (r: Matrix)
    requires IsSquare(m, |m|) && InRange(d, |m|)
    ensures IsSquare(r, |m|)
  {
    match d.kind
    case RowSwap => SwapRows(m, d.i, d.j)
    case ColSwap => SwapCols(m, d.i, d.j)
    case RowFlip => NegateRow(m, d.i)
    case ColFlip => NegateCol(m, d.i)
  }

  predicate AllInRange(ds: seq<Draw>, size: nat) {
    forall k :: 0 <= k < |ds| ==> InRange(ds[k], size)
  }

  /** The draws applied in order, first draw first. */
  function ApplyAll(m: Matrix, ds: seq<Draw>): (r: Matrix)
    requires IsSquare(m, |m|) && AllInRange(ds, |m|)
    ensures IsSquare(r, |m|)
    decreases |ds|
  {
    if |ds| == 0 then m else ApplyAll(Apply(m, ds[0]), ds[1..])
  }

  // ---------------------------------------------------------------------
  // Each operation is a signed permutation of rows or columns

  /** Overwriting position i in both rows changes their dot product by the
      difference of the two products at i. */
  lemma {:induction false} DotReplace(u: Row, v: Row, i: nat, x: int, p: int)
    requires |u| == |v| && i < |u|
    ensures Dot(u[i := x], v[i := p]) == Dot(u, v) - u[i] * v[i] + x * p
    decreases |u|
  {
    var n := |u| - 1;
    if i == n {
      assert u[i := x][..n] == u[..n];
      assert v[i := p][..n] == v[..n];
    } else {
      assert u[i := x][..n] == u[..n][i := x];
      assert v[i := p][..n] == v[..n][i := p];
      DotReplace(u[..n], v[..n], i, x, p);
    }
  }

  /** Exchanging the same two positions in both rows keeps their dot product. */
  lemma DotSwapAt(u: Row, v: Row, i: nat, j: nat)
    requires |u| == |v| && i < |u| && j < |u|
    ensures Dot(SwapAt(u, i, j), SwapAt(v, i, j)) == Dot(u, v)
  {
    if i != j {
      var u1, v1 := u[i := u[j]], v[i := v[j]];
      DotReplace(u, v, i, u[j], v[j]);
      DotReplace(u1, v1, j, u[i], v[i]);
    }
  }

  lemma SwapRowsPreservesHadamard(m: Matrix, n: nat, i: nat, j: nat)
    requires IsHadamard(m, n) && i < n && j < n
    ensures IsHadamard(SwapRows(m, i, j), n)
  {
    var r := SwapRows(m, i, j);
    forall a, b | 0 <= a < n && 0 <= b < n && a != b
      ensures Dot(r[a], r[b]) == 0
    {
      var a' := if a == i then j else if a == j then i else a;
      var b' := if b == i then j else if b == j then i else b;
      assert r[a] == m[a'] && r[b] == m[b'];
    }
    forall a, c | 0 <= a < n && 0 <= c < |r[a]|
      ensures IsSign(r[a][c])
    {
      var a' := if a == i then j else if a == j then i else a;
      assert r[a] == m[a'];
    }
  }

  lemma SwapColsPreservesHadamard(m: Matrix, n: nat, i: nat, j: nat)
    requires IsHadamard(m, n) && i < n && j < n
    ensures IsHadamard(SwapCols(m, i, j), n)
  {
    var r := SwapCols(m, i, j);
    forall a, b | 0 <= a < n && 0 <= b < n && a != b
      ensures Dot(r[a], r[b]) == 0
    {
      assert r[a] == SwapAt(m[a], i, j) && r[b] == SwapAt(m[b], i, j);
      DotSwapAt(m[a], m[b], i, j);
    }
    forall a, c | 0 <= a < n && 0 <= c < n
      ensures IsSign(r[a][c])
    {
      var c' := if c == i then j else if c == j then i else c;
      assert r[a][c] == m[a][c'];
    }
  }

  lemma NegateRowPreservesHadamard(m: Matrix, n: nat, i: nat)
    requires IsHadamard(m, n) && i < n
    ensures IsHadamard(NegateRow(m, i), n)
  {
    var r := NegateRow(m, i);
    forall a, b | 0 <= a < n && 0 <= b < n && a != b
      ensures Dot(r[a], r[b]) == 0
    {
      if a == i {
        DotNegLeft(m[a], m[b]);
      } else if b == i {
        DotNegRight(m[a], m[b]);
      }
    }
    forall a, c | 0 <= a < n && 0 <= c < n
      ensures IsSign(r[a][c])
    {
      assert IsSign(m[a][c]);
    }
  }

  lemma NegateColPreservesHadamard(m: Matrix, n: nat, i: nat)
    requires IsHadamard(m, n) && i < n
    ensures IsHadamard(NegateCol(m, i), n)
  {
    var r := NegateCol(m, i);
    forall a, b | 0 <= a < n && 0 <= b < n && a != b
      ensures Dot(r[a], r[b]) == 0
    {
      forall k | 0 <= k < n
        ensures r[a][k] * r[b][k] == m[a][k] * m[b][k]
      {
        if k == i {
          assert r[a][k] == -m[a][k] && r[b][k] == -m[b][k];
        }
      }
      DotPointwise(r[a], r[b], m[a], m[b]);
    }
    forall a, c | 0 <= a < n && 0 <= c < n
      ensures IsSign(r[a][c])
    {
      assert IsSign(m[a][c]);
    }
  }

  /** Every operation maps a Hadamard matrix to a Hadamard matrix of the same size. */
  lemma ApplyPreservesHadamard(m: Matrix, n: nat, d: Draw)
    requires IsHadamard(m, n) && InRange(d, n)
    ensures IsHadamard(Apply(m, d), n)
  {
    match d.kind
    case RowSwap => SwapRowsPreservesHadamard(m, n, d.i, d.j);
    case ColSwap => SwapColsPreservesHadamard(m, n, d.i, d.j);
    case RowFlip => NegateRowPreservesHadamard(m, n, d.i);
    case ColFlip => NegateColPreservesHadamard(m, n, d.i);
  }

  /** Any sequence of operations keeps the Hadamard property (hadamard.h
      promises a Hadamard matrix back). */
  lemma {:induction false} ApplyAllPreservesHadamard(m: Matrix, n: nat, ds: seq<Draw>)
    requires IsHadamard(m, n) && AllInRange(ds, n)
    ensures IsHadamard(ApplyAll(m, ds), n)
    decreases |ds|
  {
    if |ds| > 0 {
      ApplyPreservesHadamard(m, n, ds[0]);
      ApplyAllPreservesHadamard(Apply(m, ds[0]), n, ds[1..]);
    }
  }

  /** Each operation undoes itself. */
  lemma ApplyTwice(m: Matrix, d: Draw)
    requires IsSquare(m, |m|) && InRange(d, |m|)
    ensures Apply(Apply(m, d), d) == m
  {
    var r := Apply(Apply(m, d), d);
    match d.kind
    case RowSwap =>
    case ColSwap =>
      forall k | 0 <= k < |m|
        ensures r[k] == m[k]
      {
        assert SwapAt(SwapAt(m[k], d.i, d.j), d.i, d.j) == m[k];
      }
    case RowFlip =>
      assert Neg(Neg(m[d.i])) == m[d.i];
    case ColFlip =>
      forall k | 0 <= k < |m|
        ensures r[k] == m[k]
      {
      }
  }

  lemma {:induction false} ApplyAllAppend(m: Matrix, ds: seq<Draw>, es: seq<Draw>)
    requires IsSquare(m, |m|) && AllInRange(ds, |m|) && AllInRange(es, |m|)
    ensures AllInRange(ds + es, |m|)
    ensures ApplyAll(m, ds + es) == ApplyAll(ApplyAll(m, ds), es)
    decreases |ds|
  {
    if |ds| == 0 {
      assert ds + es == es;
    } else {
      assert (ds + es)[0] == ds[0];
      assert (ds + es)[1..] == ds[1..] + es;
      ApplyAllAppend(Apply(m, ds[0]), ds[1..], es);
    }
  }

  /** The randomisation is reversible: replaying the draws backwards restores
      the matrix it started from. */
  lemma {:induction false} ApplyAllUndo(m: Matrix, ds: seq<Draw>)
    requires IsSquare(m, |m|) && AllInRange(ds, |m|)
    ensures AllInRange(Reverse(ds), |m|)
    ensures ApplyAll(ApplyAll(m, ds), Reverse(ds)) == m
    decreases |ds|
  {
    if |ds| > 0 {
      var m1 := Apply(m, ds[0]);
      var rest := ds[1..];
      ApplyAllUndo(m1, rest);
      var back := ApplyAll(m1, rest);
      ApplyAllAppend(back, Reverse(rest), [ds[0]]);
      assert Reverse(ds) == Reverse(rest) + [ds[0]];
      assert ApplyAll(m1, [ds[0]]) == Apply(m1, ds[0]);
      ApplyTwice(m, ds[0]);
    }
  }

  // ---------------------------------------------------------------------
  // apply_random_operations

  predicate AllDistinctInRange(ds: seq<Draw>, size: nat) {
    forall k :: 0 <= k < |ds| ==> DistinctInRange(ds[k], size)
  }

  /** The Python apply_random_operations: the draws (two distinct indices
      each) are applied in order to a copy of h. The result has h's shape,
      and it is a Hadamard matrix whenever h is one. */
  function ApplyRandomOperations(h: Matrix, draws: seq<Draw>): (r: Matrix)
    requires IsSquare(h, |h|) && AllDistinctInRange(draws, |h|)
    ensures IsSquare(r, |h|)
    ensures IsHadamard(h, |h|) ==> IsHadamard(r, |h|)
  {
    assert AllInRange(draws, |h|);
    if IsHadamard(h, |h|) then
      ApplyAllPreservesHadamard(h, |h|, draws);
      ApplyAll(h, draws)
    else
      ApplyAll(h, draws)
  }

  /** The C++ apply_random_operations: works on a copy of h and applies each
      draw with the loops of hadamard.cpp. Indices may coincide, in which
      case a swap does nothing. */
  method ApplyRandomOperationsCpp(h: Matrix, draws: seq<Draw>) returns (m: Matrix)
    requires IsSquare(h, |h|) && AllInRange(draws, |h|)
    ensures m == ApplyAll(h, draws)
    ensures IsSquare(m, |h|)
    ensures IsHadamard(h, |h|) ==> IsHadamard(m, |h|)
  {
    m := h;
    var size := |h|;
    var op := 0;
    while op < |draws|
      invariant 0 <= op <= |draws|
      invariant IsSquare(m, size)
      invariant AllInRange(draws[op..], size)
      invariant ApplyAll(m, draws[op..]) == ApplyAll(h, draws)
    {
      var d := draws[op];
      assert draws[op..][0] == d && draws[op..][1..] == draws[op + 1..];
      match d.kind {
        case RowSwap =>
          m := m[d.i := m[d.j]][d.j := m[d.i]];
        case ColSwap =>
          m := SwapColumnsLoop(m, d.i, d.j);
        case RowFlip =>
          m := FlipRowLoop(m, d.i);
        case ColFlip =>
          m := FlipColumnLoop(m, d.i);
      }
      op := op + 1;
    }
    if IsHadamard(h, |h|) {
      ApplyAllPreservesHadamard(h, size, draws);
    }
  }

  /** `for k: std::swap(H[k][i], H[k][j])` */
  method SwapColumnsLoop(m0: Matrix, i: nat, j: nat) returns (m: Matrix)
    requires forall k :: 0 <= k < |m0| ==> i < |m0[k]| && j < |m0[k]|
    ensures m == SwapCols(m0, i, j)
  {
    m := m0;
    var k := 0;
    while k < |m0|
      invariant 0 <= k <= |m0| && |m| == |m0|
      invariant forall r :: 0 <= r < k ==> m[r] == SwapAt(m0[r], i, j)
      invariant forall r :: k <= r < |m0| ==> m[r] == m0[r]
    {
      var row := m[k];
      var tmp := row[i];
      row := row[i := row[j]];
      row := row[j := tmp];
      m := m[k := row];
      k := k + 1;
    }
  }

  /** `for k: H[i][k] *= -1` */
  method FlipRowLoop(m0: Matrix, i: nat) returns (m: Matrix)
    requires i < |m0|
    ensures m == NegateRow(m0, i)
  {
    m := m0;
    var k := 0;
    while k < |m0[i]|
      invariant 0 <= k <= |m0[i]| && |m| == |m0| && |m[i]| == |m0[i]|
      invariant forall c :: 0 <= c < k ==> m[i][c] == -m0[i][c]
      invariant forall c :: k <= c < |m0[i]| ==> m[i][c] == m0[i][c]
      invariant forall r :: 0 <= r < |m0| && r != i ==> m[r] == m0[r]
    {
      m := m[i := m[i][k := m[i][k] * -1]];
      k := k + 1;
    }
    assert m[i] == Neg(m0[i]);
  }

  /** `for k: H[k][i] *= -1` */
  method FlipColumnLoop(m0: Matrix, i: nat) returns (m: Matrix)
    requires forall k :: 0 <= k < |m0| ==> i < |m0[k]|
    ensures m == NegateCol(m0, i)
  {
    m := m0;
    var k := 0;
    while k < |m0|
      invariant 0 <= k <= |m0| && |m| == |m0|
      invariant forall r :: 0 <= r < k ==> m[r] == m0[r][i := -m0[r][i]]
      invariant forall r :: k <= r < |m0| ==> m[r] == m0[r]
    {
      m := m[k := m[k][i := m[k][i] * -1]];
      k := k + 1;
    }
  }
}
