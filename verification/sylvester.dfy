/** Sylvester's doubling construction of Hadamard matrices, in the recursive
    form of the Python generator (data_generator/matrix.py) and the
    quadrant-filling loop of the C++ generator (data_generator/hadamard.cpp). */
module Sylvester {
  import opened Matrices

  /** n is one of 1, 2, 4, 8, ... */
  predicate IsPowerOfTwo(n: nat)
    decreases n
  {
    n == 1 || (n >= 2 && n % 2 == 0 && IsPowerOfTwo(n / 2))
  }

  /** The block matrix [[h, h], [h, -h]]: each of the first |h| rows is a row
      of h written twice, each of the last |h| rows is a row of h followed by
      its negation. */
  function Block(h: Matrix): (b: Matrix)
    ensures |b| == 2 * |h|
  {
    seq(2 * |h|, r requires 0 <= r < 2 * |h| =>
      if r < |h| then h[r] + h[r] else h[r - |h|] + Neg(h[r - |h|]))
  }

  /** Index r of a 2m-long axis folded onto the m-long axis of h. */
  function Fold(r: nat, m: nat): (x: nat)
    requires r < 2 * m
    ensures x < m && (x == r || x == r - m)
  {
    if r < m then r else r - m
  }

  /** The value [[h, h], [h, -h]] holds at (r, c): only the bottom-right
      quadrant negates. */
  function QuadrantValue(h: Matrix, m: nat, r: nat, c: nat): int
    requires IsSquare(h, m) && r < 2 * m && c < 2 * m
  {
    if r >= m && c >= m then -h[Fold(r, m)][Fold(c, m)] else h[Fold(r, m)][Fold(c, m)]
  }

  /** Cell-level view of Block. */
  lemma BlockCells(h: Matrix, m: nat)
    requires IsSquare(h, m)
    ensures IsSquare(Block(h), 2 * m)
    ensures forall r, c :: 0 <= r < 2 * m && 0 <= c < 2 * m ==> Block(h)[r][c] == QuadrantValue(h, m, r, c)
  {
    var b := Block(h);
    forall r | 0 <= r < 2 * m
      ensures |b[r]| == 2 * m
      ensures forall c :: 0 <= c < 2 * m ==> b[r][c] == QuadrantValue(h, m, r, c)
    {
      var x := Fold(r, m);
      if r < m {
        assert b[r] == h[x] + h[x];
      } else {
        assert b[r] == h[x] + Neg(h[x]);
      }
    }
  }

  lemma BlockSigns(h: Matrix, m: nat)
    requires IsSquare(h, m) && IsSignMatrix(h)
    ensures IsSignMatrix(Block(h))
  {
    var b := Block(h);
    BlockCells(h, m);
    forall r, c | 0 <= r < 2 * m && 0 <= c < |b[r]|
      ensures IsSign(b[r][c])
    {
      assert b[r][c] == QuadrantValue(h, m, r, c);
      assert IsSign(h[Fold(r, m)][Fold(c, m)]);
    }
  }

  /** The four quadrant cases of a dot product of two block rows: rows from
      the same half keep twice the dot product of their halves, rows from
      different halves cancel. */
  lemma DotTopTop(u: Row, v: Row)
    requires |u| == |v|
    ensures Dot(u + u, v + v) == 2 * Dot(u, v)
  {
    DotAppend(u, u, v, v);
  }

  lemma DotTopBottom(u: Row, v: Row)
    requires |u| == |v|
    ensures Dot(u + u, v + Neg(v)) == 0
  {
    DotAppend(u, u, v, Neg(v));
    DotNegRight(u, v);
  }

  lemma DotBottomTop(u: Row, v: Row)
    requires |u| == |v|
    ensures Dot(u + Neg(u), v + v) == 0
  {
    DotAppend(u, Neg(u), v, v);
    DotNegLeft(u, v);
  }

  lemma DotBottomBottom(u: Row, v: Row)
    requires |u| == |v|
    ensures Dot(u + Neg(u), v + Neg(v)) == 2 * Dot(u, v)
  {
    DotAppend(u, Neg(u), v, Neg(v));
    DotNegLeft(u, Neg(v));
    DotNegRight(u, v);
  }

  /** Distinct rows of the block matrix are orthogonal when those of h are. */
  lemma BlockRowsOrthogonal(h: Matrix, m: nat, a: nat, c: nat)
    requires IsHadamard(h, m)
    requires a < 2 * m && c < 2 * m && a != c
    ensures |Block(h)[a]| == |Block(h)[c]| && Dot(Block(h)[a], Block(h)[c]) == 0
  {
    var b := Block(h);
    var x, y := Fold(a, m), Fold(c, m);
    assert |h[x]| == m && |h[y]| == m;
    if a < m && c < m {
      assert b[a] == h[x] + h[x] && b[c] == h[y] + h[y];
      assert Dot(h[x], h[y]) == 0;
      DotTopTop(h[x], h[y]);
    } else if a < m {
      assert b[a] == h[x] + h[x] && b[c] == h[y] + Neg(h[y]);
      DotTopBottom(h[x], h[y]);
    } else if c < m {
      assert b[a] == h[x] + Neg(h[x]) && b[c] == h[y] + h[y];
      DotBottomTop(h[x], h[y]);
    } else {
      assert b[a] == h[x] + Neg(h[x]) && b[c] == h[y] + Neg(h[y]);
      assert Dot(h[x], h[y]) == 0;
      DotBottomBottom(h[x], h[y]);
    }
  }

  /** Doubling keeps the Hadamard property: this is why the recursion is sound. */
  lemma BlockHadamard(h: Matrix, m: nat)
    requires IsHadamard(h, m)
    ensures IsHadamard(Block(h), 2 * m)
  {
    var b := Block(h);
    BlockCells(h, m);
    BlockSigns(h, m);
    forall a, c | 0 <= a < 2 * m && 0 <= c < 2 * m && a != c
      ensures Dot(b[a], b[c]) == 0
    {
      BlockRowsOrthogonal(h, m, a, c);
    }
  }

  /** generate_hadamard(n): [[1]] for n = 1, otherwise the block doubling of
      generate_hadamard(n // 2). The recursion halts for every n >= 1; its
      result is a Hadamard matrix whose side is the largest power of two not
      above n, so it is n x n exactly when n is a power of two. */
  function Generate(n: nat): (h: Matrix)
    requires n >= 1
    ensures IsPowerOfTwo(|h|) && |h| <= n < 2 * |h|
    ensures IsHadamard(h, |h|)
    ensures IsPowerOfTwo(n) ==> |h| == n
    ensures n == 1 ==> h == [[1]]
    decreases n
  {
    if n == 1 then [[1]]
    else
      var small := Generate(n / 2);
      BlockHadamard(small, |small|);
      assert (2 * |small|) / 2 == |small|;
      assert n / 2 * 2 <= n < n / 2 * 2 + 2;
      Block(small)
  }

  /** For n = 2m the result is built from four copies of Generate(m): row r
      of the top half is row r of Generate(m) twice, row r of the bottom half
      is row r of Generate(m) followed by its negation. */
  lemma GenerateQuadrants(n: nat, r: nat)
    requires n >= 2 && IsPowerOfTwo(n) && r < n / 2
    ensures |Generate(n)[r]| == |Generate(n)[r + n / 2]| == n
    ensures Generate(n)[r][..n / 2] == Generate(n / 2)[r]
    ensures Generate(n)[r][n / 2..] == Generate(n / 2)[r]
    ensures Generate(n)[r + n / 2][..n / 2] == Generate(n / 2)[r]
    ensures Generate(n)[r + n / 2][n / 2..] == Neg(Generate(n / 2)[r])
  {
    var h, s, m := Generate(n), Generate(n / 2), n / 2;
    assert h == Block(s);
    assert h[r] == s[r] + s[r];
    assert h[r + m] == s[r] + Neg(s[r]);
  }

  /** The rows of a generated matrix are mutually orthogonal with norm n:
      H * H^T = n * I. */
  lemma GenerateGram(n: nat, i: nat, j: nat)
    requires IsPowerOfTwo(n) && i < n && j < n
    ensures |Generate(n)[i]| == |Generate(n)[j]| == n
    ensures Dot(Generate(n)[i], Generate(n)[j]) == if i == j then n else 0
  {
    var h := Generate(n);
    if i == j {
      DotSelfSign(h[i]);
    }
  }

  /** The first row of a generated matrix is all ones: the top-left quadrant
      repeats it at every doubling. */
  lemma {:induction false} GenerateFirstRow(n: nat)
    requires IsPowerOfTwo(n)
    ensures |Generate(n)[0]| == n
    ensures forall c :: 0 <= c < n ==> Generate(n)[0][c] == 1
    decreases n
  {
    if n > 1 {
      var small := Generate(n / 2);
      GenerateFirstRow(n / 2);
      assert Generate(n)[0] == small[0] + small[0];
    }
  }

  /** The four-by-four case, written out. */
  lemma GenerateFour()
    ensures Generate(4) == [[1, 1, 1, 1], [1, -1, 1, -1], [1, 1, -1, -1], [1, -1, -1, 1]]
  {
    assert Generate(1) == [[1]];
    var one: Matrix := [[1]];
    assert Neg([1]) == [-1];
    assert [1] + [1] == [1, 1];
    assert [1] + [-1] == [1, -1];
    var two: Matrix := [[1, 1], [1, -1]];
    assert Block(one) == two by {
      assert Block(one)[0] == [1] + [1];
      assert Block(one)[1] == [1] + Neg([1]);
    }
    assert Generate(2) == two;
    assert Neg([1, 1]) == [-1, -1];
    assert Neg([1, -1]) == [-1, 1];
    assert [1, 1] + [1, 1] == [1, 1, 1, 1];
    assert [1, -1] + [1, -1] == [1, -1, 1, -1];
    assert [1, 1] + [-1, -1] == [1, 1, -1, -1];
    assert [1, -1] + [-1, 1] == [1, -1, -1, 1];
    assert Block(two) == [[1, 1, 1, 1], [1, -1, 1, -1], [1, 1, -1, -1], [1, -1, -1, 1]] by {
      var b := Block(two);
      assert b[0] == [1, 1] + [1, 1];
      assert b[1] == [1, -1] + [1, -1];
      assert b[2] == [1, 1] + Neg([1, 1]);
      assert b[3] == [1, -1] + Neg([1, -1]);
    }
  }

  /** generate_hadamard in C++: recursively build the half-size matrix, then
      fill an n x n grid quadrant by quadrant in one double loop over the
      half-size cells. Agrees with the recursive definition. */
  method GenerateHadamard(n: nat) returns (h: Matrix)
    requires IsPowerOfTwo(n)
    ensures h == Generate(n)
    ensures IsHadamard(h, n)
    decreases n
  {
    if n == 1 {
      return [[1]];
    }
    var small := GenerateHadamard(n / 2);
    h := FillQuadrants(small, n / 2);
  }

  /** The C++ double loop: a fresh n x n grid receives, for each cell (i, j)
      of the half-size matrix, its four copies, the bottom-right one negated. */
  method FillQuadrants(small: Matrix, half: nat) returns (h: Matrix)
    requires IsSquare(small, half)
    ensures h == Block(small)
  {
    var n := 2 * half;
    var grid := new int[n, n];
    var i := 0;
    while i < half
      invariant 0 <= i <= half
      invariant forall r, c :: 0 <= r < n && 0 <= c < n && Fold(r, half) < i ==>
        grid[r, c] == QuadrantValue(small, half, r, c)
    {
      var j := 0;
      while j < half
        invariant 0 <= j <= half
        invariant forall r, c :: 0 <= r < n && 0 <= c < n && (Fold(r, half) < i || (Fold(r, half) == i && Fold(c, half) < j)) ==>
          grid[r, c] == QuadrantValue(small, half, r, c)
      {
        grid[i, j] := small[i][j];
        grid[i, j + half] := small[i][j];
        grid[i + half, j] := small[i][j];
        grid[i + half, j + half] := -small[i][j];
        j := j + 1;
      }
      i := i + 1;
    }
    QuadrantsMakeBlock(grid, small, half);
    h := Rows(grid);
  }

  /** Once every cell holds its quadrant value, the grid holds
      [[small, small], [small, -small]]. */
  lemma QuadrantsMakeBlock(grid: array2<int>, small: Matrix, half: nat)
    requires IsSquare(small, half)
    requires grid.Length0 == grid.Length1 == 2 * half
    requires forall r, c :: 0 <= r < 2 * half && 0 <= c < 2 * half ==> grid[r, c] == QuadrantValue(small, half, r, c)
    ensures Rows(grid) == Block(small)
  {
    var n := 2 * half;
    var h, b := Rows(grid), Block(small);
    BlockCells(small, half);
    forall r | 0 <= r < n
      ensures h[r] == b[r]
    {
      assert forall c :: 0 <= c < n ==> h[r][c] == b[r][c];
    }
  }

  /** The contents of a two-dimensional array, row by row. */
  function Rows(grid: array2<int>): (m: Matrix)
    reads grid
    ensures |m| == grid.Length0
    ensures forall r, c :: 0 <= r < grid.Length0 && 0 <= c < grid.Length1 ==> |m[r]| == grid.Length1 && m[r][c] == grid[r, c]
  {
    seq(grid.Length0, r requires 0 <= r < grid.Length0 reads grid =>
      seq(grid.Length1, c requires 0 <= c < grid.Length1 reads grid => grid[r, c]))
  }
}
