/** The stand-alone checker: a line of whitespace-separated integers is read
    with `stream >> value`, validated to hold only +1 and -1, reshaped into a
    square matrix and tested for pairwise row orthogonality. */
module Checker {
  import opened Wrappers
  import opened Matrices
  import opened Text
  import opened Encoders
  import Sylvester
  import Operations
  import opened Seqs

  // -----------------------------------------------------------------------
  // parse_input

  /** One successful `stream >> value` on an int: the value read and the
      characters left unread. */
  datatype Extraction = Extraction(value: int, rest: string)

  /** Formatted int extraction in the "C" locale: leading isspace characters
      are skipped, then an optional sign and the longest run of decimal
      digits are consumed. No digit, or a value outside int, fails the
      extraction and stops the stream (None). */
  function Extract(s: string): (r: Option<Extraction>)
    ensures r.Some? ==> |r.value.rest| < |s| && InIntRange(r.value.value)
  {
    var t := SkipCSpace(s);
    if |t| > 0 && t[0] == '-' then ExtractDigits(true, t[1..])
    else if |t| > 0 && t[0] == '+' then ExtractDigits(false, t[1..])
    else ExtractDigits(false, t)
  }

  /** The digits after the optional sign: at least one, and a value that
      fits in int. */
  function ExtractDigits(negative: bool, body: string): (r: Option<Extraction>)
    ensures r.Some? ==> |r.value.rest| < |body| && InIntRange(r.value.value)
  {
    var k := DigitRun(body);
    var magnitude := DigitsValue(body[..k]);
    var v := if negative then -(magnitude as int) else magnitude;
    if k == 0 || !InIntRange(v) then None
    else Some(Extraction(v, body[k..]))
  }

  /** The values `while (stream >> value)` visits, in input order. */
  function Tokens(s: string): seq<int>
    decreases |s|
  {
    match Extract(s)
    case None => []
    case Some(e) => [e.value] + Tokens(e.rest)
  }

  predicate AllSigns(xs: seq<int>) {
    forall i :: 0 <= i < |xs| ==> IsSign(xs[i])
  }

  /** The extraction loop of parse_input from the point where `flat` holds
      the values accepted so far and `s` is the unread input. */
  function ParseFrom(s: string, flat: seq<int>): seq<int>
    decreases |s|
  {
    match Extract(s)
    case None => flat
    case Some(e) =>
      if e.value != 1 && e.value != -1 then [] else ParseFrom(e.rest, flat + [e.value])
  }

  /** parse_input: every extracted value when all of them are +1 or -1, and
      the empty vector as soon as one is not. */
  function ParseInput(input: string): (flat: seq<int>)
    ensures AllSigns(flat)
    ensures AllSigns(Tokens(input)) ==> flat == Tokens(input)
    ensures !AllSigns(Tokens(input)) ==> flat == []
  {
    ParseFromTokens(input, []);
    ParseFrom(input, [])
  }

  lemma {:induction false} ParseFromTokens(s: string, flat: seq<int>)
    requires AllSigns(flat)
    ensures AllSigns(Tokens(s)) ==> ParseFrom(s, flat) == flat + Tokens(s)
    ensures !AllSigns(Tokens(s)) ==> ParseFrom(s, flat) == []
    decreases |s|
  {
    var e := Extract(s);
    if e.Some? {
      var v, rest := e.value.value, e.value.rest;
      var ts := Tokens(s);
      assert ts == [v] + Tokens(rest);
      if IsSign(v) {
        assert ParseFrom(s, flat) == ParseFrom(rest, flat + [v]);
        ParseFromTokens(rest, flat + [v]);
        AllSignsCons(v, Tokens(rest));
        ConcatAssoc(flat, [v], Tokens(rest));
      } else {
        assert ParseFrom(s, flat) == [];
        assert !IsSign(ts[0]);
      }
    }
  }

  lemma AllSignsCons(x: int, xs: seq<int>)
    ensures AllSigns([x] + xs) <==> IsSign(x) && AllSigns(xs)
  {
    if IsSign(x) && AllSigns(xs) {
      forall i | 0 <= i < |xs| + 1 ensures IsSign(([x] + xs)[i]) {
        if i > 0 { assert ([x] + xs)[i] == xs[i - 1]; }
      }
    }
    if AllSigns([x] + xs) {
      assert ([x] + xs)[0] == x;
      forall i | 0 <= i < |xs| ensures IsSign(xs[i]) {
        assert ([x] + xs)[i + 1] == xs[i];
      }
    }
  }

  /** The decimal text of x followed by a space is read back as x, leaving the
      space unread. */
  lemma ExtractIntString(x: int, r: string)
    requires InIntRange(x)
    ensures Extract(IntToString(x) + " " + r) == Some(Extraction(x, " " + r))
  {
    ConcatAssoc(IntToString(x), " ", r);
    if x < 0 {
      ExtractSigned(-x, r);
    } else {
      ExtractUnsigned(x, r);
    }
  }

  /** A minus sign, the digits of n and a space are read as -n. */
  lemma ExtractSigned(n: nat, r: string)
    requires n > 0 && InIntRange(-(n as int))
    ensures Extract(IntToString(-(n as int)) + (" " + r)) == Some(Extraction(-(n as int), " " + r))
  {
    ConcatAssoc("-", NatToString(n), " " + r);
    var s := "-" + (NatToString(n) + (" " + r));
    assert !IsCSpace(s[0]);
    assert SkipCSpace(s) == s;
    assert s[1..] == NatToString(n) + (" " + r);
    ExtractDigitsOf(true, n, r);
  }

  /** The digits of n and a space are read as n. */
  lemma ExtractUnsigned(n: nat, r: string)
    requires InIntRange(n)
    ensures Extract(IntToString(n) + (" " + r)) == Some(Extraction(n, " " + r))
  {
    var s := NatToString(n) + (" " + r);
    assert IsDigit(s[0]) && !IsCSpace(s[0]);
    assert SkipCSpace(s) == s;
    ExtractDigitsOf(false, n, r);
  }

  /** The digits of n followed by a space are read as n (or -n after a minus). */
  lemma ExtractDigitsOf(negative: bool, n: nat, r: string)
    requires InIntRange(if negative then -(n as int) else n)
    ensures ExtractDigits(negative, NatToString(n) + (" " + r)) == Some(Extraction(if negative then -(n as int) else n, " " + r))
  {
    var w := NatToString(n);
    var body := w + (" " + r);
    DigitRunOfDigits(w, " " + r);
    assert body[..|w|] == w && body[|w|..] == " " + r;
    NatToStringValue(n);
  }

  /** The digit run of a word of digits followed by a non-digit is the word. */
  lemma {:induction false} DigitRunOfDigits(w: string, rest: string)
    requires AllDigits(w)
    requires |rest| == 0 || !IsDigit(rest[0])
    ensures DigitRun(w + rest) == |w|
    decreases |w|
  {
    if |w| > 0 {
      assert (w + rest)[1..] == w[1..] + rest;
      DigitRunOfDigits(w[1..], rest);
    } else {
      assert w + rest == rest;
    }
  }

  /** A leading space is skipped by the next extraction. */
  lemma TokensSkipSpace(r: string)
    ensures Tokens(" " + r) == Tokens(r)
  {
    assert (" " + r)[1..] == r;
    assert SkipCSpace(" " + r) == SkipCSpace(r);
    assert Extract(" " + r) == Extract(r);
  }

  /** Extraction reads back every value of the space-terminated text that
      matrix_to_original_string writes, and nothing else. */
  lemma {:induction false} TokensOfTerminated(xs: seq<int>)
    requires forall i :: 0 <= i < |xs| ==> InIntRange(xs[i])
    ensures Tokens(Terminated(IntStrings(xs))) == xs
    decreases |xs|
  {
    if |xs| == 0 {
      assert SkipCSpace("") == "";
      assert DigitRun("") == 0;
    } else {
      var r := Terminated(IntStrings(xs[1..]));
      TerminatedIntsCons(xs);
      ExtractIntString(xs[0], r);
      TokensSkipSpace(r);
      TokensOfTerminated(xs[1..]);
      ConsTail(xs);
    }
  }

  lemma TerminatedIntsCons(xs: seq<int>)
    requires |xs| > 0
    ensures Terminated(IntStrings(xs)) == IntToString(xs[0]) + " " + Terminated(IntStrings(xs[1..]))
  {
    assert IntStrings(xs)[1..] == IntStrings(xs[1..]);
  }

  // -----------------------------------------------------------------------
  // reshape_to_matrix

  /** The integer square root, the truncation of std::sqrt on the sizes the
      checker meets. */
  function ISqrt(k: nat): (r: nat)
    ensures r * r <= k < (r + 1) * (r + 1)
    decreases k
  {
    if k == 0 then 0
    else
      var s := ISqrt(k - 1);
      if (s + 1) * (s + 1) <= k then
        assert (s + 2) * (s + 2) == (s + 1) * (s + 1) + 2 * s + 3;
        s + 1
      else s
  }

  lemma ISqrtOfSquare(n: nat)
    ensures ISqrt(n * n) == n
  {
    var r := ISqrt(n * n);
    if r < n {
      MulMonotone(r + 1, n);
      assert false;
    } else if r > n {
      MulMonotone(n + 1, r);
      assert false;
    }
  }

  lemma MulMonotone(a: nat, b: nat)
    requires a <= b
    ensures a * a <= b * b
  {
    assert b * b == a * a + (b - a) * (a + b);
  }

  /** reshape_to_matrix: an n x n matrix holding flat in row-major order when
      |flat| is a perfect square n * n, and the empty matrix otherwise. */
  function ReshapeToMatrix(flat: seq<int>): (m: Matrix)
    ensures |m| * |m| == |flat| ==> IsSquare(m, |m|) && Flatten(m) == flat
    ensures (exists n: nat :: n * n == |flat|) <==> |m| * |m| == |flat|
    ensures |m| * |m| != |flat| ==> m == []
  {
    var n := ISqrt(|flat|);
    ReshapeSquareRoot(|flat|);
    if n * n != |flat| then []
    else
      FlattenUnflatten(flat, n);
      Unflatten(flat, n)
  }

  /** The only candidate side of a perfect square is its integer root. */
  lemma ReshapeSquareRoot(k: nat)
    ensures (exists n: nat :: n * n == k) <==> ISqrt(k) * ISqrt(k) == k
  {
    if exists n: nat :: n * n == k {
      var n: nat :| n * n == k;
      ISqrtOfSquare(n);
    }
  }

  /** Reshaping the row-major flattening of a square matrix gives the matrix
      back. */
  lemma ReshapeFlatten(m: Matrix)
    requires IsSquare(m, |m|)
    ensures ReshapeToMatrix(Flatten(m)) == m
  {
    var n := |m|;
    UnflattenFlatten(m, n);
    ISqrtOfSquare(n);
  }

  /** Cell [i][j] of the reshaped matrix is flat[i * n + j]. */
  lemma ReshapeCell(flat: seq<int>, i: nat, j: nat)
    requires var n := |ReshapeToMatrix(flat)|; n * n == |flat| && i < n && j < n
    ensures var m := ReshapeToMatrix(flat); i * |m| + j < |flat| && m[i][j] == flat[i * |m| + j]
  {
    var m := ReshapeToMatrix(flat);
    FlattenCell(m, |m|, i, j);
  }

  // -----------------------------------------------------------------------
  // is_hadamard

  /** Every pair of rows i < j has dot product 0 over the first |m| entries. */
  predicate RowsOrthogonal(m: Matrix)
    requires forall i :: 0 <= i < |m| ==> |m[i]| >= |m|
  {
    forall i, j :: 0 <= i < j < |m| ==> Dot(m[i][..|m|], m[j][..|m|]) == 0
  }

  /** The innermost loop of is_hadamard. */
  method DotProduct(u: Row, v: Row, n: nat) returns (dot: int)
    requires n <= |u| && n <= |v|
    ensures dot == Dot(u[..n], v[..n])
  {
    dot := 0;
    var k := 0;
    while k < n
      invariant 0 <= k <= n
      invariant dot == Dot(u[..k], v[..k])
    {
      assert u[..k + 1][..k] == u[..k] && v[..k + 1][..k] == v[..k];
      dot := dot + u[k] * v[k];
      k := k + 1;
    }
  }

  /** is_hadamard: false on the empty matrix, otherwise true exactly when
      every pair of rows i < j is orthogonal. Entries are not inspected:
      parse_input already admits only +1 and -1. */
  method IsHadamardCheck(matrix: Matrix) returns (ok: bool)
    requires forall i :: 0 <= i < |matrix| ==> |matrix[i]| >= |matrix|
    ensures ok <==> |matrix| > 0 && RowsOrthogonal(matrix)
  {
    var n := |matrix|;
    if n == 0 {
      return false;
    }
    var i := 0;
    while i < n
      invariant 0 <= i <= n
      invariant forall a, b :: 0 <= a < i && a < b < n ==> Dot(matrix[a][..n], matrix[b][..n]) == 0
    {
      var j := i + 1;
      while j < n
        invariant i + 1 <= j <= n
        invariant forall a, b :: 0 <= a < i && a < b < n ==> Dot(matrix[a][..n], matrix[b][..n]) == 0
        invariant forall b :: i < b < j ==> Dot(matrix[i][..n], matrix[b][..n]) == 0
      {
        var dot := DotProduct(matrix[i], matrix[j], n);
        if dot != 0 {
          return false;
        }
        j := j + 1;
      }
      i := i + 1;
    }
    return true;
  }

  /** On a square matrix of signs the checker's test is the Hadamard property:
      orthogonality of the pairs i < j covers the pairs j < i by symmetry. */
  lemma CheckIsHadamard(m: Matrix)
    requires IsSquare(m, |m|) && IsSignMatrix(m)
    ensures |m| > 0 && RowsOrthogonal(m) <==> IsHadamard(m, |m|)
  {
    var n := |m|;
    assert forall i :: 0 <= i < n ==> m[i][..n] == m[i];
    if |m| > 0 && RowsOrthogonal(m) {
      forall i, j | 0 <= i < n && 0 <= j < n && i != j
        ensures Dot(m[i], m[j]) == 0
      {
        if j < i {
          assert Dot(m[j][..n], m[i][..n]) == 0;
          DotSymmetric(m[i], m[j]);
        } else {
          assert Dot(m[i][..n], m[j][..n]) == 0;
        }
      }
    }
  }

  /** The checker is sound: whatever the input, the matrix parse_input and
      reshape_to_matrix build is a square matrix of signs, so is_hadamard
      accepts it exactly when it is a Hadamard matrix; and a non-empty matrix
      holds, row-major, every value the input stream yields. */
  lemma CheckerSound(input: string)
    ensures var m := ReshapeToMatrix(ParseInput(input));
      IsSquare(m, |m|) && IsSignMatrix(m) &&
      ((|m| > 0 && RowsOrthogonal(m)) <==> IsHadamard(m, |m|))
    ensures var m := ReshapeToMatrix(ParseInput(input));
      |m| > 0 ==> AllSigns(Tokens(input)) && Flatten(m) == Tokens(input)
  {
    var flat := ParseInput(input);
    var m := ReshapeToMatrix(flat);
    ReshapeSigns(flat);
    CheckIsHadamard(m);
  }

  /** Reshaping a sequence of signs gives a matrix of signs. */
  lemma ReshapeSigns(flat: seq<int>)
    requires AllSigns(flat)
    ensures IsSignMatrix(ReshapeToMatrix(flat))
  {
    var m := ReshapeToMatrix(flat);
    forall i, j | 0 <= i < |m| && 0 <= j < |m[i]|
      ensures IsSign(m[i][j])
    {
      ReshapeCell(flat, i, j);
    }
  }

  // -----------------------------------------------------------------------
  // The checker against the generator

  /** The space-terminated text of a Hadamard matrix passes every stage of the
      checker: parsing returns its entries, reshaping returns the matrix and
      the orthogonality test accepts it. */
  lemma CheckerAcceptsEncoded(m: Matrix, n: nat)
    requires IsHadamard(m, n)
    ensures ParseInput(Terminated(IntStrings(Flatten(m)))) == Flatten(m)
    ensures ReshapeToMatrix(Flatten(m)) == m
    ensures |m| > 0 && RowsOrthogonal(m)
  {
    var f := Flatten(m);
    FlattenSigns(m);
    assert forall k :: 0 <= k < |f| ==> InIntRange(f[k]);
    TokensOfTerminated(f);
    ReshapeFlatten(m);
    CheckIsHadamard(m);
  }

  /** Flattening a matrix of signs gives a sequence of signs. */
  lemma {:induction false} FlattenSigns(m: Matrix)
    requires IsSignMatrix(m)
    ensures AllSigns(Flatten(m))
    decreases |m|
  {
    if |m| > 0 {
      FlattenSigns(m[1..]);
      var f := Flatten(m);
      assert f == m[0] + Flatten(m[1..]);
      forall k | 0 <= k < |f| ensures IsSign(f[k]) {
        if k < |m[0]| {
          assert IsSign(m[0][k]);
        } else {
          assert f[k] == Flatten(m[1..])[k - |m[0]|];
        }
      }
    }
  }

  /** The checker accepts the generator's output, before and after any
      sequence of in-range random operations. */
  lemma CheckerAcceptsGenerated(n: nat, draws: seq<Operations.Draw>)
    requires Sylvester.IsPowerOfTwo(n) && Operations.AllInRange(draws, n)
    ensures var h := Sylvester.Generate(n); |h| > 0 && RowsOrthogonal(h)
    ensures var m := Operations.ApplyAll(Sylvester.Generate(n), draws); |m| > 0 && RowsOrthogonal(m)
  {
    var h := Sylvester.Generate(n);
    CheckIsHadamard(h);
    Operations.ApplyAllPreservesHadamard(h, n, draws);
    CheckIsHadamard(Operations.ApplyAll(h, draws));
  }
}
