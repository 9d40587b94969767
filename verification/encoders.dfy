/** The three text encodings of a matrix (data_generator/matrix.py and
    data_generator/hadamard.cpp): a row-major binary string, one base-2
    integer per row, and the space-separated signed values. The Python
    functions are the definitions; the C++ loops are methods proved to agree
    with them. */
module Encoders {
  import opened Wrappers
  import opened Matrices
  import opened Text
  import opened Seqs

  /** '1' for an entry equal to 1, '0' for every other value. */
  function BitChar(x: int): char {
    if x == 1 then '1' else '0'
  }

  predicate IsBitChar(c: char) {
    c == '0' || c == '1'
  }

  /** The binary digits of a row of entries, one character per entry. */
  function Bits(v: Row): (s: string)
    ensures |s| == |v|
    ensures forall k :: 0 <= k < |s| ==> IsBitChar(s[k])
  {
    seq(|v|, k requires 0 <= k < |v| => BitChar(v[k]))
  }

  // -----------------------------------------------------------------------
  // matrix_to_binary_string

  /** matrix_to_binary_string: the matrix flattened row-major, one binary
      digit per entry. A string over {'0', '1'} with one character per entry. */
  function BinaryString(m: Matrix): (s: string)
    ensures |s| == |Flatten(m)|
    ensures forall k :: 0 <= k < |s| ==> IsBitChar(s[k])
  {
    Bits(Flatten(m))
  }

  /** For an n x n matrix the string has n * n characters, and character
      i * n + j is '1' exactly when entry [i][j] is 1. */
  lemma BinaryStringCell(m: Matrix, n: nat, i: nat, j: nat)
    requires IsSquare(m, n) && i < n && j < n
    ensures |BinaryString(m)| == n * n && i * n + j < n * n
    ensures BinaryString(m)[i * n + j] == '1' <==> m[i][j] == 1
  {
    FlattenLength(m, n);
    FlattenCell(m, n, i, j);
  }

  /** The C++ matrix_to_binary_string: rows in order, entries in order, one
      character appended per entry. */
  method MatrixToBinaryStringCpp(m: Matrix) returns (s: string)
    ensures s == BinaryString(m)
  {
    s := "";
    var i := 0;
    while i < |m|
      invariant 0 <= i <= |m|
      invariant s == Bits(Flatten(m[..i]))
    {
      var k := 0;
      while k < |m[i]|
        invariant 0 <= k <= |m[i]|
        invariant s == Bits(Flatten(m[..i]) + m[i][..k])
      {
        assert Flatten(m[..i]) + m[i][..k + 1] == (Flatten(m[..i]) + m[i][..k]) + [m[i][k]];
        s := s + [if m[i][k] == 1 then '1' else '0'];
        k := k + 1;
      }
      FlattenSnoc(m, i);
      assert m[i][..k] == m[i];
      i := i + 1;
    }
    assert m[..i] == m;
  }

  // -----------------------------------------------------------------------
  // matrix_to_decimal

  function Pow2(k: nat): (p: nat)
    ensures p >= 1
  {
    if k == 0 then 1 else 2 * Pow2(k - 1)
  }

  function BitValue(c: char): (b: nat)
    ensures b <= 1
  {
    if c == '1' then 1 else 0
  }

  /** int(s, 2) for a string of binary digits, most significant first. */
  function BitsValue(s: string): nat
    decreases |s|
  {
    if |s| == 0 then 0 else 2 * BitsValue(s[..|s| - 1]) + BitValue(s[|s| - 1])
  }

  /** A k-digit binary number is below 2^k. */
  lemma {:induction false} BitsValueBound(s: string)
    ensures BitsValue(s) < Pow2(|s|)
    decreases |s|
  {
    if |s| > 0 {
      BitsValueBound(s[..|s| - 1]);
    }
  }

  /** The base-2 value of a row: its '1'/'0' digits read most significant first. */
  function RowValue(v: Row): nat {
    BitsValue(Bits(v))
  }

  /** matrix_to_decimal (Python): one integer per row, the row's binary digits
      read as a base-2 number. int('', 2) raises ValueError, so a matrix with
      an empty row has no encoding. Each value is below 2^(row width). */
  function MatrixToDecimal(m: Matrix): (r: Option<seq<nat>>)
    ensures r.Some? <==> forall i :: 0 <= i < |m| ==> |m[i]| > 0
    ensures r.Some? ==> |r.value| == |m| && forall i :: 0 <= i < |m| ==> r.value[i] < Pow2(|m[i]|)
  {
    if exists i :: 0 <= i < |m| && |m[i]| == 0 then None
    else
      var vs := seq(|m|, i requires 0 <= i < |m| => RowValue(m[i]));
      assert forall i :: 0 <= i < |m| ==> vs[i] < Pow2(|m[i]|) by {
        forall i | 0 <= i < |m| ensures vs[i] < Pow2(|m[i]|) {
          BitsValueBound(Bits(m[i]));
        }
      }
      Some(vs)
  }

  /** The two exceptions std::stoi throws. */
  datatype StoiError = InvalidArgument | OutOfRange

  const IntMin: int := -0x8000_0000
  const IntMax: int := 0x7FFF_FFFF

  predicate InIntRange(x: int) {
    IntMin <= x <= IntMax
  }

  /** Length of the run of binary digits s starts with. */
  function BitRun(s: string): (k: nat)
    ensures k <= |s|
    ensures forall i :: 0 <= i < k ==> IsBitChar(s[i])
    ensures k < |s| ==> !IsBitChar(s[k])
    decreases |s|
  {
    if |s| > 0 && IsBitChar(s[0]) then 1 + BitRun(s[1..]) else 0
  }

  /** std::stoi(s, nullptr, 2): leading whitespace is skipped, an optional
      sign is read, then the longest run of binary digits. No digit at all
      throws invalid_argument; a value outside int throws out_of_range. */
  function Stoi2(s: string): (r: Result<int, StoiError>)
    ensures r.Success? ==> InIntRange(r.value)
  {
    var t := SkipCSpace(s);
    var signed := |t| > 0 && (t[0] == '-' || t[0] == '+');
    var u := if signed then t[1..] else t;
    var k := BitRun(u);
    if k == 0 then Failure(InvalidArgument)
    else
      var v := if signed && t[0] == '-' then -(BitsValue(u[..k]) as int) else BitsValue(u[..k]);
      if InIntRange(v) then Success(v) else Failure(OutOfRange)
  }

  /** stoi on a row's binary digits: invalid_argument for an empty row,
      out_of_range once the value exceeds INT_MAX, the row value otherwise. */
  lemma Stoi2OfBits(v: Row)
    ensures Stoi2(Bits(v)) ==
      if |v| == 0 then Failure(InvalidArgument)
      else if RowValue(v) > IntMax then Failure(OutOfRange)
      else Success(RowValue(v))
  {
    var s := Bits(v);
    if |v| > 0 {
      assert SkipCSpace(s) == s;
      BitRunAll(s);
      assert s[..|s|] == s;
    }
  }

  lemma {:induction false} BitRunAll(s: string)
    requires forall k :: 0 <= k < |s| ==> IsBitChar(s[k])
    ensures BitRun(s) == |s|
    decreases |s|
  {
    if |s| > 0 {
      BitRunAll(s[1..]);
    }
  }

  /** Rows of 1 to 31 entries always fit stoi's int. */
  lemma NarrowRowFits(v: Row)
    requires 0 < |v| <= 31
    ensures Stoi2(Bits(v)) == Success(RowValue(v))
  {
    BitsValueBound(Bits(v));
    Pow2Monotone(|v|, 31);
    assert Pow2(31) == 0x8000_0000 by {
      Pow2Value31();
    }
    Stoi2OfBits(v);
  }

  /** A binary string with a leading '1' is worth at least 2^(|s| - 1). */
  lemma {:induction false} LeadingOneBound(s: string)
    requires |s| >= 1 && s[0] == '1'
    ensures BitsValue(s) >= Pow2(|s| - 1)
    decreases |s|
  {
    if |s| > 1 {
      LeadingOneBound(s[..|s| - 1]);
    }
  }

  /** A row of 32 or more entries that starts with 1 is beyond INT_MAX, so
      stoi throws out_of_range on it. */
  lemma WideRowOutOfRange(v: Row)
    requires |v| >= 32 && v[0] == 1
    ensures RowValue(v) > IntMax
    ensures Stoi2(Bits(v)) == Failure(OutOfRange)
  {
    LeadingOneBound(Bits(v));
    Pow2Monotone(31, |v| - 1);
    Pow2Value31();
    Stoi2OfBits(v);
  }

  lemma {:induction false} Pow2Monotone(a: nat, b: nat)
    requires a <= b
    ensures Pow2(a) <= Pow2(b)
    decreases b
  {
    if a < b {
      Pow2Monotone(a, b - 1);
    }
  }

  lemma Pow2Value31()
    ensures Pow2(31) == 0x8000_0000
  {
    assert Pow2(8) == 256;
    assert Pow2(16) == 65536 by {
      assert Pow2(12) == 4096;
    }
    assert Pow2(24) == 16777216 by {
      assert Pow2(20) == 1048576;
    }
  }

  /** The C++ matrix_to_decimal: each row becomes a string of binary digits
      and std::stoi(row, nullptr, 2) converts it. It succeeds exactly when
      every row is non-empty and fits an int (every row of 1 to 31 entries
      does), and then agrees with the Python encoding. */
  method MatrixToDecimalCpp(m: Matrix) returns (r: Result<seq<int>, StoiError>)
    ensures r.Success? <==> forall i :: 0 <= i < |m| ==> |m[i]| > 0 && RowValue(m[i]) <= IntMax
    ensures r.Success? ==> MatrixToDecimal(m).Some? && r.value == MatrixToDecimal(m).value
  {
    var out: seq<int> := [];
    var i := 0;
    while i < |m|
      invariant 0 <= i <= |m|
      invariant |out| == i
      invariant forall k :: 0 <= k < i ==> |m[k]| > 0 && RowValue(m[k]) <= IntMax && out[k] == RowValue(m[k])
    {
      var converted := RowToInt(m[i]);
      if converted.Failure? {
        assert !(|m[i]| > 0 && RowValue(m[i]) <= IntMax);
        return Failure(converted.error);
      }
      out := out + [converted.value];
      i := i + 1;
    }
    DecimalOfValues(m, out);
    return Success(out);
  }

  /** Values that agree with every row's binary value are the Python
      encoding. */
  lemma DecimalOfValues(m: Matrix, out: seq<int>)
    requires |out| == |m|
    requires forall k :: 0 <= k < |m| ==> |m[k]| > 0 && out[k] == RowValue(m[k])
    ensures MatrixToDecimal(m).Some? && MatrixToDecimal(m).value == out
  {
  }

  /** One row of the C++ matrix_to_decimal: its binary digits, then stoi. */
  method RowToInt(row: Row) returns (r: Result<int, StoiError>)
    ensures r.Success? <==> |row| > 0 && RowValue(row) <= IntMax
    ensures r.Success? ==> r.value == RowValue(row)
  {
    var digits := RowBits(row);
    Stoi2OfBits(row);
    r := Stoi2(digits);
  }

  /** The inner loop of the C++ matrix_to_decimal: one character per entry,
      '1' for 1 and '0' otherwise. */
  method RowBits(row: Row) returns (s: string)
    ensures s == Bits(row)
  {
    s := "";
    var k := 0;
    while k < |row|
      invariant 0 <= k <= |row|
      invariant s == Bits(row[..k])
    {
      s := s + [if row[k] == 1 then '1' else '0'];
      k := k + 1;
    }
    assert row[..k] == row;
  }

  // -----------------------------------------------------------------------
  // matrix_to_original_string

  /** matrix_to_original_string (Python): the flattened entries in decimal,
      joined by single spaces. */
  function OriginalString(m: Matrix): string {
    Join(IntStrings(Flatten(m)))
  }

  /** The C++ matrix_to_original_string writes every entry followed by one
      space: the Python string plus a trailing space (nothing at all for an
      empty matrix). */
  method MatrixToOriginalStringCpp(m: Matrix) returns (s: string)
    ensures s == Terminated(IntStrings(Flatten(m)))
    ensures |Flatten(m)| > 0 ==> s == OriginalString(m) + " "
    ensures |Flatten(m)| == 0 ==> s == ""
  {
    s := "";
    var i := 0;
    while i < |m|
      invariant 0 <= i <= |m|
      invariant s == Terminated(IntStrings(Flatten(m[..i])))
    {
      s := WriteRow(s, Flatten(m[..i]), m[i]);
      FlattenSnoc(m, i);
      i := i + 1;
    }
    assert m[..i] == m;
    if |Flatten(m)| > 0 {
      TerminatedJoin(IntStrings(Flatten(m)));
    }
  }

  /** The inner loop of the C++ matrix_to_original_string: `out << val << " "`
      for each entry of one row, after the entries already written. */
  method WriteRow(s0: string, written: seq<int>, row: Row) returns (s: string)
    requires s0 == Terminated(IntStrings(written))
    ensures s == Terminated(IntStrings(written + row))
  {
    s := s0;
    var k := 0;
    assert written + row[..k] == written;
    while k < |row|
      invariant 0 <= k <= |row|
      invariant s == Terminated(IntStrings(written + row[..k]))
    {
      var xs := written + row[..k];
      ExtendPrefix(written, row, k);
      TerminatedIntsSnoc(xs, row[k]);
      s := s + IntToString(row[k]) + " ";
      k := k + 1;
    }
    assert row[..k] == row;
  }
}
