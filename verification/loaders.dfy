/** The dataset loaders of the training scripts (solving/tree.py and
    solving/tree8x8.py): each line of a dataset file is decoded back into a
    matrix, and every column of that matrix becomes one sample whose features
    are the column's first size - 1 entries and whose label is its last. An
    exception raised while loading (a malformed integer, a failed reshape, an
    index out of range) is modelled as None. */
module Loaders {
  import opened Wrappers
  import opened Matrices
  import opened Text
  import opened Encoders
  import opened Seqs

  /** The sample features X and labels y, in the order they are appended. */
  datatype Samples = Samples(x: seq<Row>, y: seq<int>)

  /** h has at least size rows, each with at least size entries, so every
      index the sample extraction uses exists. */
  predicate Covers(h: Matrix, size: nat) {
    |h| >= size && forall r :: 0 <= r < |h| ==> |h[r]| >= size
  }

  /** Column c of the first size rows of h. */
  function Column(h: Matrix, size: nat, c: nat): (col: Row)
    requires Covers(h, size) && c < size
    ensures |col| == size && forall r :: 0 <= r < size ==> col[r] == h[r][c]
  {
    seq(size, r requires 0 <= r < size => h[r][c])
  }

  /** `for col in range(size)`: X gets H[:size-1, col] and y gets
      H[size-1, col], one sample per column. */
  function ColumnSamples(h: Matrix, size: nat): (s: Samples)
    requires Covers(h, size)
    ensures |s.x| == size && |s.y| == size
  {
    if size == 0 then Samples([], [])
    else
      Samples(
        seq(size, c requires 0 <= c < size => seq(size - 1, r requires 0 <= r < size - 1 => h[r][c])),
        seq(size, c requires 0 <= c < size => h[size - 1][c]))
  }

  /** The feature of column c is its first size - 1 entries and the label its
      last, so together they are the whole column. */
  lemma ColumnSample(h: Matrix, size: nat, c: nat)
    requires Covers(h, size) && c < size
    ensures |ColumnSamples(h, size).x[c]| == size - 1
    ensures ColumnSamples(h, size).x[c] + [ColumnSamples(h, size).y[c]] == Column(h, size, c)
  {
    var s := ColumnSamples(h, size);
    assert forall r :: 0 <= r < size - 1 ==> s.x[c][r] == h[r][c];
  }

  // -----------------------------------------------------------------------
  // Line decoders

  /** load_original_data: the stripped line is split into integers and
      reshaped row-major into size x size; a token that is not an integer or
      a count other than size * size raises. */
  function DecodeOriginal(line: string, size: nat): (r: Option<Matrix>)
    ensures r.Some? ==> IsSquare(r.value, size) && Covers(r.value, size)
    ensures r.Some? <==> PyInts(Words(Strip(line))).Some? && |PyInts(Words(Strip(line))).value| == size * size
  {
    match PyInts(Words(Strip(line)))
    case None => None
    case Some(values) =>
      if |values| != size * size then None else Some(Unflatten(values, size))
  }

  /** The digit values of a string of decimal digits (numpy's int conversion
      of one-character strings). */
  function DigitValues(s: string): (vs: seq<int>)
    requires AllDigits(s)
    ensures |vs| == |s| && forall k :: 0 <= k < |s| ==> vs[k] == DigitValue(s[k])
  {
    seq(|s|, k requires 0 <= k < |s| => DigitValue(s[k]))
  }

  /** load_binary_data: row i is the character slice [i * size, (i + 1) * size)
      of the stripped line, each character read with int(). A line shorter
      than size * size yields a short or empty row, which numpy rejects; a
      non-digit character fails int(); characters past size * size are never
      read. */
  function DecodeBinary(line: string, size: nat): (r: Option<Matrix>)
    ensures r.Some? ==> IsSquare(r.value, size) && Covers(r.value, size)
    ensures r.Some? <==> |Strip(line)| >= size * size && AllDigits(Strip(line)[..size * size])
  {
    var s := Strip(line);
    if |s| < size * size || !AllDigits(s[..size * size]) then None
    else Some(Unflatten(DigitValues(s[..size * size]), size))
  }

  /** Row i of the decoded binary line is the digit values of its i-th slice of
      size characters, [i * size, (i + 1) * size). */
  lemma DecodeBinaryRow(line: string, size: nat, i: nat)
    requires DecodeBinary(line, size).Some? && i < size
    ensures i * size + size <= |Strip(line)| && AllDigits(Strip(line)[i * size..i * size + size])
    ensures DecodeBinary(line, size).value[i] == DigitValues(Strip(line)[i * size..i * size + size])
  {
    var s := Strip(line);
    var f := DigitValues(s[..size * size]);
    var h := DecodeBinary(line, size).value;
    assert h == Unflatten(f, size);
    SliceBound(i, size);
    var slice := s[i * size..i * size + size];
    forall j | 0 <= j < size
      ensures IsDigit(slice[j]) && h[i][j] == DigitValue(slice[j])
    {
      RowMajorBound(i, j, size, size);
      assert slice[j] == s[..size * size][i * size + j];
    }
  }

  /** Row i's slice ends inside the first size * size characters. */
  lemma SliceBound(i: nat, size: nat)
    requires i < size
    ensures i * size + size <= size * size
  {
    RowMajorBound(i, size - 1, size, size);
  }

  /** Zero characters. */
  function Zeros(k: nat): (s: string)
    ensures |s| == k && forall i :: 0 <= i < k ==> s[i] == '0'
  {
    seq(k, i => '0')
  }

  /** The binary digits of d without leading zeros, "0" for zero (Python's
      format(d, 'b')). */
  function BinDigits(d: nat): (s: string)
    ensures |s| >= 1
    decreases d
  {
    if d < 2 then [BitChar(d)] else BinDigits(d / 2) + [BitChar(d % 2)]
  }

  /** format(d, f'0{w}b') for d >= 0: the binary digits of d, padded on the
      left with '0' to at least w characters. */
  function FormatBinary(d: nat, w: nat): (s: string)
    ensures |s| >= w
  {
    var digits := BinDigits(d);
    if |digits| >= w then digits else Zeros(w - |digits|) + digits
  }

  /** The w low-order binary digits of d, most significant first. */
  function FixedBits(d: nat, w: nat): (s: string)
    ensures |s| == w
  {
    if w == 0 then "" else FixedBits(d / 2, w - 1) + [BitChar(d % 2)]
  }

  /** Every digit FormatBinary writes is '0' or '1'. */
  lemma {:induction false} BinDigitsAreBits(d: nat)
    ensures forall k :: 0 <= k < |BinDigits(d)| ==> IsBitChar(BinDigits(d)[k])
    decreases d
  {
    if d >= 2 {
      BinDigitsAreBits(d / 2);
    }
  }

  lemma {:induction false} FixedBitsOfZero(k: nat)
    ensures FixedBits(0, k) == Zeros(k)
  {
    if k > 0 {
      FixedBitsOfZero(k - 1);
      assert Zeros(k) == Zeros(k - 1) + ['0'];
    }
  }

  /** A value below 2^w has at most w binary digits, and padding them to w
      gives its w low-order bits. */
  lemma {:induction false} PaddedDigits(d: nat, w: nat)
    requires w >= 1 && d < Pow2(w)
    ensures |BinDigits(d)| <= w
    ensures Zeros(w - |BinDigits(d)|) + BinDigits(d) == FixedBits(d, w)
    decreases d
  {
    if d < 2 {
      FixedBitsOfZero(w - 1);
      assert d / 2 == 0 && d % 2 == d;
    } else {
      assert w >= 2;
      PaddedDigits(d / 2, w - 1);
      var z := Zeros(w - 1 - |BinDigits(d / 2)|);
      assert Zeros(w - |BinDigits(d)|) == z;
      assert z + BinDigits(d) == (z + BinDigits(d / 2)) + [BitChar(d % 2)];
    }
  }

  /** The w low-order bits of the value of a w-digit binary string are the
      string itself. */
  lemma {:induction false} FixedBitsOfValue(b: string)
    requires forall k :: 0 <= k < |b| ==> IsBitChar(b[k])
    ensures FixedBits(BitsValue(b), |b|) == b
    decreases |b|
  {
    if |b| > 0 {
      var p := b[..|b| - 1];
      var v := BitsValue(b);
      assert v / 2 == BitsValue(p) && v % 2 == BitValue(b[|b| - 1]);
      FixedBitsOfValue(p);
      assert b == p + [b[|b| - 1]];
    }
  }

  /** Formatting the value of a non-empty binary string at its own width
      gives the string back: format(int(b, 2), f'0{len(b)}b') == b. */
  lemma FormatBits(b: string)
    requires |b| >= 1 && forall k :: 0 <= k < |b| ==> IsBitChar(b[k])
    ensures FormatBinary(BitsValue(b), |b|) == b
  {
    BitsValueBound(b);
    FormatFixed(BitsValue(b), |b|);
    FixedBitsOfValue(b);
  }

  /** Below 2^w, format(d, f'0{w}b') is exactly the w low-order bits of d. */
  lemma FormatFixed(d: nat, w: nat)
    requires w >= 1 && d < Pow2(w)
    ensures FormatBinary(d, w) == FixedBits(d, w)
  {
    PaddedDigits(d, w);
    var digits := BinDigits(d);
    if |digits| == w {
      assert Zeros(0) + digits == digits;
    }
  }

  /** All rows have the same length (numpy builds a 2-D array from them). */
  predicate SameWidths(rows: Matrix) {
    forall i, j :: 0 <= i < |rows| && 0 <= j < |rows| ==> |rows[i]| == |rows[j]|
  }

  /** The characters of format(d, f'0{w}b') are all binary digits. */
  lemma FormatBinaryBits(d: nat, w: nat)
    ensures forall k :: 0 <= k < |FormatBinary(d, w)| ==> IsBitChar(FormatBinary(d, w)[k])
  {
    BinDigitsAreBits(d);
    var digits := BinDigits(d);
    if |digits| < w {
      var z := Zeros(w - |digits|);
      forall k | 0 <= k < |z + digits| ensures IsBitChar((z + digits)[k]) {
        if k >= |z| { assert (z + digits)[k] == digits[k - |z|]; }
      }
    }
  }

  /** The row numpy builds from one integer d of a decimal line: the
      characters of format(d, f'0{size}b'), each read with int(). */
  function BitRow(d: nat, size: nat): (row: Row)
    ensures |row| == |FormatBinary(d, size)| && |row| >= size
  {
    FormatBinaryBits(d, size);
    DigitValues(FormatBinary(d, size))
  }

  predicate NonNegative(ds: seq<int>) {
    forall k :: 0 <= k < |ds| ==> ds[k] >= 0
  }

  /** load_decimal_data: each integer of the stripped line becomes the row
      BitRow. A negative integer is formatted with a leading '-', which int()
      rejects; rows of different lengths cannot form an array; fewer than
      size rows leave H[size - 1] out of range. */
  function DecodeDecimal(line: string, size: nat): (r: Option<Matrix>)
    ensures r.Some? ==> Covers(r.value, size) && SameWidths(r.value)
  {
    match PyInts(Words(Strip(line)))
    case None => None
    case Some(ds) =>
      if !NonNegative(ds) then None
      else
        var rows := seq(|ds|, k requires 0 <= k < |ds| => BitRow(ds[k], size));
        if !SameWidths(rows) || |rows| < size then None else Some(rows)
  }

  // -----------------------------------------------------------------------
  // Loading a file

  datatype Encoding = Original | Binary | Decimal

  function Decode(enc: Encoding, line: string, size: nat): (r: Option<Matrix>)
    ensures r.Some? ==> Covers(r.value, size)
  {
    match enc
    case Original => DecodeOriginal(line, size)
    case Binary => DecodeBinary(line, size)
    case Decimal => DecodeDecimal(line, size)
  }

  predicate AllCover(hs: seq<Matrix>, size: nat) {
    forall l :: 0 <= l < |hs| ==> Covers(hs[l], size)
  }

  /** Every line decoded, or None when some line fails. */
  function DecodeAll(enc: Encoding, lines: seq<string>, size: nat): (r: Option<seq<Matrix>>)
    ensures r.Some? <==> forall l :: 0 <= l < |lines| ==> Decode(enc, lines[l], size).Some?
    ensures r.Some? ==> |r.value| == |lines| && AllCover(r.value, size)
    ensures r.Some? ==> forall l :: 0 <= l < |lines| ==> r.value[l] == Decode(enc, lines[l], size).value
    decreases |lines|
  {
    if |lines| == 0 then Some([])
    else
      match Decode(enc, lines[0], size)
      case None => None
      case Some(h) =>
        match DecodeAll(enc, lines[1..], size)
        case None => None
        case Some(hs) =>
          assert forall l :: 1 <= l < |lines| ==> lines[l] == lines[1..][l - 1];
          Some([h] + hs)
  }

  /** The samples of the matrices, matrix after matrix, column after column. */
  function Gather(hs: seq<Matrix>, size: nat): (s: Samples)
    requires AllCover(hs, size)
    ensures |s.x| == |hs| * size && |s.y| == |hs| * size
    decreases |hs|
  {
    if |hs| == 0 then Samples([], [])
    else
      var first := ColumnSamples(hs[0], size);
      var rest := Gather(hs[1..], size);
      assert |hs| * size == size + (|hs| - 1) * size;
      Samples(first.x + rest.x, first.y + rest.y)
  }

  /** load_original_data, load_binary_data and load_decimal_data over the
      lines of a file (as `for line in f` yields them): every line contributes
      size samples, so X and y have equal length; any line that fails to
      decode makes the whole load fail. */
  function Load(enc: Encoding, lines: seq<string>, size: nat): (r: Option<Samples>)
    ensures r.Some? <==> forall l :: 0 <= l < |lines| ==> Decode(enc, lines[l], size).Some?
    ensures r.Some? ==> |r.value.x| == |lines| * size && |r.value.y| == |lines| * size
  {
    match DecodeAll(enc, lines, size)
    case None => None
    case Some(hs) => Some(Gather(hs, size))
  }

  /** Sample l * size + c of the gathered samples comes from column c of
      matrix l. */
  lemma {:induction false} GatherSample(hs: seq<Matrix>, size: nat, l: nat, c: nat, i: nat)
    requires AllCover(hs, size) && l < |hs| && c < size && i == l * size + c
    ensures i < |hs| * size
    ensures var s := Gather(hs, size); s.x[i] + [s.y[i]] == Column(hs[l], size, c)
    decreases l
  {
    RowMajorBound(l, c, |hs|, size);
    var s := Gather(hs, size);
    var first := ColumnSamples(hs[0], size);
    var rest := Gather(hs[1..], size);
    assert s.x == first.x + rest.x && s.y == first.y + rest.y;
    if l == 0 {
      assert l * size + c == c;
      ConcatLeft(first.x, rest.x, c);
      ConcatLeft(first.y, rest.y, c);
      ColumnSample(hs[0], size, c);
    } else {
      var k := (l - 1) * size + c;
      GatherSample(hs[1..], size, l - 1, c, k);
      assert l * size + c == size + k by {
        assert l * size == size + (l - 1) * size;
      }
      ConcatRight(first.x, rest.x, k);
      ConcatRight(first.y, rest.y, k);
      assert hs[1..][l - 1] == hs[l];
    }
  }

  /** Sample l * size + c of a load comes from column c of the matrix on
      line l: its feature is the column without its last entry and its label
      is that last entry. */
  lemma LoadSample(enc: Encoding, lines: seq<string>, size: nat, l: nat, c: nat, i: nat)
    requires forall k :: 0 <= k < |lines| ==> Decode(enc, lines[k], size).Some?
    requires l < |lines| && c < size && i == l * size + c
    ensures Load(enc, lines, size).Some? && Covers(Decode(enc, lines[l], size).value, size)
    ensures var s := Load(enc, lines, size).value;
      i < |s.x| && i < |s.y| && s.x[i] + [s.y[i]] == Column(Decode(enc, lines[l], size).value, size, c)
  {
    var hs := DecodeAll(enc, lines, size).value;
    GatherSample(hs, size, l, c, i);
  }

  // -----------------------------------------------------------------------
  // Round trips with the encoders

  /** The 0/1 relabelling the binary encodings apply: 1 stays 1, anything
      else becomes 0. */
  function Relabel(m: Matrix): (r: Matrix)
    ensures |r| == |m| && forall i :: 0 <= i < |m| ==> |r[i]| == |m[i]|
  {
    seq(|m|, i requires 0 <= i < |m| =>
      seq(|m[i]|, j requires 0 <= j < |m[i]| => if m[i][j] == 1 then 1 else 0))
  }

  /** The inverse relabelling back to signs: 0 becomes -1. */
  function Unrelabel(m: Matrix): (r: Matrix)
    ensures |r| == |m| && forall i :: 0 <= i < |m| ==> |r[i]| == |m[i]|
  {
    seq(|m|, i requires 0 <= i < |m| =>
      seq(|m[i]|, j requires 0 <= j < |m[i]| => if m[i][j] == 1 then 1 else -1))
  }

  /** On a matrix of signs the relabelling loses nothing. */
  lemma UnrelabelRelabel(m: Matrix)
    requires IsSignMatrix(m)
    ensures Unrelabel(Relabel(m)) == m
  {
    var r := Unrelabel(Relabel(m));
    forall i | 0 <= i < |m|
      ensures r[i] == m[i]
    {
      assert forall j :: 0 <= j < |m[i]| ==> r[i][j] == m[i][j];
    }
  }

  /** The digits Bits writes for a row, read back, are the relabelled row. */
  lemma BitsDigits(v: Row)
    ensures AllDigits(Bits(v))
    ensures DigitValues(Bits(v)) == seq(|v|, j requires 0 <= j < |v| => if v[j] == 1 then 1 else 0)
  {
  }

  /** A line written by matrix_to_original_string loads back as the matrix. */
  lemma OriginalRoundTrip(m: Matrix, n: nat)
    requires IsSquare(m, n)
    ensures DecodeOriginal(OriginalString(m) + "\n", n) == Some(m)
  {
    var f := Flatten(m);
    JoinedIntsEnds(f);
    StripLine(OriginalString(m));
    ParseJoinedInts(f);
    UnflattenFlatten(m, n);
  }

  /** Value k of an original-format line lands at row k / size, column
      k % size. */
  lemma DecodeOriginalCell(line: string, size: nat, k: nat)
    requires DecodeOriginal(line, size).Some?
    requires k < size * size
    ensures size > 0 && k / size < size && k % size < size
    ensures DecodeOriginal(line, size).value[k / size][k % size] == PyInts(Words(Strip(line))).value[k]
  {
    UnflattenIndex(PyInts(Words(Strip(line))).value, size, k);
  }

  /** A line written by matrix_to_binary_string loads back as the matrix with
      -1 relabelled to 0. */
  lemma BinaryRoundTrip(m: Matrix, n: nat)
    requires IsSquare(m, n)
    ensures DecodeBinary(BinaryString(m) + "\n", n) == Some(Relabel(m))
  {
    var s := BinaryString(m);
    FlattenLength(m, n);
    StripLine(s);
    assert s[..n * n] == s;
    assert AllDigits(s);
    var h := Unflatten(DigitValues(s), n);
    assert DecodeBinary(s + "\n", n) == Some(h);
    forall i, j | 0 <= i < n && 0 <= j < n
      ensures h[i][j] == Relabel(m)[i][j]
    {
      BinaryStringCell(m, n, i, j);
    }
    assert forall i :: 0 <= i < n ==> h[i] == Relabel(m)[i];
    assert h == Relabel(m);
  }

  /** A line of the integers matrix_to_decimal writes (numpy's savetxt with
      fmt '%d' and a space delimiter) loads back as the matrix with -1
      relabelled to 0. */
  lemma DecimalRoundTrip(m: Matrix, n: nat)
    requires IsSquare(m, n)
    ensures MatrixToDecimal(m).Some?
    ensures DecodeDecimal(Join(IntStrings(MatrixToDecimal(m).value)) + "\n", n) == Some(Relabel(m))
  {
    var ds := MatrixToDecimal(m).value;
    var line := Join(IntStrings(ds)) + "\n";
    DecimalLineInts(ds);
    var rows := seq(|ds|, k requires 0 <= k < |ds| => BitRow(ds[k], n));
    forall k | 0 <= k < n
      ensures rows[k] == Relabel(m)[k]
    {
      BitRowOfRow(m[k]);
    }
    assert rows == Relabel(m);
    assert SameWidths(rows);
    assert DecodeDecimal(line, n) == Some(rows);
  }

  /** The integers of a line written by savetxt are read back by split() and
      int(). */
  lemma DecimalLineInts(ds: seq<int>)
    ensures PyInts(Words(Strip(Join(IntStrings(ds)) + "\n"))) == Some(ds)
  {
    JoinedIntsEnds(ds);
    StripLine(Join(IntStrings(ds)));
    ParseJoinedInts(ds);
  }

  /** The decimal loader turns the integer of a non-empty row back into the
      row's 0/1 digits. */
  lemma BitRowOfRow(v: Row)
    requires |v| >= 1
    ensures BitRow(RowValue(v), |v|) == seq(|v|, j requires 0 <= j < |v| => if v[j] == 1 then 1 else 0)
  {
    FormatBits(Bits(v));
    BitsDigits(v);
  }

  /** The w low-order bits of a value below 2^w, read back in base 2, give
      the value; each of them is a binary digit. */
  lemma {:induction false} FixedBitsValue(d: nat, w: nat)
    requires d < Pow2(w)
    ensures BitsValue(FixedBits(d, w)) == d
    ensures forall k :: 0 <= k < w ==> IsBitChar(FixedBits(d, w)[k])
    decreases w
  {
    if w > 0 {
      FixedBitsValue(d / 2, w - 1);
      assert FixedBits(d, w)[..w - 1] == FixedBits(d / 2, w - 1);
    }
  }

  /** Reading a string of binary digits as digit values, with 0 read back as
      -1, and writing its binary digits again gives the string back. */
  lemma BitsOfDigitSigns(f: string)
    requires forall k :: 0 <= k < |f| ==> IsBitChar(f[k])
    ensures AllDigits(f)
    ensures Bits(seq(|f|, j requires 0 <= j < |f| => if DigitValues(f)[j] == 1 then 1 else -1)) == f
  {
    assert AllDigits(f);
    var v := seq(|f|, j requires 0 <= j < |f| => if DigitValues(f)[j] == 1 then 1 else -1);
    forall j | 0 <= j < |f|
      ensures Bits(v)[j] == f[j]
    {
      assert DigitValues(f)[j] == DigitValue(f[j]);
      if f[j] == '1' {
        assert v[j] == 1;
      } else {
        assert DigitValue(f[j]) == 0 && v[j] == -1;
      }
    }
  }

  /** The row the decimal loader builds for a value below 2^size has size
      entries, and with 0 read back as -1 its base-2 value is that value. */
  lemma BitRowValue(d: nat, size: nat)
    requires size >= 1 && d < Pow2(size)
    ensures |BitRow(d, size)| == size
    ensures RowValue(seq(size, j requires 0 <= j < size => if BitRow(d, size)[j] == 1 then 1 else -1)) == d
  {
    FormatFixed(d, size);
    FixedBitsValue(d, size);
    var f := FixedBits(d, size);
    BitsOfDigitSigns(f);
    assert BitRow(d, size) == DigitValues(f);
  }

  /** Decoding a decimal line and encoding the result again with
      matrix_to_decimal, after reading 0 back as -1, gives the line's
      integers: every line of at least size integers in [0, 2^size) is the
      encoding of the size-wide matrix it loads as. */
  lemma DecimalDecodeEncode(line: string, size: nat)
    requires size >= 1 && PyInts(Words(Strip(line))).Some?
    requires var ds := PyInts(Words(Strip(line))).value;
      |ds| >= size && forall k :: 0 <= k < |ds| ==> 0 <= ds[k] < Pow2(size)
    ensures DecodeDecimal(line, size).Some?
    ensures var h := DecodeDecimal(line, size).value;
      |h| == |PyInts(Words(Strip(line))).value| &&
      (forall k :: 0 <= k < |h| ==> |h[k]| == size) &&
      MatrixToDecimal(Unrelabel(h)) == Some(PyInts(Words(Strip(line))).value)
  {
    var ds := PyInts(Words(Strip(line))).value;
    var rows := seq(|ds|, k requires 0 <= k < |ds| => BitRow(ds[k], size));
    forall k | 0 <= k < |ds|
      ensures |rows[k]| == size
      ensures RowValue(Unrelabel(rows)[k]) == ds[k]
    {
      BitRowValue(ds[k], size);
    }
    assert DecodeDecimal(line, size) == Some(rows);
    DecimalOfValues(Unrelabel(rows), ds);
  }
}
