# Hadamard dataset generator, checker and loaders

A Dafny model of the Hadamard-matrix dataset pipeline, in four parts:

- **Generator** (`data_generator/matrix.py`, `data_generator/hadamard.cpp`, `data_generator/hadamard.h`). Sylvester's doubling construction, `generate_hadamard`. Then the randomiser `apply_random_operations`, which applies row and column swaps and row and column sign flips. Then the three text encodings of a matrix:
  - the row-major binary string;
  - one base-2 integer per row;
  - the space-separated signed values.
- **Checker** (`data_generator/hadamard_checker.cpp`). `parse_input` reads integers with `stream >> value` and accepts only +1 and -1. `reshape_to_matrix` is the perfect-square reshape. `is_hadamard` tests pairwise row orthogonality.
- **Loaders** (`solving/tree.py`, `solving/tree8x8.py`). They decode each line of a dataset file back into a matrix. Every column of that matrix becomes one sample: the features are its first `size - 1` entries and the label is its last entry.

Matrices are `seq<seq<int>>`. The Python functions are pure Dafny functions, and they are the reference definitions. The C++ loops are methods, and each is proved to agree with the Python definition it mirrors, up to two stated differences. The C++ original-string text ends in one extra space. The C++ decimal conversion agrees only when every row fits in an `int`; for wider rows it reports `std::stoi`'s exception (see Findings). Randomness is an explicit input: a sequence of draws `Draw(kind, i, j)`. A Python draw has two distinct indices (`random.sample`). A C++ draw has two independent indices, which may be equal (`rand() % size`). A Python exception raised while decoding a line is modelled as `None`. Each C++ exception from `std::stoi` is a `Failure`.

Modules:

| module | contents |
|---|---|
| `Wrappers` | `Option` and `Result` |
| `Seqs` | reversal and small concatenation facts used by the other modules |
| `Matrices` | the dot product, the Hadamard predicate, row-major `Flatten`/`Unflatten` |
| `Sylvester` | `Generate` and the C++ quadrant-filling method |
| `Operations` | the four operations and their effect on the Hadamard property |
| `Dataset` | `generate_large_dataset` |
| `Text` | decimal text, Python `str.split`, `str.strip`, `int`, and C `isspace` |
| `Encoders` | the three encoders and `std::stoi` in base 2 |
| `Checker` | the checker |
| `Loaders` | the loaders and the three encode/decode round trips |

## Model

| member | source | states |
|---|---|---|
| Matrices.DotSelfSign | data_generator/hadamard.h:9-15 | A row of ±1 entries has dot product with itself equal to its length, so H·Hᵀ has n on its diagonal |
| Matrices.DotSymmetric | data_generator/hadamard_checker.cpp:47-48 | The dot product is symmetric, so testing only the pairs i < j covers every pair of distinct rows |
| Matrices.UnflattenIndex | solving/tree.py:23 | After `reshape((size, size))`, flat value k sits at row k / size, column k % size |
| Matrices.UnflattenFlatten | solving/tree.py:22-23 | Reshaping the row-major flattening of a size×size matrix gives the matrix back |
| Matrices.FlattenUnflatten | solving/tree8x8.py:13-14 | Flattening a reshaped sequence of size² values gives the sequence back |
| Sylvester.Generate | data_generator/matrix.py:4-9 | `generate_hadamard(1)` is `[[1]]`. For every n ≥ 1 the recursion terminates, and the result is a Hadamard matrix whose side is the largest power of two not above n. The side is exactly n when n is a power of two |
| Sylvester.GenerateQuadrants | data_generator/matrix.py:8-9 | For n = 2m the top-left, top-right and bottom-left quadrants equal `generate_hadamard(m)`, and the bottom-right quadrant is its negation |
| Sylvester.BlockRowsOrthogonal | data_generator/matrix.py:9 | Distinct rows of `[[H, H], [H, -H]]` are orthogonal when the distinct rows of H are |
| Sylvester.BlockHadamard | data_generator/matrix.py:9 | Doubling maps an m×m Hadamard matrix to a 2m×2m Hadamard matrix |
| Sylvester.GenerateGram | data_generator/hadamard.h:9-15 | For a power of two n, the rows of the result have dot product n with themselves and 0 with each other |
| Sylvester.GenerateFour | data_generator/matrix.py:4-9 | The 4×4 result, written out |
| Sylvester.GenerateFirstRow | data_generator/matrix.py:8-9 | The first row of every generated matrix is all ones |
| Sylvester.BlockCells | data_generator/hadamard.cpp:20-23 | Cell (r, c) of the block matrix is the quadrant value: `H[r mod m][c mod m]`, negated only in the bottom-right quadrant |
| Sylvester.FillQuadrants | data_generator/hadamard.cpp:16-25 | The C++ double loop over a fresh n×n grid produces exactly `[[H, H], [H, -H]]` |
| Sylvester.QuadrantsMakeBlock | data_generator/hadamard.cpp:16-27 | A grid in which every cell holds its quadrant value, read row by row, is the block matrix |
| Sylvester.GenerateHadamard | data_generator/hadamard.cpp:10-28 | For a power of two n, the C++ recursion returns the same matrix as the Python one, an n×n Hadamard matrix |
| Operations.SwapAt | data_generator/hadamard.cpp:45-47 | Positions i and j of a row trade places and the others stay. With i == j the row is unchanged |
| Operations.SwapRows | data_generator/matrix.py:20-21 | Rows i and j trade places and every other row stays. With i == j nothing changes |
| Operations.SwapCols | data_generator/matrix.py:22-23 | In every row, entries i and j trade places and every other entry stays. With i == j nothing changes |
| Operations.NegateRow | data_generator/matrix.py:24-25 | Row i is negated entry by entry and every other row stays |
| Operations.NegateCol | data_generator/matrix.py:26-27 | Entry i of every row is negated and every other entry stays |
| Operations.Apply | data_generator/hadamard.cpp:40-59 | One operation keeps the matrix square with the same side |
| Operations.ApplyAll | data_generator/hadamard.cpp:35-60 | Any sequence of operations keeps the matrix square with the same side |
| Operations.DotSwapAt | data_generator/hadamard.cpp:44-48 | Swapping the same two positions in two rows keeps their dot product |
| Operations.SwapRowsPreservesHadamard | data_generator/matrix.py:20-21 | A row swap maps a Hadamard matrix to a Hadamard matrix |
| Operations.SwapColsPreservesHadamard | data_generator/matrix.py:22-23 | A column swap maps a Hadamard matrix to a Hadamard matrix |
| Operations.NegateRowPreservesHadamard | data_generator/matrix.py:24-25 | A row flip maps a Hadamard matrix to a Hadamard matrix |
| Operations.NegateColPreservesHadamard | data_generator/matrix.py:26-27 | A column flip maps a Hadamard matrix to a Hadamard matrix |
| Operations.ApplyPreservesHadamard | data_generator/hadamard.cpp:40-59 | Each of the four operations, with any indices in range (equal or not), preserves the Hadamard property |
| Operations.ApplyAllPreservesHadamard | data_generator/hadamard.h:17-24 | Any sequence of operations maps a Hadamard matrix to a Hadamard matrix of the same size |
| Operations.ApplyTwice | data_generator/hadamard.cpp:40-59 | Each operation undoes itself |
| Operations.ApplyAllAppend | data_generator/hadamard.cpp:35-60 | Applying ds and then es is applying ds + es |
| Operations.ApplyAllUndo | data_generator/hadamard.cpp:31-63 | Replaying the draws in reverse order restores the input |
| Operations.ApplyRandomOperations | data_generator/matrix.py:11-29 | With draws of two distinct indices in range, the result is square with the same side, and Hadamard whenever the input is |
| Operations.ApplyRandomOperationsCpp | data_generator/hadamard.cpp:31-63 | The C++ loop on a copy equals the functional model, keeps the shape and keeps the Hadamard property |
| Operations.SwapColumnsLoop | data_generator/hadamard.cpp:44-48 | The `std::swap` loop over k is the column swap |
| Operations.FlipRowLoop | data_generator/hadamard.cpp:49-53 | The `*= -1` loop along row i is the row flip |
| Operations.FlipColumnLoop | data_generator/hadamard.cpp:54-58 | The `*= -1` loop down column i is the column flip |
| Dataset.GenerateLargeDataset | data_generator/matrix.py:31-35 | k samples give exactly k matrices, each a size×size Hadamard matrix |
| Dataset.SampleRestoresBase | data_generator/matrix.py:33-34 | Every sample, with its draws undone in reverse order, is the base matrix `generate_hadamard(size)` |
| Dataset.GeneratedDecimalOverflows | data_generator/hadamard.cpp:77-87 | For a power of two n ≥ 32 the first generated row is worth more than INT_MAX, and `std::stoi` throws out_of_range on it |
| Text.NatToStringValue | data_generator/matrix.py:48 | Reading back the decimal digits `str` writes for a natural number gives the number |
| Text.PyIntOfIntToString | solving/tree.py:22 | `int(str(x)) == x` for every integer x |
| Text.PyInts | solving/tree.py:22 | `map(int, words)` succeeds exactly when every word is an integer literal, and then yields one value per word |
| Text.Words | solving/tree.py:22 | Every piece `split()` returns is non-empty and free of whitespace |
| Text.WordsOfJoin | solving/tree.py:22 | `' '.join(ws).split() == ws` for non-empty, whitespace-free pieces |
| Text.ParseJoinedInts | solving/tree.py:22 | Splitting and parsing the space-joined decimal strings of xs gives xs |
| Text.StripLine | solving/tree.py:22 | `strip()` removes only the newline from a line whose text begins and ends with non-whitespace |
| Text.TerminatedJoin | data_generator/hadamard.cpp:93-95 | Writing each piece followed by a space gives the space-joined text plus one trailing space |
| Encoders.BinaryString | data_generator/matrix.py:37-39 | One character per flattened entry, each '0' or '1' |
| Encoders.BinaryStringCell | data_generator/matrix.py:37-39 | For an n×n matrix the string has n² characters, and character i·n + j is '1' exactly when entry [i][j] is 1 |
| Encoders.MatrixToBinaryStringCpp | data_generator/hadamard.cpp:66-74 | The C++ nested loop writes the same string as the Python function |
| Encoders.BitsValueBound | data_generator/matrix.py:44 | A k-digit binary number is below 2^k |
| Encoders.MatrixToDecimal | data_generator/matrix.py:41-44 | One integer per row, below 2^(row width). It fails exactly when some row is empty, because `int('', 2)` raises |
| Encoders.Stoi2OfBits | data_generator/hadamard.cpp:84 | `stoi` on a row's digits throws invalid_argument for an empty row and out_of_range above INT_MAX. Otherwise it returns the row's base-2 value |
| Encoders.NarrowRowFits | data_generator/hadamard.cpp:84 | Rows of 1 to 31 entries always convert successfully |
| Encoders.LeadingOneBound | data_generator/hadamard.cpp:84 | A binary string with a leading '1' is worth at least 2^(length - 1) |
| Encoders.WideRowOutOfRange | data_generator/hadamard.cpp:84 | A row of 32 or more entries starting with 1 exceeds INT_MAX, and `stoi` throws out_of_range |
| Encoders.RowBits | data_generator/hadamard.cpp:80-83 | The inner loop builds the row's binary digits |
| Encoders.RowToInt | data_generator/hadamard.cpp:80-84 | One row converts successfully exactly when it is non-empty and its value fits an int, and then the result is its value |
| Encoders.MatrixToDecimalCpp | data_generator/hadamard.cpp:77-87 | The C++ function succeeds exactly when every row is non-empty and fits an int. Then it returns the Python function's values |
| Encoders.WriteRow | data_generator/hadamard.cpp:93-95 | Writing one row extends the output by each entry's decimal text followed by a space |
| Encoders.MatrixToOriginalStringCpp | data_generator/hadamard.cpp:90-98 | The C++ text is every flattened entry followed by one space. For a non-empty matrix that is the Python text plus a trailing space; otherwise it is empty |
| Checker.Extract | data_generator/hadamard_checker.cpp:12 | A successful `stream >> value` consumes at least one character and yields a value in int's range |
| Checker.ExtractIntString | data_generator/hadamard_checker.cpp:12 | The decimal text of any int, followed by a space, is extracted as that int, leaving the space unread |
| Checker.ExtractSigned | data_generator/hadamard_checker.cpp:12 | A minus sign followed by the digits of n is extracted as -n |
| Checker.ExtractUnsigned | data_generator/hadamard_checker.cpp:12 | The digits of n are extracted as n |
| Checker.TokensOfTerminated | data_generator/hadamard_checker.cpp:12-18 | The extraction loop reads back exactly the values of space-terminated decimal text |
| Checker.ParseInput | data_generator/hadamard_checker.cpp:7-21 | The result holds only ±1. It is every extracted value, in input order, when all of them are ±1, and it is empty as soon as one is not |
| Checker.ParseFromTokens | data_generator/hadamard_checker.cpp:12-18 | The loop, from any accepted prefix, appends all remaining values or returns empty on the first value that is not ±1 |
| Checker.ISqrt | data_generator/hadamard_checker.cpp:25 | The truncated square root r satisfies r² ≤ k < (r + 1)² |
| Checker.ReshapeSquareRoot | data_generator/hadamard_checker.cpp:25-29 | The length is a perfect square exactly when the truncated root squared gives it back |
| Checker.ReshapeToMatrix | data_generator/hadamard_checker.cpp:24-39 | A perfect-square length gives a square matrix that flattens back to the input. Any other length gives the empty matrix |
| Checker.ReshapeCell | data_generator/hadamard_checker.cpp:34 | Cell [i][j] of the reshaped matrix is `flat[i * n + j]` |
| Checker.ReshapeFlatten | data_generator/hadamard_checker.cpp:31-36 | Reshaping the row-major flattening of a square matrix gives the matrix back |
| Checker.DotProduct | data_generator/hadamard_checker.cpp:49-52 | The accumulation loop computes the dot product of the first n entries |
| Checker.IsHadamardCheck | data_generator/hadamard_checker.cpp:42-61 | The check is false on the empty matrix. Otherwise it is true exactly when every pair of rows i < j has dot product 0 |
| Checker.CheckIsHadamard | data_generator/hadamard_checker.cpp:47-58 | On a non-empty square ±1 matrix, the check holds exactly when the matrix is Hadamard |
| Checker.CheckerAcceptsEncoded | data_generator/hadamard_checker.cpp:69-75 | The space-terminated text of any Hadamard matrix parses to its flattening, reshapes to the matrix and passes the check |
| Checker.CheckerSound | data_generator/hadamard_checker.cpp:69-76 | Whatever the input line, the matrix built by `parse_input` and `reshape_to_matrix` is a square ±1 matrix. `is_hadamard` accepts it exactly when it is Hadamard, and a non-empty matrix holds every value read, in order |
| Checker.ReshapeSigns | data_generator/hadamard_checker.cpp:24-39 | Reshaping a sequence of ±1 values gives a ±1 matrix |
| Checker.CheckerAcceptsGenerated | data_generator/hadamard_checker.cpp:42-61 | The check accepts `generate_hadamard(n)` for every power of two n, before and after any sequence of operations |
| Loaders.ColumnSamples | solving/tree8x8.py:15-17 | Each matrix yields exactly size features and size labels |
| Loaders.ColumnSample | solving/tree.py:24-26 | The feature of column c has size - 1 entries. The feature followed by the label is the whole column c, so the label is `H[size-1][c]` |
| Loaders.DecodeOriginal | solving/tree.py:22-23 | A line decodes exactly when all its words are integers and there are size² of them. The result is size×size |
| Loaders.DecodeOriginalCell | solving/tree8x8.py:13-14 | Value k of the line lands at row k / size, column k % size |
| Loaders.OriginalRoundTrip | solving/tree.py:18-27 | A line written by `matrix_to_original_string` decodes to the matrix it was written from |
| Loaders.DecodeBinary | solving/tree.py:33-34 | A line decodes exactly when its stripped text has at least size² characters and the first size² are digits. The result is size×size |
| Loaders.DecodeBinaryRow | solving/tree.py:34 | Row i is the digit values of characters [i·size, (i + 1)·size) |
| Loaders.UnrelabelRelabel | solving/tree.py:34 | The 0/1 relabelling loses nothing on a ±1 matrix, because mapping 0 back to -1 recovers it |
| Loaders.BitsDigits | solving/tree.py:34 | The characters `matrix_to_binary_string` writes for a row read back as the row with -1 relabelled 0 |
| Loaders.BinaryRoundTrip | solving/tree.py:29-38 | A line written by `matrix_to_binary_string` decodes to the matrix with -1 relabelled 0 |
| Loaders.FormatBinary | solving/tree.py:45 | `format(d, f'0{w}b')` has at least w characters |
| Loaders.FormatBinaryBits | solving/tree.py:45 | Every character `format(d, f'0{w}b')` writes is '0' or '1' |
| Loaders.FormatFixed | solving/tree.py:45 | Below 2^w, `format(d, f'0{w}b')` is exactly the w low-order bits of d, most significant first |
| Loaders.FormatBits | solving/tree.py:45 | Formatting the value of a non-empty binary string at its own width gives the string back |
| Loaders.BitRow | solving/tree.py:45-46 | The row built from an integer has one entry per formatted digit, at least size of them |
| Loaders.BitRowOfRow | solving/tree.py:45-46 | The row rebuilt from a row's base-2 value is the row with -1 relabelled 0 |
| Loaders.DecodeDecimal | solving/tree.py:44-46 | A decoded line has at least size rows of one common width |
| Loaders.FixedBitsValue | solving/tree.py:45 | Read back in base 2, the w low-order bits of a value below 2^w give the value |
| Loaders.BitRowValue | solving/tree.py:45-46 | For a value below 2^size, the loader's row has size entries, and its base-2 value (0 read as -1, then back to '0') is the value |
| Loaders.DecimalDecodeEncode | solving/tree.py:44-46 | A line of at least size integers, each in [0, 2^size), decodes to one size-wide row per integer. Re-encoding that matrix with `matrix_to_decimal`, after reading 0 back as -1, gives the line's integers |
| Loaders.DecimalRoundTrip | solving/tree.py:40-50 | A line of the integers `matrix_to_decimal` writes (space-separated, as `savetxt` writes them) decodes to the matrix with -1 relabelled 0 |
| Loaders.DecimalLineInts | solving/tree.py:44 | The integers of such a line are read back by `strip().split()` and `int` |
| Loaders.Decode | solving/tree.py:18-50 | A line decoded under any of the three encodings covers a size×size matrix |
| Loaders.DecodeAll | solving/tree.py:21-22 | All lines decode exactly when each line does. Then there is one matrix per line, in order |
| Loaders.Load | solving/tree.py:18-27 | Loading succeeds exactly when every line decodes. Then X and y both have lines × size entries |
| Loaders.GatherSample | solving/tree.py:24-27 | Sample l·size + c comes from column c of matrix l |
| Loaders.LoadSample | solving/tree8x8.py:15-18 | When every line decodes, the load succeeds, and sample l·size + c is the feature and label of column c of line l's matrix |

## Left out

- `data_generator/main.cpp` is not modelled. Nor is the module-level script loop in `data_generator/matrix.py` (lines 51-76), which loops over sizes, prints, writes files and calls `np.savetxt`. They are file and console I/O. The `savetxt` line format that the decimal loader reads is modelled as single-space-joined integers followed by a newline.
- Randomness (`random.choice`, `random.sample`, `rand()`) is not modelled. The drawn kinds and indices are an explicit input. The uniformity of the draws, and `rand()`'s modulo bias, are not modelled.
- `Operations.ApplyRandomOperations`: `random.sample(range(1), 2)` raises ValueError for size 1. The model states this as the requirement that every draw has two distinct indices in range, so size 1 admits no draws at all.
- The copy of H made by `apply_random_operations` (Python `H.copy()`, C++ `modified_H = H`) needs no separate statement. Dafny values are immutable, so the argument is unchanged by construction.
- `Sylvester.Generate` requires n ≥ 1. For n = 0 both sources recurse forever: Python stops with RecursionError, and in C++ the behaviour is undefined.
- `train_and_evaluate`, `plot_tree` and the plotting scripts are not modelled. They call scikit-learn and matplotlib and work on floats.
- The checker's `main` is not modelled: `getline`, the console messages and the exit codes are I/O. `Checker.CheckerAcceptsEncoded` covers the three calls `main` chains together.
- `Checker.ISqrt` is the exact integer square root. The C++ code truncates the floating-point `std::sqrt` of the size, which agrees with it on every size below 2^52.
- `Checker.IsHadamardCheck` and `Checker.DotProduct` use unbounded integers. The C++ `int` accumulator cannot overflow on a ±1 matrix of fewer than 2^31 columns.
- `Operations.NegateRow`, `Operations.NegateCol`: `*= -1` on an `int` is unbounded here. The C++ would overflow only on INT_MIN, which never occurs in a ±1 matrix.
- `Text.PyInt` accepts an optional sign and ASCII decimal digits only. Python's `int` also accepts underscores between digits and non-ASCII Unicode digits, which no encoder writes. Python 3.11 and later also reject a decimal literal of more than 4300 digits (`sys.int_info.default_max_str_digits`) with ValueError. The model accepts literals of any length, so the if-and-only-if contracts of `Text.PyInts` and `Loaders.DecodeOriginal` do not hold for such tokens, and `Loaders.DecodeDecimal` accepts lines Python rejects. The encoders write integers of at most 155 digits (2^512 - 1).
- `Encoders.Stoi2` reads the optional sign and binary digits. The leading "0b" prefix that `strtol` accepts in base 2 is not modelled, because the encoder's digits never contain it.
- Loaders: numpy's dtype inference is not modelled, and neither are NumPy's array errors beyond their effect. A ragged row list, or a reshape to the wrong count, is modelled as a failed decode (`None`).

## Findings

| source | as written | input that shows it | evidently intended | confidence | as-written member | corrected member |
|---|---|---|---|---|---|---|
| data_generator/hadamard.cpp:84 | `std::stoi(binary_row, nullptr, 2)` converts each row into a 32-bit `int` and throws `std::out_of_range` for any row worth more than INT_MAX | `generate_hadamard(32)`: its first row is 32 ones, worth 2^32 - 1 | one integer per row for every size the generator supports (4 to 512), as `matrix_to_decimal` in data_generator/matrix.py gives with unbounded integers | high; not executed | Dataset.GeneratedDecimalOverflows | Encoders.MatrixToDecimal |

The as-written conversion is `Encoders.MatrixToDecimalCpp`, with `Encoders.WideRowOutOfRange`. `Dataset.GeneratedDecimalOverflows` proves it fails for every generated matrix of size 32 or more. The corrected encoding is `Encoders.MatrixToDecimal`, which is unbounded. `Loaders.DecimalRoundTrip` proves it decodes back, up to the 0/1 relabelling, for every size, and that is the encoding the loaders use.
