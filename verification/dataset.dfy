/** generate_large_dataset of data_generator/matrix.py: one base matrix,
    then one randomised copy per sample. */
module Dataset {
  import opened Wrappers
  import opened Matrices
  import opened Sylvester
  import opened Operations
  import opened Encoders
  import opened Seqs

  /** The operation budget the dataset generator passes to every sample. */
  const NumOperations: nat := 10

  /** The draws for one sample: exactly NumOperations of them, each a pair of
      distinct indices in [0, size). */
  predicate SampleDraws(ds: seq<Draw>, size: nat) {
    |ds| == NumOperations && AllDistinctInRange(ds, size)
  }

  /** generate_large_dataset(size, |draws|): sample s is Generate(size) after
      the draws of draws[s]. Exactly one size x size Hadamard matrix comes out
      per sample. */
  function GenerateLargeDataset(size: nat, draws: seq<seq<Draw>>): (dataset: seq<Matrix>)
    requires IsPowerOfTwo(size)
    requires forall s :: 0 <= s < |draws| ==> SampleDraws(draws[s], size)
    ensures |dataset| == |draws|
    ensures forall s :: 0 <= s < |dataset| ==> IsHadamard(dataset[s], size)
  {
    var base := Generate(size);
    assert |base| == size;
    forall s | 0 <= s < |draws|
      ensures AllDistinctInRange(draws[s], |base|)
    {
      assert SampleDraws(draws[s], size);
      assert AllDistinctInRange(draws[s], size);
    }
    seq(|draws|, s requires 0 <= s < |draws| => ApplyRandomOperations(base, draws[s]))
  }

  /** Replaying a sample's draws backwards gives back the base matrix, so no
      sample is ever anything but a signed row/column permutation of it. */
  lemma SampleRestoresBase(size: nat, draws: seq<seq<Draw>>, s: nat)
    requires IsPowerOfTwo(size)
    requires forall t :: 0 <= t < |draws| ==> SampleDraws(draws[t], size)
    requires s < |draws|
    ensures AllInRange(Reverse(draws[s]), size)
    ensures ApplyAll(GenerateLargeDataset(size, draws)[s], Reverse(draws[s])) == Generate(size)
  {
    var base := Generate(size);
    assert SampleDraws(draws[s], size);
    assert AllInRange(draws[s], size);
    ApplyAllUndo(base, draws[s]);
  }

  /** The C++ matrix_to_decimal cannot encode any generated matrix of size 32
      or more: the first row is all ones, its value is 2^n - 1 > INT_MAX, and
      stoi throws out_of_range on it. */
  lemma GeneratedDecimalOverflows(n: nat)
    requires IsPowerOfTwo(n) && n >= 32
    ensures RowValue(Generate(n)[0]) > IntMax
    ensures Stoi2(Bits(Generate(n)[0])) == Failure(OutOfRange)
    ensures !(forall i :: 0 <= i < |Generate(n)| ==> |Generate(n)[i]| > 0 && RowValue(Generate(n)[i]) <= IntMax)
  {
    GenerateFirstRow(n);
    WideRowOutOfRange(Generate(n)[0]);
  }
}
