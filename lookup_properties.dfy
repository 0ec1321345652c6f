/**
 * Properties of the lookup specification: how the shared cursor splits the
 * index sequence into groups, when each fail-fast check fires, where each
 * group's slice lies in the output, and the algebra of weights, scale/bias
 * dequantization and length normalisation.
 */
module LookupProperties {
  import opened LookupSpec

  /* ---------------------------------------------------------------------- */
  /* Segmentation by the shared cursor                                       */

  /** The group among 0..n-1 that reads cursor position `c`. */
  function GroupContaining(lengths: seq<int>, c: nat, n: nat): (m: nat)
    requires n <= |lengths| && c < Offset(lengths, n)
    ensures m < n && Offset(lengths, m) <= c < Offset(lengths, m + 1)
    decreases n
  {
    if Offset(lengths, n - 1) <= c then n - 1 else GroupContaining(lengths, c, n - 1)
  }

  /** Distinct groups read disjoint ranges of the cursor, in group order, so
      the group reading a given position is unique. */
  lemma GroupsDisjoint(lengths: seq<int>, m1: nat, m2: nat)
    requires m1 < m2 < |lengths|
    ensures Offset(lengths, m1 + 1) <= Offset(lengths, m2)
  {
    OffsetMonotone(lengths, m1 + 1, m2);
  }

  /** Group `m` reads exactly lengths[m] consecutive positions when lengths[m]
      is positive and none otherwise, starting where group m-1 stopped. */
  lemma GroupRange(lengths: seq<int>, m: nat)
    requires m < |lengths|
    ensures Offset(lengths, m + 1) - Offset(lengths, m) == (if lengths[m] > 0 then lengths[m] else 0)
  {
  }

  /** Where a group starts depends only on the lengths before it. */
  lemma {:induction false} OffsetOfPrefix(lengths: seq<int>, m: nat)
    requires m <= |lengths|
    ensures Offset(lengths, m) == Offset(lengths[..m], m)
    decreases m
  {
    if m > 0 {
      OffsetOfPrefix(lengths, m - 1);
      OffsetOfPrefix(lengths[..m], m - 1);
      assert lengths[..m][..m - 1] == lengths[..m - 1];
      OffsetOfPrefix(lengths[..m - 1], m - 1);
      assert lengths[..m - 1][..m - 1] == lengths[..m - 1];
    }
  }

  /* ---------------------------------------------------------------------- */
  /* The three fail-fast checks                                              */

  /** A call succeeds exactly when the lengths add up to index_size and every
      index names a row of the table. */
  lemma StatusOkIff<T>(args: Inputs<T>)
    requires args.WellShaped()
    ensures ExpectedStatus(args) == Ok <==>
      Total(args.lengths) == args.indexSize && IndicesValid(args, args.indexSize)
  {
  }

  /** Lengths that do not add up to index_size always make the call fail:
      too many through the cursor check, too few through the final check,
      unless an invalid index is read first. */
  lemma LengthSumMismatchFails<T>(args: Inputs<T>)
    requires args.WellShaped() && Total(args.lengths) != args.indexSize
    ensures ExpectedStatus(args) != Ok
    ensures Total(args.lengths) > args.indexSize ==>
      ExpectedStatus(args) == CursorOverrun || ExpectedStatus(args) == IndexOutOfRange
    ensures Total(args.lengths) < args.indexSize ==>
      ExpectedStatus(args) == LengthMismatch || ExpectedStatus(args) == IndexOutOfRange
    ensures IndicesValid(args, args.indexSize) ==>
      ExpectedStatus(args) == (if Total(args.lengths) > args.indexSize then CursorOverrun else LengthMismatch)
  {
  }

  /** One invalid index at a position the groups read fails the call, whatever
      the indices around it are. */
  lemma BadIndexFails<T>(args: Inputs<T>, c: nat)
    requires args.WellShaped() && c < args.indexSize && c < Total(args.lengths)
    requires !InRange(args.indices[c], args.dataSize)
    ensures ExpectedStatus(args) == IndexOutOfRange
  {
  }

  /** An invalid index that no group reaches is never looked at. */
  lemma UnreadIndexIgnored<T>(args: Inputs<T>, c: nat)
    requires args.WellShaped() && Total(args.lengths) <= c < args.indexSize
    requires IndicesValid(args, Total(args.lengths))
    ensures ExpectedStatus(args) == LengthMismatch
  {
  }

  /* ---------------------------------------------------------------------- */
  /* Output layout                                                           */

  /** Column `j` of group `mm`'s slice sits at position mm * blockSize + j of the laid-out slices. */
  lemma {:induction false} FlatAt<T>(args: Inputs<T>, m: nat, mm: nat, j: nat)
    requires args.WellShaped() && m <= args.outputSize
    requires IndicesValid(args, Offset(args.lengths, m)) && Offset(args.lengths, m) <= args.indexSize
    requires mm < m && j < args.blockSize
    ensures Offset(args.lengths, mm + 1) <= Offset(args.lengths, m)
    ensures SliceStart(mm, args.blockSize) + j < |Flat(args, m)|
    ensures Flat(args, m)[SliceStart(mm, args.blockSize) + j] == GroupValue(args, mm, j)
    decreases m
  {
    OffsetMonotone(args.lengths, mm + 1, m);
    OffsetMonotone(args.lengths, m - 1, m);
    if mm < m - 1 {
      SliceStartMonotone(mm + 1, m - 1, args.blockSize);
      FlatAt(args, m - 1, mm, j);
    } else {
      assert Flat(args, m) == Flat(args, m - 1) + SliceValues(args, m - 1);
    }
  }

  /** Every element of the output of a successful call is the value of the
      group and column it belongs to. */
  lemma OutputAt<T>(args: Inputs<T>, m: nat, j: nat)
    requires args.WellShaped() && ExpectedStatus(args) == Ok
    requires m < args.outputSize && j < args.blockSize
    ensures |Output(args)| == args.outputSize * args.blockSize
    ensures Offset(args.lengths, m + 1) <= Total(args.lengths)
    ensures m * args.blockSize + j < |Output(args)| && Output(args)[m * args.blockSize + j] == GroupValue(args, m, j)
  {
    OffsetMonotone(args.lengths, m + 1, args.outputSize);
    FlatAt(args, args.outputSize, m, j);
    SliceStartIsProduct(m, args.blockSize);
    SliceStartIsProduct(args.outputSize, args.blockSize);
  }

  /** A group that reads no entries yields an all-zero slice, normalised or not. */
  lemma EmptyGroupIsZero<T>(args: Inputs<T>, m: nat, j: nat)
    requires args.WellShaped() && m < args.outputSize && j < args.blockSize
    requires IndicesValid(args, Offset(args.lengths, m + 1)) && Offset(args.lengths, m + 1) <= args.indexSize
    requires args.lengths[m] <= 0
    ensures GroupValue(args, m, j) == 0.0
  {
  }

  /* ---------------------------------------------------------------------- */
  /* Weights, scale/bias and normalisation                                   */

  /** Reference: the plain sum of column `j` of the rows selected at cursor
      positions start..end-1, added front to back. */
  function RowSum<T>(args: Inputs<T>, start: nat, end: nat, j: nat): real
    requires args.WellShaped() && start <= end <= args.indexSize && IndicesValid(args, end)
    requires j < args.blockSize
    decreases end - start
  {
    if start == end then 0.0 else TableAt(args, args.indices[start], j) + RowSum(args, start + 1, end, j)
  }

  lemma {:induction false} RowSumLast<T>(args: Inputs<T>, start: nat, end: nat, j: nat)
    requires args.WellShaped() && start < end <= args.indexSize && IndicesValid(args, end)
    requires j < args.blockSize
    ensures RowSum(args, start, end, j) == RowSum(args, start, end - 1, j) + TableAt(args, args.indices[end - 1], j)
    decreases end - start
  {
    if start + 1 < end {
      RowSumLast(args, start + 1, end, j);
    }
  }

  /** Without weights and without a scale/bias table, a group's sum is the plain
      sum of the rows it selects (every weight is 1). */
  lemma {:induction false} UnweightedGroupIsRowSum<T>(args: Inputs<T>, start: nat, end: nat, j: nat)
    requires args.WellShaped() && start <= end <= args.indexSize && IndicesValid(args, end)
    requires j < args.blockSize
    requires args.weights.None? && args.scaleBias.None?
    ensures GroupSum(args, start, end, j) == RowSum(args, start, end, j)
    decreases end - start
  {
    if start < end {
      UnweightedGroupIsRowSum(args, start, end - 1, j);
      RowSumLast(args, start, end, j);
    }
  }

  /** `other` is the call `args` with a weights buffer of the right length
      passed in: same table, conversion, indices, lengths, scale/bias and sizes. */
  ghost predicate Reweighted<T>(args: Inputs<T>, other: Inputs<T>) {
    && other.blockSize == args.blockSize && other.outputSize == args.outputSize
    && other.indexSize == args.indexSize && other.dataSize == args.dataSize
    && other.input == args.input && other.toVal == args.toVal
    && other.indices == args.indices && other.lengths == args.lengths
    && other.scaleBias == args.scaleBias && other.normalizeByLengths == args.normalizeByLengths
    && other.weights.Some? && |other.weights.value| == args.indexSize
  }

  lemma ReweightedShape<T>(args: Inputs<T>, other: Inputs<T>, end: nat)
    requires args.WellShaped() && IndicesValid(args, end) && Reweighted(args, other)
    ensures other.WellShaped() && IndicesValid(other, end)
  {
  }

  /** Leaving the weights out is the same as passing a weight of 1 for every entry. */
  lemma {:induction false} AbsentWeightsAreOnes<T>(args: Inputs<T>, ones: Inputs<T>, start: nat, end: nat, j: nat)
    requires args.WellShaped() && start <= end <= args.indexSize && IndicesValid(args, end)
    requires j < args.blockSize && args.weights.None?
    requires Reweighted(args, ones) && forall c :: 0 <= c < args.indexSize ==> ones.weights.value[c] == 1.0
    ensures ones.WellShaped()
    ensures GroupSum(ones, start, end, j) == GroupSum(args, start, end, j)
    decreases end - start
  {
    ReweightedShape(args, ones, end);
    if start < end {
      AbsentWeightsAreOnes(args, ones, start, end - 1, j);
      assert TableAt(ones, ones.indices[end - 1], j) == TableAt(args, args.indices[end - 1], j);
    }
  }

  /** Scaling one entry's weight by `k` scales what it adds to every column by `k`. */
  lemma EntryWeightScaling<T>(args: Inputs<T>, scaled: Inputs<T>, k: real, c: nat, j: nat)
    requires args.WellShaped() && c < args.indexSize && IndicesValid(args, c + 1)
    requires j < args.blockSize && args.weights.Some?
    requires Reweighted(args, scaled)
    requires scaled.weights.value[c] == k * args.weights.value[c]
    ensures scaled.WellShaped()
    ensures Contribution(scaled, c, j) == k * Contribution(args, c, j)
  {
    ReweightedShape(args, scaled, c + 1);
    var w := args.weights.value[c];
    var x := TableAt(args, args.indices[c], j);
    assert TableAt(scaled, args.indices[c], j) == x;
    if args.scaleBias.Some? {
      var idx := args.indices[c];
      var s, b := args.scaleBias.value[2 * idx], args.scaleBias.value[2 * idx + 1];
      LinearInWeight(k, w, s, x, b);
    } else {
      assert Contribution(scaled, c, j) == (k * w) * x + 0.0;
    }
  }

  /** The scale and bias terms of one entry are both linear in its weight. */
  lemma LinearInWeight(k: real, w: real, s: real, x: real, b: real)
    ensures ((k * w) * s) * x + (k * w) * b == k * ((w * s) * x + w * b)
  {
    calc {
      ((k * w) * s) * x + (k * w) * b;
      k * ((w * s) * x) + k * (w * b);
      k * ((w * s) * x + w * b);
    }
  }

  /** With a scale/bias table the entry at cursor position `c` adds
      w * scale * raw + w * bias to every column, where w is its original weight:
      the bias is added once per selected row, the same for every column. */
  lemma ScaleBiasContribution<T>(args: Inputs<T>, c: nat, j: nat)
    requires args.WellShaped() && c < args.indexSize && IndicesValid(args, c + 1)
    requires j < args.blockSize && args.scaleBias.Some?
    ensures var idx := args.indices[c];
      var w := if args.weights.Some? then args.weights.value[c] else 1.0;
      Contribution(args, c, j) ==
        w * args.scaleBias.value[2 * idx] * TableAt(args, idx, j) + w * args.scaleBias.value[2 * idx + 1]
  {
  }

  /** With normalisation, a non-empty unweighted group yields the mean of the
      rows it selects. */
  lemma NormalizedGroupIsMean<T>(args: Inputs<T>, m: nat, j: nat)
    requires args.WellShaped() && m < args.outputSize && j < args.blockSize
    requires IndicesValid(args, Offset(args.lengths, m + 1)) && Offset(args.lengths, m + 1) <= args.indexSize
    requires args.weights.None? && args.scaleBias.None?
    requires args.normalizeByLengths && args.lengths[m] > 0
    ensures GroupValue(args, m, j) ==
      RowSum(args, Offset(args.lengths, m), Offset(args.lengths, m + 1), j) / (args.lengths[m] as real)
  {
    UnweightedGroupIsRowSum(args, Offset(args.lengths, m), Offset(args.lengths, m + 1), j);
  }

  /** Without normalisation a group's slice is its sum. */
  lemma UnnormalizedGroupIsSum<T>(args: Inputs<T>, m: nat, j: nat)
    requires args.WellShaped() && m < args.outputSize && j < args.blockSize
    requires IndicesValid(args, Offset(args.lengths, m + 1)) && Offset(args.lengths, m + 1) <= args.indexSize
    requires !args.normalizeByLengths
    ensures GroupValue(args, m, j) == GroupSum(args, Offset(args.lengths, m), Offset(args.lengths, m + 1), j)
  {
  }

  /* ---------------------------------------------------------------------- */
  /* A worked example                                                        */

  /** The table [[1,2],[3,4],[5,6]] read through indices [0,1,2] split by lengths [2,1]. */
  function SmallTable(normalize: bool): (args: Inputs<real>)
    ensures args.WellShaped() && IndicesValid(args, 3)
    ensures Total(args.lengths) == 3 && Offset(args.lengths, 1) == 2
  {
    Inputs(2, 2, 3, 3, [1.0, 2.0, 3.0, 4.0, 5.0, 6.0], (x: real) => x, [0, 1, 2], [2, 1], None, None, normalize)
  }

  /** The groups of the small table are rows 0+1 and row 2. */
  lemma SmallTableSums()
    ensures ExpectedStatus(SmallTable(false)) == Ok
    ensures Output(SmallTable(false)) == [4.0, 6.0, 5.0, 6.0]
  {
    var args := SmallTable(false);
    assert GroupSum(args, 0, 2, 0) == 4.0 && GroupSum(args, 0, 2, 1) == 6.0;
    assert GroupSum(args, 2, 3, 0) == 5.0 && GroupSum(args, 2, 3, 1) == 6.0;
    assert SliceValues(args, 0) == [4.0, 6.0];
    assert SliceValues(args, 1) == [5.0, 6.0];
  }

  /** Normalised, the groups of the small table are the means of their rows. */
  lemma SmallTableMeans()
    ensures Output(SmallTable(true)) == [2.0, 3.0, 5.0, 6.0]
  {
    var args := SmallTable(true);
    assert GroupSum(args, 0, 2, 0) == 4.0 && GroupSum(args, 0, 2, 1) == 6.0;
    assert GroupSum(args, 2, 3, 0) == 5.0 && GroupSum(args, 2, 3, 1) == 6.0;
    assert SliceValues(args, 0) == [2.0, 3.0];
    assert SliceValues(args, 1) == [5.0, 6.0];
  }
}
