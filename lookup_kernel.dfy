/**
 * The reference (portable) embedding lookup kernel, working in place on a
 * caller-owned output buffer. `base` plays the part of the advancing output
 * pointer: the slice of group `m` is out[base .. base + blockSize].
 */
module EmbeddingLookup {
  import opened LookupSpec

  /** Zero-fills out[from .. from + n] (the per-group `memset`). */
  method ZeroFill(out: array<real>, from: nat, n: nat)
    requires from + n <= out.Length
    modifies out
    ensures forall k :: 0 <= k < out.Length ==> out[k] == if from <= k < from + n then 0.0 else old(out[k])
  {
    var j := 0;
    while j < n
      invariant j <= n
      invariant forall k :: 0 <= k < out.Length ==> out[k] == if from <= k < from + j then 0.0 else old(out[k])
    {
      out[from + j] := 0.0;
      j := j + 1;
    }
  }

  /** y[yFrom + j] += a * x[xFrom + j] for j < n, converting each `x` element to a real. */
  method TypedAxpy<T>(n: nat, a: real, x: seq<T>, xFrom: nat, toVal: T -> real, y: array<real>, yFrom: nat)
    requires xFrom + n <= |x| && yFrom + n <= y.Length
    modifies y
    ensures forall k :: 0 <= k < y.Length ==>
      y[k] == if yFrom <= k < yFrom + n then old(y[k]) + a * toVal(x[xFrom + (k - yFrom)]) else old(y[k])
  {
    var j := 0;
    while j < n
      invariant j <= n
      invariant forall k :: 0 <= k < y.Length ==>
        y[k] == if yFrom <= k < yFrom + j then old(y[k]) + a * toVal(x[xFrom + (k - yFrom)]) else old(y[k])
    {
      y[yFrom + j] := y[yFrom + j] + a * toVal(x[xFrom + j]);
      j := j + 1;
    }
  }

  /** Adds the scalar `b` to every element of out[from .. from + n]. */
  method AddScalar(out: array<real>, from: nat, n: nat, b: real)
    requires from + n <= out.Length
    modifies out
    ensures forall k :: 0 <= k < out.Length ==> out[k] == if from <= k < from + n then old(out[k]) + b else old(out[k])
  {
    var j := 0;
    while j < n
      invariant j <= n
      invariant forall k :: 0 <= k < out.Length ==> out[k] == if from <= k < from + j then old(out[k]) + b else old(out[k])
    {
      out[from + j] := out[from + j] + b;
      j := j + 1;
    }
  }

  /** Multiplies every element of out[from .. from + n] by `alpha`, in place. */
  method Scale(out: array<real>, from: nat, n: nat, alpha: real)
    requires from + n <= out.Length
    modifies out
    ensures forall k :: 0 <= k < out.Length ==> out[k] == if from <= k < from + n then alpha * old(out[k]) else old(out[k])
  {
    var j := 0;
    while j < n
      invariant j <= n
      invariant forall k :: 0 <= k < out.Length ==> out[k] == if from <= k < from + j then alpha * old(out[k]) else old(out[k])
    {
      out[from + j] := alpha * out[from + j];
      j := j + 1;
    }
  }

  /** Adds the entry at cursor position `c` to the slice out[base .. base + blockSize]:
      the weighted row, then (with a scale/bias table) the per-row bias. */
  method AccumulateEntry<T>(args: Inputs<T>, c: nat, out: array<real>, base: nat)
    requires args.WellShaped() && c < args.indexSize && IndicesValid(args, c + 1)
    requires base + args.blockSize <= out.Length
    modifies out
    ensures forall k :: 0 <= k < out.Length ==>
      out[k] == if base <= k < base + args.blockSize then old(out[k]) + Contribution(args, c, k - base) else old(out[k])
  {
    var bs := args.blockSize;
    var idx := args.indices[c];
    var w, b := 1.0, 0.0;
    if args.weights.Some? {
      w := args.weights.value[c];
    }
    if args.scaleBias.Some? {
      b := w * args.scaleBias.value[2 * idx + 1];
      w := w * args.scaleBias.value[2 * idx];
    }
    assert Coefficients(args, c).0 == w && Coefficients(args, c).1 == b;
    var rowStart := idx * bs;
    RowInTable(args, idx);
    TypedAxpy(bs, w, args.input, rowStart, args.toVal, out, base);
    if args.scaleBias.Some? {
      AddScalar(out, base, bs, b);
    }
    forall k | 0 <= k < out.Length && base <= k < base + bs
      ensures out[k] == old(out[k]) + Contribution(args, c, k - base)
    {
      ContributionFromRow(args, c, k - base, w, b, rowStart);
    }
  }

  /** With the multiplier and bias of entry `c` and the start of its table row
      in hand, the entry's contribution to column `j` is read straight off the
      flat table. */
  lemma ContributionFromRow<T>(args: Inputs<T>, c: nat, j: nat, w: real, b: real, rowStart: int)
    requires args.WellShaped() && c < args.indexSize && IndicesValid(args, c + 1) && j < args.blockSize
    requires w == Coefficients(args, c).0 && b == Coefficients(args, c).1
    requires rowStart == args.indices[c] * args.blockSize
    ensures 0 <= rowStart + j < |args.input|
    ensures Contribution(args, c, j) == w * args.toVal(args.input[rowStart + j]) + b
  {
    SliceStartIsProduct(args.indices[c], args.blockSize);
    RowInTable(args, args.indices[c]);
  }

  /** Row `row` of the table occupies input[row * blockSize .. (row + 1) * blockSize]. */
  lemma RowInTable<T>(args: Inputs<T>, row: nat)
    requires args.WellShaped() && row < args.dataSize
    ensures 0 <= row * args.blockSize && row * args.blockSize + args.blockSize <= |args.input|
  {
    SliceStartIsProduct(row, args.blockSize);
    SliceStartMonotone(row + 1, args.dataSize, args.blockSize);
  }

  /** Turns the summed slice of group `m` into its finished slice: divides it
      by the group length when normalising and the length is non-zero. The
      slices of the groups before `m` are already in place, so the output now
      holds those of groups 0..m. */
  method FinishGroup<T>(args: Inputs<T>, m: nat, ghost start: nat, ghost end: nat, out: array<real>, base: nat)
    requires args.WellShaped() && m < args.outputSize
    requires start == Offset(args.lengths, m) && end == Offset(args.lengths, m + 1)
    requires IndicesValid(args, end) && end <= args.indexSize
    requires base == SliceStart(m, args.blockSize) && base + args.blockSize <= out.Length
    requires IndicesValid(args, start) && forall k :: 0 <= k < base ==> out[k] == Flat(args, m)[k]
    requires forall j :: 0 <= j < args.blockSize ==> out[base + j] == GroupSum(args, start, end, j)
    modifies out
    ensures forall k :: 0 <= k < base + args.blockSize ==> out[k] == Flat(args, m + 1)[k]
    ensures forall k :: 0 <= k < out.Length && !(base <= k < base + args.blockSize) ==> out[k] == old(out[k])
  {
    if args.normalizeByLengths && args.lengths[m] != 0 {
      Scale(out, base, args.blockSize, 1.0 / (args.lengths[m] as real));
    }
    forall k | 0 <= k < base + args.blockSize
      ensures out[k] == Flat(args, m + 1)[k]
    {
      FlatStep(args, m, k);
    }
  }

  /** Element k of the slices of groups 0..m: an element of the earlier slices,
      or column k - SliceStart(m) of group m. */
  lemma FlatStep<T>(args: Inputs<T>, m: nat, k: nat)
    requires args.WellShaped() && m < args.outputSize
    requires IndicesValid(args, Offset(args.lengths, m + 1)) && Offset(args.lengths, m + 1) <= args.indexSize
    requires k < SliceStart(m, args.blockSize) + args.blockSize
    ensures Offset(args.lengths, m) <= Offset(args.lengths, m + 1)
    ensures Flat(args, m + 1)[k] ==
      if k < SliceStart(m, args.blockSize) then Flat(args, m)[k] else GroupValue(args, m, k - SliceStart(m, args.blockSize))
  {
  }

  /**
   * Produces the slice of group `m` in out[base .. base + blockSize], reading
   * entries from cursor position `start` on. Returns Ok with the cursor moved
   * past the group, or the check that failed with the cursor where it stopped;
   * a failing check is the one the whole call reports.
   */
  method ReduceGroup<T>(args: Inputs<T>, m: nat, start: nat, out: array<real>, base: nat)
    returns (status: Status, current: nat)
    requires args.WellShaped() && m < args.outputSize
    requires start == Offset(args.lengths, m) && start <= args.indexSize && IndicesValid(args, start)
    requires base == SliceStart(m, args.blockSize) && base + args.blockSize <= out.Length
    requires forall k :: 0 <= k < base ==> out[k] == Flat(args, m)[k]
    modifies out
    ensures status == Ok || status == CursorOverrun || status == IndexOutOfRange
    ensures start <= current <= args.indexSize && IndicesValid(args, current)
    ensures status == Ok ==> current == Offset(args.lengths, m + 1)
    ensures status == Ok ==> forall k :: 0 <= k < base + args.blockSize ==> out[k] == Flat(args, m + 1)[k]
    ensures status == CursorOverrun ==> current == args.indexSize < Offset(args.lengths, m + 1)
    ensures status == IndexOutOfRange ==>
      current < args.indexSize && current < Offset(args.lengths, m + 1) && !InRange(args.indices[current], args.dataSize)
    ensures status != Ok ==> status == ExpectedStatus(args)
    ensures forall k :: 0 <= k < out.Length && !(base <= k < base + args.blockSize) ==> out[k] == old(out[k])
  {
    var bs := args.blockSize;
    ZeroFill(out, base, bs);
    current := start;
    var i: int := 0;
    while i < args.lengths[m]
      invariant 0 <= i <= GroupCount(args.lengths[m])
      invariant current == start + i && current <= args.indexSize
      invariant IndicesValid(args, current)
      invariant forall j :: 0 <= j < bs ==> out[base + j] == GroupSum(args, start, current, j)
      invariant forall k :: 0 <= k < out.Length && !(base <= k < base + bs) ==> out[k] == old(out[k])
    {
      if current >= args.indexSize {
        FailedGroupStatus(args, m, CursorOverrun, current);
        return CursorOverrun, current;
      }
      var idx := args.indices[current];
      if !(0 <= idx && idx < args.dataSize) {
        FailedGroupStatus(args, m, IndexOutOfRange, current);
        return IndexOutOfRange, current;
      }
      AccumulateEntry(args, current, out, base);
      current := current + 1;
      i := i + 1;
    }
    FinishGroup(args, m, start, current, out, base);
    status := Ok;
  }

  /**
   * Writes one `blockSize`-wide slice per group into `out` and reports which
   * fail-fast check, if any, stopped the call. On success, and on a final
   * length mismatch (which is detected only after every group is written), the
   * first outputSize * blockSize elements of `out` hold `Output(args)`; in
   * every case nothing past them is touched.
   */
  method EmbeddingLookupGenericSlow<T>(args: Inputs<T>, out: array<real>) returns (status: Status)
    requires args.WellShaped()
    requires args.outputSize * args.blockSize <= out.Length
    modifies out
    ensures status == ExpectedStatus(args)
    ensures status == Ok || status == LengthMismatch ==>
      && IndicesValid(args, Total(args.lengths))
      && Total(args.lengths) <= args.indexSize
      && out[..args.outputSize * args.blockSize] == Output(args)
    ensures forall k :: args.outputSize * args.blockSize <= k < out.Length ==> out[k] == old(out[k])
  {
    var bs := args.blockSize;
    var current: nat := 0;
    var base: nat := 0;
    var m: nat := 0;
    SliceStartIsProduct(args.outputSize, bs);
    while m < args.outputSize
      invariant m <= args.outputSize
      invariant base == SliceStart(m, bs) && base <= out.Length
      invariant current == Offset(args.lengths, m) && current <= args.indexSize
      invariant IndicesValid(args, current)
      invariant forall k :: 0 <= k < base ==> out[k] == Flat(args, m)[k]
      invariant forall k :: base <= k < out.Length ==> out[k] == old(out[k])
    {
      SliceStartMonotone(m + 1, args.outputSize, bs);
      var groupStatus;
      groupStatus, current := ReduceGroup(args, m, current, out, base);
      if groupStatus != Ok {
        return groupStatus;
      }
      base := base + bs;
      m := m + 1;
    }
    FinalStatus(args, current);
    assert out[..base] == Flat(args, m);
    if current != args.indexSize {
      return LengthMismatch;
    }
    return Ok;
  }

  /** A group that stops at the cursor or index check makes the whole call
      end with that check's status. */
  lemma FailedGroupStatus<T>(args: Inputs<T>, m: nat, status: Status, current: nat)
    requires args.WellShaped() && m < args.outputSize
    requires current <= args.indexSize && IndicesValid(args, current)
    requires status == CursorOverrun || status == IndexOutOfRange
    requires status == CursorOverrun ==> current == args.indexSize < Offset(args.lengths, m + 1)
    requires status == IndexOutOfRange ==>
      current < args.indexSize && current < Offset(args.lengths, m + 1) && !InRange(args.indices[current], args.dataSize)
    ensures status == ExpectedStatus(args)
  {
    OffsetMonotone(args.lengths, m + 1, args.outputSize);
  }

  /** Once every group is written, the final cursor decides between success
      and a length mismatch. */
  lemma FinalStatus<T>(args: Inputs<T>, current: nat)
    requires args.WellShaped()
    requires current == Total(args.lengths) && current <= args.indexSize && IndicesValid(args, current)
    ensures ExpectedStatus(args) == if current == args.indexSize then Ok else LengthMismatch
  {
  }
}
