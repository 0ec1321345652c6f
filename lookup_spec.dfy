/**
 * Specification of the reference embedding lookup-and-reduce kernel.
 *
 * A flat, row-major table of `dataSize` rows of `blockSize` elements is read
 * through a flat index sequence that `lengths` splits into `outputSize`
 * consecutive groups. Each group yields one `blockSize`-wide output slice:
 * the (optionally weighted, optionally scale/bias dequantized, optionally
 * length-normalised) sum of the rows it selects. Element values are exact
 * reals; an input element of type `T` is converted by `toVal`.
 */
module LookupSpec {

  datatype Option<+X> = None | Some(value: X)

  /** How a call ends: normally, or at one of the three fail-fast checks. */
  datatype Status = Ok | CursorOverrun | IndexOutOfRange | LengthMismatch

  /** The read-only arguments of one call, with their caller-asserted sizes. */
  datatype Inputs<!T> = Inputs(
    blockSize: nat,
    outputSize: nat,
    indexSize: nat,
    dataSize: nat,
    input: seq<T>,
    toVal: T -> real,
    indices: seq<int>,
    lengths: seq<int>,
    weights: Option<seq<real>>,
    scaleBias: Option<seq<real>>,
    normalizeByLengths: bool)
  {
    /** Every buffer holds exactly the number of elements its size argument
        declares; the table holds dataSize rows of blockSize elements. */
    predicate WellShaped() {
      && |input| == SliceStart(dataSize, blockSize)
      && |indices| == indexSize
      && |lengths| == outputSize
      && (weights.Some? ==> |weights.value| == indexSize)
      && (scaleBias.Some? ==> |scaleBias.value| == 2 * dataSize)
    }
  }

  /** Number of index entries group `length` consumes: the inner loop runs
      `length` times, and not at all for a negative length. */
  function GroupCount(length: int): nat {
    if length > 0 then length else 0
  }

  /** Cursor position at which group `m` starts: entries consumed by groups 0..m-1. */
  function Offset(lengths: seq<int>, m: nat): nat
    requires m <= |lengths|
  {
    if m == 0 then 0 else Offset(lengths, m - 1) + GroupCount(lengths[m - 1])
  }

  /** Entries all groups together ask for. */
  function Total(lengths: seq<int>): nat {
    Offset(lengths, |lengths|)
  }

  predicate InRange(idx: int, dataSize: nat) {
    0 <= idx < dataSize
  }

  /** The first `end` index entries exist and each names a row of the table. */
  predicate IndicesValid<T>(args: Inputs<T>, end: nat) {
    end <= |args.indices| && forall c :: 0 <= c < end ==> InRange(args.indices[c], args.dataSize)
  }

  /** Which of the fail-fast checks fires, stated without reference to the loop:
      the cursor visits positions 0, 1, ... in order, so an invalid index among
      the positions actually read wins; otherwise the sum of the group lengths
      decides between overrun, mismatch and success. */
  function ExpectedStatus<T>(args: Inputs<T>): Status
    requires args.WellShaped()
  {
    var demanded := Total(args.lengths);
    var read := if demanded < args.indexSize then demanded else args.indexSize;
    if exists c :: 0 <= c < read && !InRange(args.indices[c], args.dataSize) then IndexOutOfRange
    else if demanded > args.indexSize then CursorOverrun
    else if demanded < args.indexSize then LengthMismatch
    else Ok
  }

  /** Weight of the entry at cursor position `c`; 1 when no weights are given. */
  function EntryWeight<T>(args: Inputs<T>, c: nat): real
    requires args.WellShaped() && c < args.indexSize
  {
    if args.weights.Some? then args.weights.value[c] else 1.0
  }

  /** Multiplier and additive bias of the entry at cursor position `c`. With a
      scale/bias table the bias is taken from the original weight before the
      weight is rescaled. */
  function Coefficients<T>(args: Inputs<T>, c: nat): (real, real)
    requires args.WellShaped() && c < args.indexSize && IndicesValid(args, c + 1)
  {
    var w := EntryWeight(args, c);
    if args.scaleBias.Some? then
      var idx := args.indices[c];
      (w * args.scaleBias.value[2 * idx], w * args.scaleBias.value[2 * idx + 1])
    else
      (w, 0.0)
  }

  /** Row `row`, column `j` of the table, as a real. */
  function TableAt<T>(args: Inputs<T>, row: nat, j: nat): real
    requires args.WellShaped() && row < args.dataSize && j < args.blockSize
  {
    SliceStartMonotone(row + 1, args.dataSize, args.blockSize);
    args.toVal(args.input[SliceStart(row, args.blockSize) + j])
  }

  /** What the entry at cursor position `c` adds to column `j` of its group's slice. */
  function Contribution<T>(args: Inputs<T>, c: nat, j: nat): real
    requires args.WellShaped() && c < args.indexSize && IndicesValid(args, c + 1)
    requires j < args.blockSize
  {
    var (w, b) := Coefficients(args, c);
    w * TableAt(args, args.indices[c], j) + b
  }

  /** Column `j` of the sum of the contributions of cursor positions start..end-1. */
  function GroupSum<T>(args: Inputs<T>, start: nat, end: nat, j: nat): real
    requires args.WellShaped() && start <= end <= args.indexSize && IndicesValid(args, end)
    requires j < args.blockSize
    decreases end - start
  {
    if start == end then 0.0 else GroupSum(args, start, end - 1, j) + Contribution(args, end - 1, j)
  }

  /** Column `j` of the finished slice of group `m`: its sum, divided by its
      length when normalising and the length is non-zero. */
  function GroupValue<T>(args: Inputs<T>, m: nat, j: nat): real
    requires args.WellShaped() && m < args.outputSize && j < args.blockSize
    requires IndicesValid(args, Offset(args.lengths, m + 1)) && Offset(args.lengths, m + 1) <= args.indexSize
  {
    var sum := GroupSum(args, Offset(args.lengths, m), Offset(args.lengths, m + 1), j);
    var length := args.lengths[m];
    if args.normalizeByLengths && length != 0 then (1.0 / (length as real)) * sum else sum
  }

  /** The finished slice of group `m`. */
  function SliceValues<T>(args: Inputs<T>, m: nat): (s: seq<real>)
    requires args.WellShaped() && m < args.outputSize
    requires IndicesValid(args, Offset(args.lengths, m + 1)) && Offset(args.lengths, m + 1) <= args.indexSize
    ensures |s| == args.blockSize
    ensures forall j :: 0 <= j < args.blockSize ==> s[j] == GroupValue(args, m, j)
  {
    seq(args.blockSize, j requires 0 <= j < args.blockSize => GroupValue(args, m, j))
  }

  /** The output slices of groups 0..m-1, laid out one after the other. */
  function Flat<T>(args: Inputs<T>, m: nat): (s: seq<real>)
    requires args.WellShaped() && m <= args.outputSize
    requires IndicesValid(args, Offset(args.lengths, m)) && Offset(args.lengths, m) <= args.indexSize
    ensures |s| == SliceStart(m, args.blockSize)
  {
    if m == 0 then [] else Flat(args, m - 1) + SliceValues(args, m - 1)
  }

  /** The whole output buffer a successful call leaves behind. */
  function Output<T>(args: Inputs<T>): seq<real>
    requires args.WellShaped()
    requires IndicesValid(args, Total(args.lengths)) && Total(args.lengths) <= args.indexSize
  {
    Flat(args, args.outputSize)
  }

  /* ---------------------------------------------------------------------- */
  /* The shared cursor                                                       */

  /** The cursor never moves backwards: later groups start no earlier. */
  lemma {:induction false} OffsetMonotone(lengths: seq<int>, a: nat, b: nat)
    requires a <= b <= |lengths|
    ensures Offset(lengths, a) <= Offset(lengths, b)
    decreases b - a
  {
    if a < b {
      OffsetMonotone(lengths, a, b - 1);
    }
  }

  /* ---------------------------------------------------------------------- */
  /* Index arithmetic of the row-major layouts                               */

  /** Where the k-th `width`-wide block of a flat row-major buffer starts:
      table row k, or the output slice of group k. */
  function SliceStart(k: nat, width: nat): nat {
    if k == 0 then 0 else SliceStart(k - 1, width) + width
  }

  lemma {:induction false} SliceStartIsProduct(k: nat, width: nat)
    ensures SliceStart(k, width) == k * width
  {
    if k > 0 {
      SliceStartIsProduct(k - 1, width);
      assert (k - 1) * width + width == k * width;
    }
  }

  /** Later blocks start no earlier; block a ends no later than block b starts when a < b. */
  lemma {:induction false} SliceStartMonotone(a: nat, b: nat, width: nat)
    requires a <= b
    ensures SliceStart(a, width) <= SliceStart(b, width)
    decreases b - a
  {
    if a < b {
      SliceStartMonotone(a, b - 1, width);
    }
  }
}
