# Embedding lookup kernel — a verified Dafny model

This project models the portable reference kernel of caffe2's sparse embedding
lookup, `EmbeddingLookupGenericSlow` (`caffe2/perfkernels/embedding_lookup.cc`).
The kernel reads a flat, row-major table of `data_size` rows of `block_size`
elements. It reads a flat `indices` sequence, which `lengths` splits into
`output_size` consecutive groups. For each group it writes one `block_size`-wide
slice of `out`. That slice is the sum of the rows the group selects. Each row
may be weighted (`weights`). Each row may also be dequantized by a per-row
scale and bias (`scale_bias`). The slice may be divided by the group length
(`normalize_by_lengths`). One cursor, `current`, runs across all groups and
is never reset. Three fail-fast checks stop the call:

- the cursor reaching `index_size` before a group is complete;
- an index outside `[0, data_size)`;
- a final cursor that is not equal to `index_size`.

Layout:

- `lookup_spec.dfy`, module `LookupSpec`: the data model and the reference
  definitions. `Inputs<T>` holds the call's read-only arguments and sizes;
  `Status` is the outcome. `Offset` gives the cursor position where each group
  starts. `ExpectedStatus` says which check fires, without reference to the
  loop. `Coefficients`, `Contribution`, `GroupSum` and `GroupValue` give each
  output element. `Flat` and `Output` lay the slices out one after another.
- `lookup_kernel.dfy`, module `EmbeddingLookup`: the kernel as an imperative
  method over `out: array<real>`. It has the source's nested loop, its
  cursor, and the in-place zero-fill, multiply-add, bias add and scale. The
  method is proved to return `ExpectedStatus` and, on success or a length
  mismatch, to leave `Output` in `out`.
- `lookup_properties.dfy`, module `LookupProperties`: lemmas about the
  reference definitions. They cover segmentation, the error classes, the
  output layout, and the algebra of weights, scale/bias and normalisation.

Element values are exact reals. A table element of type `T` becomes a real
through the `toVal` field of `Inputs`. `toVal` stands for the
`InType`-to-`OutType` conversion inside `TypedAxpy`. Weights and scale/bias
entries are reals.

Two behaviours of the code worth stating:

- `lengths` holds C `int`s, and the code never rejects a negative length.
  Its inner loop `i < lengths[m]` simply runs zero times. The model
  therefore reads a group of negative length as an empty group
  (`GroupCount`). When normalising, that group's zero slice is multiplied by
  `1/lengths[m]` and stays zero.
- On failure the code leaves `out` partly written; the model does not claim
  otherwise. The final length check runs only after every group is written.
  So on `LengthMismatch` the model proves that `out` holds the complete
  output, just as on `Ok`.

## Model

| member | source | states |
|---|---|---|
| `EmbeddingLookup.EmbeddingLookupGenericSlow` | caffe2/perfkernels/embedding_lookup.cc:28-93 | the returned status is `ExpectedStatus` (invalid index read first, else cursor overrun when the lengths add up to more than index_size, else a length mismatch when they add up to less, else success); on success and on a length mismatch, the first output_size * block_size elements of `out` are `Output`; no element past them changes |
| `EmbeddingLookup.ReduceGroup` | caffe2/perfkernels/embedding_lookup.cc:43-85 | one group: the cursor advances by exactly the group's count; when it completes, the output holds the slices of groups 0..m; overrun is reported exactly when the cursor reaches index_size inside the group; an out-of-range index is reported at the cursor position holding it; a failing check is the status `ExpectedStatus` gives the whole call; nothing outside the slice changes |
| `EmbeddingLookup.ZeroFill` | caffe2/perfkernels/embedding_lookup.cc:43 | the slice becomes all zeros; every other element is unchanged |
| `EmbeddingLookup.AccumulateEntry` | caffe2/perfkernels/embedding_lookup.cc:63-77 | every slice element grows by the entry's contribution: weight times row element, plus the bias when a scale/bias table is given; the rest of `out` is unchanged |
| `EmbeddingLookup.TypedAxpy` | caffe2/perfkernels/embedding_lookup.cc:72-73 | y[yFrom + j] gains a * toVal(x[xFrom + j]) for each j < n; every other element is unchanged |
| `EmbeddingLookup.AddScalar` | caffe2/perfkernels/embedding_lookup.cc:75-77 | every slice element gains the scalar bias once; every other element is unchanged |
| `EmbeddingLookup.Scale` | caffe2/perfkernels/embedding_lookup.cc:83-84 | every slice element is multiplied by alpha; every other element is unchanged |
| `EmbeddingLookup.FinishGroup` | caffe2/perfkernels/embedding_lookup.cc:81-86 | a summed slice becomes the group's finished slice: scaled by 1/lengths[m] when normalising and the length is non-zero, otherwise left as it is; with the earlier slices in place, out[0 .. (m+1) * block_size) then holds the slices of groups 0..m; nothing outside the slice changes |
| `EmbeddingLookup.FlatStep` | caffe2/perfkernels/embedding_lookup.cc:86 | element k of the slices of groups 0..m is an element of the earlier slices when k < m * block_size, and column k - m * block_size of group m otherwise |
| `EmbeddingLookup.ContributionFromRow` | caffe2/perfkernels/embedding_lookup.cc:63-73 | with w and b computed as the code does, entry c adds w * input[indices[c] * block_size + j] + b to column j, which is its `Contribution` |
| `EmbeddingLookup.RowInTable` | caffe2/perfkernels/embedding_lookup.cc:72-73 | a valid row index selects block_size elements that lie inside the table |
| `EmbeddingLookup.FailedGroupStatus` | caffe2/perfkernels/embedding_lookup.cc:46-56 | a group stopped by the cursor check or the index check gives the status `ExpectedStatus` names for the whole call |
| `EmbeddingLookup.FinalStatus` | caffe2/perfkernels/embedding_lookup.cc:88-92 | a definitional step: once every group is written, `ExpectedStatus` is success exactly when the final cursor equals index_size, and a length mismatch otherwise |
| `LookupSpec.OffsetMonotone` | caffe2/perfkernels/embedding_lookup.cc:41-80 | the cursor is never reset: later groups start at or after earlier ones |
| `LookupSpec.Flat` | caffe2/perfkernels/embedding_lookup.cc:86 | the output pointer moves by block_size per group: the slices of m groups fill exactly m * block_size elements |
| `LookupProperties.GroupContaining` | caffe2/perfkernels/embedding_lookup.cc:41-80 | every cursor position the groups read belongs to some group m, with Offset(m) <= c < Offset(m+1) |
| `LookupProperties.GroupsDisjoint` | caffe2/perfkernels/embedding_lookup.cc:41-80 | distinct groups read disjoint cursor ranges, in group order, so the group holding a position is unique |
| `LookupProperties.GroupRange` | caffe2/perfkernels/embedding_lookup.cc:45 | a definitional step: group m reads lengths[m] consecutive positions when lengths[m] is positive, and none otherwise |
| `LookupProperties.OffsetOfPrefix` | caffe2/perfkernels/embedding_lookup.cc:41-80 | the position where group m starts depends only on lengths[0..m) |
| `LookupProperties.StatusOkIff` | caffe2/perfkernels/embedding_lookup.cc:46-92 | a call succeeds if and only if the lengths add up to index_size and every index names a table row |
| `LookupProperties.LengthSumMismatchFails` | caffe2/perfkernels/embedding_lookup.cc:46-92 | lengths that do not add up to index_size always fail: an excess through the cursor check, a shortfall through the final check, unless an invalid index is read first; with all indices valid, exactly that check fires |
| `LookupProperties.BadIndexFails` | caffe2/perfkernels/embedding_lookup.cc:47-56 | one out-of-range index at any position the groups read fails the call with IndexOutOfRange, whatever surrounds it |
| `LookupProperties.UnreadIndexIgnored` | caffe2/perfkernels/embedding_lookup.cc:88-92 | an index past the positions the groups read is never checked; with valid consumed indices the call ends with a length mismatch |
| `LookupProperties.FlatAt` | caffe2/perfkernels/embedding_lookup.cc:86 | column j of group mm lies at position mm * block_size + j of the laid-out slices |
| `LookupProperties.OutputAt` | caffe2/perfkernels/embedding_lookup.cc:42-86 | after a successful call, out[m * block_size + j] is column j of group m's finished value |
| `LookupProperties.EmptyGroupIsZero` | caffe2/perfkernels/embedding_lookup.cc:43-45 | a group with lengths[m] <= 0 yields an all-zero slice, whether or not it is normalised |
| `LookupProperties.UnweightedGroupIsRowSum` | caffe2/perfkernels/embedding_lookup.cc:63-73 | with no weights and no scale/bias table, a group's sum equals the plain sum of the selected rows |
| `LookupProperties.AbsentWeightsAreOnes` | caffe2/perfkernels/embedding_lookup.cc:63-66 | omitting the weights gives the same sums as passing weight 1 for every entry |
| `LookupProperties.EntryWeightScaling` | caffe2/perfkernels/embedding_lookup.cc:63-77 | scaling one entry's weight by k scales its contribution by k, bias included |
| `LookupProperties.ScaleBiasContribution` | caffe2/perfkernels/embedding_lookup.cc:67-77 | unfolds the definition: with a scale/bias table, a row adds w * scale * raw + w * bias to each column; w is the original weight, and the bias is the same for every column |
| `LookupProperties.NormalizedGroupIsMean` | caffe2/perfkernels/embedding_lookup.cc:81-85 | normalised, a non-empty unweighted group yields the sum of its selected rows divided by lengths[m] |
| `LookupProperties.UnnormalizedGroupIsSum` | caffe2/perfkernels/embedding_lookup.cc:81 | unfolds the definition: without normalisation a group's slice is its sum, unscaled |
| `LookupProperties.SmallTableSums` | caffe2/perfkernels/embedding_lookup.cc:28-93 | table [[1,2],[3,4],[5,6]], indices [0,1,2], lengths [2,1]: the call succeeds with output [4,6,5,6] |
| `LookupProperties.SmallTableMeans` | caffe2/perfkernels/embedding_lookup.cc:81-85 | the same inputs normalised give output [2,3,5,6] |

## Left out

- The CPU-feature dispatch (`AVX2_FMA_DO` / `BASE_DO`, embedding_lookup.cc:135-160) and the accelerated bodies it may select. The macros and those bodies are not part of this model, and CPU-feature detection is outside the program.
- The `EMBEDDING_SPECIALIZATION` `__base` wrappers (embedding_lookup.cc:96-121) and the six instantiations (163-168). They forward their arguments unchanged to the generic body. The single generic method, with index values as unbounded `int` and table elements converted by `toVal`, stands for all six.
- `__builtin_prefetch` (embedding_lookup.cc:57-61): a cache hint with no effect on results.
- Float32/float16 rounding and the element conversions inside `TypedAxpy`, `EigenVectorArrayMap` and `math::Scale`. Arithmetic is exact over reals, so the model does not capture accumulation-order differences.
- The text of the error messages; only the kind of failure is modelled.
- Integer widths: sizes are `nat` and index values unbounded `int`. The 32-bit `int m` group counter is not modelled to overflow. Negative `block_size`, `output_size`, `index_size` or `data_size` are not modelled.
- Null buffers: a buffer's length is the size its argument declares (`Inputs.WellShaped`). An absent `weights` or `scale_bias` is `None`.
- EmbeddingLookup.EmbeddingLookupGenericSlow: on `CursorOverrun` and `IndexOutOfRange` it promises only that nothing past the first output_size * block_size elements changes. It does not say which groups were completed before the failure, or how far the failing slice was filled.
- LookupProperties.EntryWeightScaling: scaling is stated for one entry's contribution only. The group-level lift is not stated: scaling every weight of a group by k scales the group's sum, and its finished slice, by k. Its proof relates two argument sets through real products, and the solver does not finish it within the resource budget on every seed.
