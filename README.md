# Trace low-degree extension store

A model, in Dafny, of `TraceLde` from the Winterfell STARK prover
(`prover/src/trace/trace_lde.rs`): the prover's in-memory store for the
low-degree-extended execution trace. It holds one main segment (a matrix of
base-field elements), an append-only list of auxiliary segments (matrices of
extension-field elements, each with the main segment's row count) and the
blowup factor. Constraint evaluation reads *frames* from it: at `lde_step` the
current row `lde_step` and the next row `(lde_step + blowup) % trace_len`,
which wraps around at the end of the extended domain.

Files:

- `matrix.dfy` (module `Matrices`): the row matrix abstraction, a sequence of
  rows with a column count and the invariant that every row has that many
  elements; the 64-bit `usize` bound.
- `frame.dfy` (module `Frames`): the caller-supplied evaluation frame, two rows
  that `SetData` replaces.
- `trace_lde.dfy` (module `Lde`): the store as class `TraceLde<B, E>` (`B` the
  base field element type, `E` the extension field element type, both opaque),
  the specification functions its frame reads are proved against
  (`NextLdeStep`, `Window`, `AuxWindow`), the left fold behind the auxiliary
  width (`FoldCols`) and the lemmas about them.
- `scenarios.dfy` (module `Scenarios`): two client methods that derive, from
  the method contracts, the wrap-around of an 8-row domain with blowup 2 (step 6
  reads row 0 as its next row) and the append scenario with blowup 4 over 16
  rows (a 15-row auxiliary segment is refused, a 16-row one accepted and read
  back unchanged).

Every abort of the Rust code is modelled as a returned `Fault` rather than a
precondition, so that the contracts state when each abort happens and that
nothing has changed when it does: the `assert_eq!` on row counts
(`RowCountMismatch`), the debug-build overflow check on `lde_step + blowup`
(`AddOverflow`), the remainder by a zero trace length (`DivisionByZero`), a
row index past the last row (`RowOutOfBounds`) and an auxiliary segment index
past the end of the list (`AuxIndexOutOfBounds`). The faults are checked in
the order the code evaluates them.

`TraceLde.Valid()` is the store's invariant: every segment is a well-formed
matrix and every auxiliary segment has `TraceLen()` rows. The constructor
establishes it and `AddAuxSegment` preserves it. `TraceLen()` is the row count
of the extended matrix, not the length of the original trace.

Code versus documentation: the doc comment of `read_aux_trace_frame_into`
(trace_lde.rs:88-90) says it panics unless there is exactly one auxiliary
segment. The code (line 96) indexes segment 0, so it aborts only when there is
none and silently reads the first segment when there are two or more. The
model follows the code; `AuxWindowIgnoresLaterSegments` states the behaviour
with two or more segments. A stricter store that also aborts with two or
more segments, as the doc comment describes, is not what the code does and is
not modelled.

## Model

| member | source | states |
|---|---|---|
| `Lde.NextLdeStep` | prover/src/trace/trace_lde.rs:76-77 | aborts exactly on `usize` overflow of `lde_step + blowup` (first) or a zero trace length; otherwise the next step lies in `[0, trace_len)`, is `lde_step + blowup` when that is inside the domain and `lde_step + blowup - trace_len` when it passes the end once |
| `Lde.NextLdeStepIsResidue` | prover/src/trace/trace_lde.rs:77 | the next step is the unique remainder: for any split `lde_step + blowup == q * trace_len + n` with `n < trace_len`, the next step is `n` |
| `Lde.StepWithinDomain` | prover/src/trace/trace_lde.rs:76-77 | over `n * blowup` steps, stepping from offset `o` of original row `k` with `k + 1 < n` reaches offset `o` of row `k + 1` without wrapping |
| `Lde.StepPastDomainEnd` | prover/src/trace/trace_lde.rs:76-77 | stepping from offset `o` of the last original row reaches step `o` at the start of the domain |
| `Lde.NextLdeStepAdvancesOriginalRow` | prover/src/trace/trace_lde.rs:76-77 | over `n * blowup` steps, stepping from offset `o` of original row `k` lands on offset `o` of original row `(k + 1) % n`: one original row forward, cyclically |
| `Lde.LastOriginalRowWrapsToFirst` | prover/src/trace/trace_lde.rs:76 | the frame at the last original row `(n - 1) * blowup` takes step 0 as its next row |
| `Lde.Window` | prover/src/trace/trace_lde.rs:71-84 | when the segment has `trace_len` rows a frame read succeeds iff `lde_step < trace_len` and the sum does not overflow; on success it holds row `lde_step` and row `NextLdeStep`, both of the segment's width; each abort carries the fault the code raises first |
| `Lde.AuxWindow` | prover/src/trace/trace_lde.rs:91-101 | when all auxiliary segments have `trace_len` rows an auxiliary frame read succeeds iff there is at least one segment and the step is in range; it is then the window of segment 0; the empty list aborts with an index fault after the step computation |
| `Lde.AuxWindowIgnoresLaterSegments` | prover/src/trace/trace_lde.rs:86-96 | with two or more auxiliary segments the read equals the read from the first segment alone and succeeds for every in-range step (it does not abort as the doc comment says) |
| `Lde.FoldCols` | prover/src/trace/trace_lde.rs:55-57 | the left fold of column counts never falls below its starting accumulator |
| `Lde.FoldColsIsSum` | prover/src/trace/trace_lde.rs:55-57 | the left fold from 0 equals `SumCols`, the in-order sum of the column counts defined independently by right recursion |
| `Lde.FoldColsShift` | prover/src/trace/trace_lde.rs:57 | folding from `acc` equals `acc` plus folding from 0 |
| `Lde.FoldColsAppend` | prover/src/trace/trace_lde.rs:54-58 | appending a segment to the list adds exactly its column count to the fold |
| `Lde.FoldColsIncludesEach` | prover/src/trace/trace_lde.rs:54-58 | every listed segment's column count is at most the fold from 0 |
| `Lde.FoldColsIncludesAll` | prover/src/trace/trace_lde.rs:54-58 | the same for all listed segments at once |
| `Lde.TraceLde.constructor` | prover/src/trace/trace_lde.rs:24-30 | stores the given main segment and blowup with an empty auxiliary list; afterwards the trace length and main width are the main matrix's row and column counts, the auxiliary width is 0, and the invariant holds |
| `Lde.TraceLde.AddAuxSegment` | prover/src/trace/trace_lde.rs:36-43 | succeeds iff the new segment has the main segment's row count; on success the list becomes the old list plus the segment at the end, the auxiliary width grows by exactly its column count and index `|old list|` returns it; main segment, blowup and earlier segments are unchanged; on failure nothing changes; the invariant is preserved |
| `Lde.TraceLde.MainTraceWidth` | prover/src/trace/trace_lde.rs:49-51 | every row of the main segment has exactly this many elements |
| `Lde.TraceLde.AuxTraceWidth` | prover/src/trace/trace_lde.rs:54-58 | equals the in-order sum of the auxiliary segments' column counts (0 with no segments), so no auxiliary segment is wider than the total |
| `Lde.TraceLde.TraceLen` | prover/src/trace/trace_lde.rs:61-63 | in a valid store every auxiliary segment has exactly this many rows, and it fits a `usize` |
| `Lde.TraceLde.Blowup` | prover/src/trace/trace_lde.rs:66-68 | returns the stored blowup factor; the constructor sets it to its argument and `AddAuxSegment` keeps it |
| `Lde.TraceLde.ReadMainTraceFrameInto` | prover/src/trace/trace_lde.rs:71-84 | succeeds iff `lde_step < trace_len` and the sum does not overflow; then the frame holds main row `lde_step` and main row `NextLdeStep`; otherwise it returns `Window`'s fault and the frame is untouched; only the frame is modified |
| `Lde.TraceLde.ReadAuxTraceFrameInto` | prover/src/trace/trace_lde.rs:91-101 | succeeds iff there is at least one auxiliary segment, `lde_step < trace_len` and the sum does not overflow; then the frame holds rows `lde_step` and `NextLdeStep` of auxiliary segment 0; otherwise it returns `AuxWindow`'s fault and the frame is untouched; only the frame is modified |
| `Lde.TraceLde.GetMainSegment` | prover/src/trace/trace_lde.rs:104-106 | the returned main segment is a well-formed matrix with the store's trace length and main width; the constructor states it is the matrix given to it |
| `Lde.TraceLde.GetAuxSegment` | prover/src/trace/trace_lde.rs:110-112 | succeeds iff the index is below the number of appended segments, returning exactly that segment (well-formed, with `trace_len` rows), and aborts with an index fault otherwise |

## Left out

- Field arithmetic and the base/extension field distinction: elements are only copied, so both element types are opaque type parameters.
- `RowMatrix` storage and layout: `RowMatrix` is not part of this model; a matrix is a sequence of equal-length rows, and `row(i)` is modelled as aborting exactly when `i` is not below the row count.
- `EvaluationFrame` internals: `air::EvaluationFrame` is not part of this model; `set_data` is modelled as replacing both rows.
- The low-degree extension computation (interpolation and evaluation), which happens before the store is built.
- Concurrency after the build phase, and the borrow and lifetime rules of the returned references: accessors return values.
- `NextLdeStep`: models only 64-bit targets; on a 32-bit target `usize` is 32 bits wide and `lde_step + blowup` overflows at a smaller bound than `USIZE_MAX`.
- `NextLdeStep`: models the debug-build overflow check on `lde_step + blowup` as an abort; a release build wraps the sum modulo 2^64 instead, which is not modelled.
- `AuxTraceWidth`: the sum is an unbounded natural number; a `usize` overflow of the fold is not modelled.
- `AddAuxSegment`: the allocation failure or capacity overflow of `Vec::push` is not modelled.
- The requirement that the row count be a positive multiple of the blowup factor is not checked by the code, so it is not part of `TraceLde.Valid()`; `NextLdeStepAdvancesOriginalRow` takes it as a hypothesis.
- Aborts are modelled as returned faults, not as terminating the process.
