/** The prover's store for the low-degree-extended execution trace: one main
    segment, an append-only list of auxiliary segments that all have the main
    segment's row count, and the blowup factor. Frames are read from it by
    stepping `blowup` rows forward, cyclically, in the extended domain.

    Every abort of the original (a failed `assert_eq!`, an index past the
    end, a remainder by zero, an overflowing `usize` addition) is returned as
    a `Fault`; when a fault is returned nothing has been changed. */
module Lde {
  import opened Matrices
  import opened Frames

  datatype Fault =
    | RowCountMismatch     // auxiliary segment row count differs from the main segment's
    | AddOverflow          // lde_step + blowup does not fit a usize
    | DivisionByZero       // remainder by a trace length of zero
    | RowOutOfBounds       // row index past the last row of a segment
    | AuxIndexOutOfBounds  // auxiliary segment index past the end of the list

  datatype Outcome = Pass | Fail(fault: Fault)

  datatype Result<T> = Ok(value: T) | Err(fault: Fault)

  /** The two rows a frame read copies out of a segment. */
  datatype FrameData<T> = FrameData(current: seq<T>, next: seq<T>)

  // ---------------------------------------------------------------------------
  // Stepping through the extended domain
  // ---------------------------------------------------------------------------

  /** The step whose row is the "next" row of a frame taken at `ldeStep`:
      `blowup` steps further on, wrapping around at the end of the domain. */
  function NextLdeStep(ldeStep: nat, blowup: nat, traceLen: nat): (r: Result<nat>)
    ensures r.Err? <==> ldeStep + blowup > USIZE_MAX || traceLen == 0
    ensures r.Err? ==> r.fault == if ldeStep + blowup > USIZE_MAX then AddOverflow else DivisionByZero
    ensures r.Ok? ==> r.value < traceLen
    ensures r.Ok? && ldeStep + blowup < traceLen ==> r.value == ldeStep + blowup
    ensures r.Ok? && traceLen <= ldeStep + blowup < 2 * traceLen ==> r.value == ldeStep + blowup - traceLen
  {
    if ldeStep + blowup > USIZE_MAX then Err(AddOverflow)
    else if traceLen == 0 then Err(DivisionByZero)
    else Ok((ldeStep + blowup) % traceLen)
  }

  lemma MulAtLeastFactor(k: int, len: nat)
    requires 1 <= k
    ensures len <= k * len
  {
  }

  /** Euclidean remainders are unique. */
  lemma ModOfMultiplePlus(q: nat, len: nat, n: nat)
    requires n < len
    ensures (q * len + n) % len == n
  {
    var a := q * len + n;
    var d, r := a / len, a % len;
    assert a == d * len + r;
    assert (d - q) * len == n - r;
    if d - q >= 1 {
      MulAtLeastFactor(d - q, len);
      assert false;
    } else if q - d >= 1 {
      MulAtLeastFactor(q - d, len);
      assert false;
    }
  }

  /** The next step is THE residue of `ldeStep + blowup` in `[0, traceLen)`:
      whichever way the sum is split into a multiple of the trace length plus
      a remainder smaller than it, the remainder is the next step. */
  lemma NextLdeStepIsResidue(ldeStep: nat, blowup: nat, traceLen: nat, q: nat, n: nat)
    requires n < traceLen
    requires ldeStep + blowup == q * traceLen + n
    requires ldeStep + blowup <= USIZE_MAX
    ensures NextLdeStep(ldeStep, blowup, traceLen) == Ok(n)
  {
    ModOfMultiplePlus(q, traceLen, n);
  }

  lemma MulSucc(k: nat, b: nat)
    ensures (k + 1) * b == k * b + b
  {
  }

  lemma StepWithinDomain(n: nat, blowup: nat, k: nat, offset: nat)
    requires k + 1 < n && offset < blowup
    requires k * blowup + offset + blowup <= USIZE_MAX
    ensures NextLdeStep(k * blowup + offset, blowup, n * blowup) == Ok((k + 1) * blowup + offset)
  {
    MulSucc(k, blowup);
    MulAtLeastFactor(n - (k + 1), blowup);
    assert n * blowup == (k + 1) * blowup + (n - (k + 1)) * blowup;
    NextLdeStepIsResidue(k * blowup + offset, blowup, n * blowup, 0, (k + 1) * blowup + offset);
  }

  lemma StepPastDomainEnd(n: nat, blowup: nat, offset: nat)
    requires 0 < n && offset < blowup
    requires (n - 1) * blowup + offset + blowup <= USIZE_MAX
    ensures NextLdeStep((n - 1) * blowup + offset, blowup, n * blowup) == Ok(offset)
  {
    MulSucc(n - 1, blowup);
    MulAtLeastFactor(n, blowup);
    NextLdeStepIsResidue((n - 1) * blowup + offset, blowup, n * blowup, 1, offset);
  }

  /** When the extended domain is `n` original rows blown up by `blowup`,
      stepping `blowup` positions forward from any position of original row
      `k` lands on the same offset within original row `k + 1`, and the last
      original row is followed by the first. */
  lemma NextLdeStepAdvancesOriginalRow(n: nat, blowup: nat, k: nat, offset: nat)
    requires 0 < n && k < n && offset < blowup
    requires k * blowup + offset + blowup <= USIZE_MAX
    ensures NextLdeStep(k * blowup + offset, blowup, n * blowup) == Ok(((k + 1) % n) * blowup + offset)
  {
    if k + 1 < n {
      StepWithinDomain(n, blowup, k, offset);
      ModOfMultiplePlus(0, n, k + 1);
      assert 0 * n + (k + 1) == k + 1;
    } else {
      assert k == n - 1;
      StepPastDomainEnd(n, blowup, offset);
      ModOfMultiplePlus(1, n, 0);
      assert 1 * n + 0 == k + 1;
      assert 0 * blowup + offset == offset;
    }
  }

  /** In particular, the frame at the last original row looks at the first. */
  lemma LastOriginalRowWrapsToFirst(n: nat, blowup: nat)
    requires 0 < n && 0 < blowup
    requires n * blowup <= USIZE_MAX
    ensures NextLdeStep((n - 1) * blowup, blowup, n * blowup) == Ok(0)
  {
    assert (n - 1) * blowup + 0 + blowup == n * blowup;
    NextLdeStepAdvancesOriginalRow(n, blowup, n - 1, 0);
  }

  // ---------------------------------------------------------------------------
  // Frame windows
  // ---------------------------------------------------------------------------

  /** The rows a frame read at `ldeStep` copies out of `segment` when the
      extended domain has `traceLen` steps. */
  function Window<T>(segment: Matrix<T>, blowup: nat, traceLen: nat, ldeStep: nat): (r: Result<FrameData<T>>)
    ensures segment.NumRows() == traceLen ==>
              (r.Ok? <==> ldeStep < traceLen && ldeStep + blowup <= USIZE_MAX)
    ensures r.Err? ==> r.fault == if ldeStep + blowup > USIZE_MAX then AddOverflow
                                  else if traceLen == 0 then DivisionByZero
                                  else RowOutOfBounds
    ensures r.Ok? ==> ldeStep < segment.NumRows() && r.value.current == segment.rows[ldeStep]
    ensures r.Ok? ==> && NextLdeStep(ldeStep, blowup, traceLen).Ok?
                      && NextLdeStep(ldeStep, blowup, traceLen).value < segment.NumRows()
                      && r.value.next == segment.rows[NextLdeStep(ldeStep, blowup, traceLen).value]
    ensures r.Ok? && segment.Valid() ==> |r.value.current| == |r.value.next| == segment.NumCols()
  {
    match NextLdeStep(ldeStep, blowup, traceLen)
    case Err(f) => Err(f)
    case Ok(next) =>
      if ldeStep < segment.NumRows() && next < segment.NumRows() then
        Ok(FrameData(segment.rows[ldeStep], segment.rows[next]))
      else
        Err(RowOutOfBounds)
  }

  ghost predicate AllHaveRows<E>(segments: seq<Matrix<E>>, numRows: nat) {
    forall i :: 0 <= i < |segments| ==> segments[i].NumRows() == numRows
  }

  /** The rows an auxiliary frame read copies: the window of the FIRST
      auxiliary segment, whatever the number of segments. */
  function AuxWindow<E>(auxSegments: seq<Matrix<E>>, blowup: nat, traceLen: nat, ldeStep: nat): (r: Result<FrameData<E>>)
    ensures AllHaveRows(auxSegments, traceLen) ==>
              (r.Ok? <==> 0 < |auxSegments| && ldeStep < traceLen && ldeStep + blowup <= USIZE_MAX)
    ensures r.Err? ==> r.fault == if ldeStep + blowup > USIZE_MAX then AddOverflow
                                  else if traceLen == 0 then DivisionByZero
                                  else if |auxSegments| == 0 then AuxIndexOutOfBounds
                                  else RowOutOfBounds
    ensures r.Ok? ==> 0 < |auxSegments| && r == Window(auxSegments[0], blowup, traceLen, ldeStep)
  {
    match NextLdeStep(ldeStep, blowup, traceLen)
    case Err(f) => Err(f)
    case Ok(_) =>
      if |auxSegments| == 0 then Err(AuxIndexOutOfBounds)
      else Window(auxSegments[0], blowup, traceLen, ldeStep)
  }

  /** With two or more auxiliary segments an auxiliary frame read does not
      abort: it reads the first segment and ignores the others. */
  lemma AuxWindowIgnoresLaterSegments<E>(auxSegments: seq<Matrix<E>>, blowup: nat, traceLen: nat, ldeStep: nat)
    requires 2 <= |auxSegments|
    ensures AuxWindow(auxSegments, blowup, traceLen, ldeStep) == AuxWindow(auxSegments[..1], blowup, traceLen, ldeStep)
    ensures AllHaveRows(auxSegments, traceLen) && ldeStep < traceLen && ldeStep + blowup <= USIZE_MAX ==>
              AuxWindow(auxSegments, blowup, traceLen, ldeStep).Ok?
  {
  }

  // ---------------------------------------------------------------------------
  // Auxiliary trace width
  // ---------------------------------------------------------------------------

  /** Sum of the column counts of `segments`, in list order. */
  function SumCols<E>(segments: seq<Matrix<E>>): nat
    decreases |segments|
  {
    if segments == [] then 0 else segments[0].numCols + SumCols(segments[1..])
  }

  /** Left fold of the column counts of `segments`, starting from `acc`. */
  function FoldCols<E>(acc: nat, segments: seq<Matrix<E>>): (w: nat)
    ensures acc <= w
    decreases |segments|
  {
    if segments == [] then acc else FoldCols(acc + segments[0].numCols, segments[1..])
  }

  lemma {:induction false} FoldColsShift<E>(acc: nat, segments: seq<Matrix<E>>)
    ensures FoldCols(acc, segments) == acc + FoldCols(0, segments)
    decreases |segments|
  {
    if segments != [] {
      FoldColsShift(acc + segments[0].numCols, segments[1..]);
      FoldColsShift(segments[0].numCols, segments[1..]);
    }
  }

  /** The left fold from 0 is the in-order sum of the column counts. */
  lemma {:induction false} FoldColsIsSum<E>(segments: seq<Matrix<E>>)
    ensures FoldCols(0, segments) == SumCols(segments)
    decreases |segments|
  {
    if segments != [] {
      FoldColsShift(segments[0].numCols, segments[1..]);
      FoldColsIsSum(segments[1..]);
    }
  }

  /** Appending a segment adds exactly its column count to the fold. */
  lemma {:induction false} FoldColsAppend<E>(acc: nat, segments: seq<Matrix<E>>, m: Matrix<E>)
    ensures FoldCols(acc, segments + [m]) == FoldCols(acc, segments) + m.numCols
    decreases |segments|
  {
    if segments == [] {
      assert segments + [m] == [m];
      assert [m][1..] == [];
    } else {
      assert (segments + [m])[1..] == segments[1..] + [m];
      FoldColsAppend(acc + segments[0].numCols, segments[1..], m);
    }
  }

  /** Every segment's columns are part of the fold. */
  lemma {:induction false} FoldColsIncludesEach<E>(segments: seq<Matrix<E>>, i: nat)
    requires i < |segments|
    ensures segments[i].numCols <= FoldCols(0, segments)
    decreases |segments|
  {
    FoldColsShift(segments[0].numCols, segments[1..]);
    if i > 0 {
      FoldColsIncludesEach(segments[1..], i - 1);
    }
  }

  lemma FoldColsIncludesAll<E>(segments: seq<Matrix<E>>)
    ensures forall i :: 0 <= i < |segments| ==> segments[i].numCols <= FoldCols(0, segments)
  {
    forall i | 0 <= i < |segments| ensures segments[i].numCols <= FoldCols(0, segments) {
      FoldColsIncludesEach(segments, i);
    }
  }

  // ---------------------------------------------------------------------------
  // The store
  // ---------------------------------------------------------------------------

  /** Trace low-degree extension: main segment over the base field `B`,
      auxiliary segments over the extension field `E`. */
  class TraceLde<B, E> {
    var mainSegment: Matrix<B>
    var auxSegments: seq<Matrix<E>>
    var blowupFactor: Usize

    /** Every segment is a well-formed matrix and every auxiliary segment has
        as many rows as the main segment. */
    ghost predicate Valid()
      reads this
    {
      && mainSegment.Valid()
      && (forall i :: 0 <= i < |auxSegments| ==> auxSegments[i].Valid())
      && AllHaveRows(auxSegments, mainSegment.NumRows())
    }

    /** Creates the store from the main segment; no auxiliary segments yet. */
    constructor (mainTraceLde: Matrix<B>, blowup: Usize)
      requires mainTraceLde.Valid()
      ensures Valid()
      ensures mainSegment == mainTraceLde && auxSegments == [] && blowupFactor == blowup
      ensures TraceLen() == mainTraceLde.NumRows()
      ensures MainTraceWidth() == mainTraceLde.NumCols()
      ensures AuxTraceWidth() == 0
      ensures Blowup() == blowup
      ensures GetMainSegment() == mainTraceLde
    {
      mainSegment := mainTraceLde;
      auxSegments := [];
      blowupFactor := blowup;
    }

    /** Appends an auxiliary segment; aborts, changing nothing, when its row
        count differs from the main segment's. */
    method AddAuxSegment(auxSegmentLde: Matrix<E>) returns (r: Outcome)
      requires Valid() && auxSegmentLde.Valid()
      modifies this
      ensures Valid()
      ensures r == if auxSegmentLde.NumRows() == old(TraceLen()) then Pass else Fail(RowCountMismatch)
      ensures mainSegment == old(mainSegment) && blowupFactor == old(blowupFactor)
      ensures auxSegments == if r.Pass? then old(auxSegments) + [auxSegmentLde] else old(auxSegments)
      ensures AuxTraceWidth() == old(AuxTraceWidth()) + if r.Pass? then auxSegmentLde.NumCols() else 0
      ensures r.Pass? ==> GetAuxSegment(|old(auxSegments)|) == Ok(auxSegmentLde)
      ensures forall i :: 0 <= i < |old(auxSegments)| ==> GetAuxSegment(i) == old(GetAuxSegment(i))
    {
      if mainSegment.NumRows() != auxSegmentLde.NumRows() {
        return Fail(RowCountMismatch);
      }
      FoldColsAppend(0, auxSegments, auxSegmentLde);
      auxSegments := auxSegments + [auxSegmentLde];
      r := Pass;
    }

    /** Number of columns of the main segment: the length of each of its rows. */
    function MainTraceWidth(): (w: nat)
      reads this
      ensures Valid() ==> forall i :: 0 <= i < |mainSegment.rows| ==> |mainSegment.rows[i]| == w
    {
      mainSegment.NumCols()
    }

    /** Number of columns of all auxiliary segments together. */
    function AuxTraceWidth(): (w: nat)
      reads this
      ensures forall i :: 0 <= i < |auxSegments| ==> auxSegments[i].NumCols() <= w
      ensures w == SumCols(auxSegments)
      ensures forall i :: 0 <= i < |auxSegments| ==> auxSegments[i].NumCols() <= w
    {
      FoldColsIsSum(auxSegments);
      FoldColsIncludesAll(auxSegments);
      FoldCols(0, auxSegments)
    }

    /** Number of rows of the extended trace (not of the original trace),
        shared by every segment of a valid store. */
    function TraceLen(): (n: nat)
      reads this
      ensures Valid() ==> n <= USIZE_MAX && AllHaveRows(auxSegments, n)
    {
      mainSegment.NumRows()
    }

    /** The blowup factor the original trace was extended by. */
    function Blowup(): (b: Usize)
      reads this
      ensures b == blowupFactor
    {
      blowupFactor
    }

    /** Copies the current and next rows of the main segment into `frame`. */
    method ReadMainTraceFrameInto(ldeStep: Usize, frame: EvaluationFrame<B>) returns (r: Outcome)
      requires Valid()
      modifies frame
      ensures r.Pass? <==> ldeStep < TraceLen() && ldeStep + Blowup() <= USIZE_MAX
      ensures r.Pass? ==> && NextLdeStep(ldeStep, Blowup(), TraceLen()).Ok?
                          && frame.current == mainSegment.rows[ldeStep]
                          && frame.next == mainSegment.rows[NextLdeStep(ldeStep, Blowup(), TraceLen()).value]
      ensures match Window(mainSegment, Blowup(), TraceLen(), ldeStep)
              case Ok(w) => r == Pass && frame.current == w.current && frame.next == w.next
              case Err(f) => r == Fail(f) && frame.current == old(frame.current) && frame.next == old(frame.next)
    {
      var next := NextLdeStep(ldeStep, Blowup(), TraceLen());
      if next.Err? {
        return Fail(next.fault);
      }
      if ldeStep >= mainSegment.NumRows() {
        return Fail(RowOutOfBounds);
      }
      frame.SetData(mainSegment.rows[ldeStep], mainSegment.rows[next.value]);
      r := Pass;
    }

    /** Copies the current and next rows of the first auxiliary segment into
        `frame`; aborts when there is no auxiliary segment. */
    method ReadAuxTraceFrameInto(ldeStep: Usize, frame: EvaluationFrame<E>) returns (r: Outcome)
      requires Valid()
      modifies frame
      ensures r.Pass? <==> 0 < |auxSegments| && ldeStep < TraceLen() && ldeStep + Blowup() <= USIZE_MAX
      ensures r.Pass? ==> && NextLdeStep(ldeStep, Blowup(), TraceLen()).Ok?
                          && frame.current == auxSegments[0].rows[ldeStep]
                          && frame.next == auxSegments[0].rows[NextLdeStep(ldeStep, Blowup(), TraceLen()).value]
      ensures match AuxWindow(auxSegments, Blowup(), TraceLen(), ldeStep)
              case Ok(w) => r == Pass && frame.current == w.current && frame.next == w.next
              case Err(f) => r == Fail(f) && frame.current == old(frame.current) && frame.next == old(frame.next)
    {
      var next := NextLdeStep(ldeStep, Blowup(), TraceLen());
      if next.Err? {
        return Fail(next.fault);
      }
      if |auxSegments| == 0 {
        return Fail(AuxIndexOutOfBounds);
      }
      var segment := auxSegments[0];
      if ldeStep >= segment.NumRows() {
        return Fail(RowOutOfBounds);
      }
      frame.SetData(segment.rows[ldeStep], segment.rows[next.value]);
      r := Pass;
    }

    /** The main segment, a well-formed matrix with the store's dimensions. */
    function GetMainSegment(): (m: Matrix<B>)
      reads this
      ensures Valid() ==> m.Valid() && m.NumRows() == TraceLen() && m.NumCols() == MainTraceWidth()
    {
      mainSegment
    }

    /** The auxiliary segment at `auxSegmentIdx`, in order of appending;
        aborts when the index is past the end of the list. */
    function GetAuxSegment(auxSegmentIdx: nat): (r: Result<Matrix<E>>)
      reads this
      ensures r.Ok? <==> auxSegmentIdx < |auxSegments|
      ensures r.Err? ==> r.fault == AuxIndexOutOfBounds
      ensures r.Ok? ==> r.value == auxSegments[auxSegmentIdx]
      ensures r.Ok? && Valid() ==> r.value.Valid() && r.value.NumRows() == TraceLen()
    {
      if auxSegmentIdx < |auxSegments| then Ok(auxSegments[auxSegmentIdx]) else Err(AuxIndexOutOfBounds)
    }
  }
}
