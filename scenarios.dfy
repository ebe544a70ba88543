/** Client-side scenarios: what a caller can conclude about the store from
    its contracts alone. */
module Scenarios {
  import opened Matrices
  import opened Frames
  import opened Lde

  /** A `numRows` x `numCols` matrix with distinct entries. */
  function Filled(numRows: nat, numCols: nat, tag: int): Matrix<int> {
    Matrix(seq(numRows, i => seq(numCols, j => tag + 100 * i + j)), numCols)
  }

  /** An 8 x 3 main segment with blowup 2: the frame at step 6 pairs row 6
      with row 0, because the next step wraps to the start of the domain. */
  method WrapAroundAtDomainEnd() {
    var main := Filled(8, 3, 0);
    assert main.Valid();
    var store := new TraceLde<int, int>(main, 2);
    var frame := new EvaluationFrame<int>([], []);
    var r := store.ReadMainTraceFrameInto(6, frame);
    assert NextLdeStep(6, 2, 8) == Ok(0);
    assert r == Pass;
    assert frame.current == main.rows[6] && frame.next == main.rows[0];
    r := store.ReadMainTraceFrameInto(8, frame);
    assert r == Fail(RowOutOfBounds);
  }

  /** Blowup 4 over 16 rows: a 15-row auxiliary segment is refused and
      leaves the store alone, a 16-row one is accepted and read back
      unchanged; auxiliary frames need at least one segment and, with two,
      still come from the first. */
  method AppendThenRead() {
    var main := Filled(16, 2, 0);
    assert main.Valid();
    var store := new TraceLde<int, int>(main, 4);
    var frame := new EvaluationFrame<int>([], []);
    var r := store.ReadAuxTraceFrameInto(0, frame);
    assert r == Fail(AuxIndexOutOfBounds);

    var short := Filled(15, 5, 1000);
    assert short.Valid();
    r := store.AddAuxSegment(short);
    assert r == Fail(RowCountMismatch);
    assert store.auxSegments == [] && store.AuxTraceWidth() == 0;

    var aux := Filled(16, 5, 2000);
    assert aux.Valid();
    r := store.AddAuxSegment(aux);
    assert r == Pass;
    assert store.GetAuxSegment(0) == Ok(aux);
    assert store.GetAuxSegment(1) == Err(AuxIndexOutOfBounds);
    assert store.AuxTraceWidth() == 5;

    var more := Filled(16, 1, 3000);
    assert more.Valid();
    r := store.AddAuxSegment(more);
    assert r == Pass;
    assert store.AuxTraceWidth() == 6;
    r := store.ReadAuxTraceFrameInto(14, frame);
    assert NextLdeStep(14, 4, 16) == Ok(2);
    assert r == Pass;
    assert frame.current == aux.rows[14] && frame.next == aux.rows[2];
  }
}
