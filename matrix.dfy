/** Row-major matrices of field elements and the machine word size.
    A matrix is a sequence of rows that all have the same number of columns;
    the column count is kept separately so that a matrix with no rows still
    has a width. Element values are never computed on, only copied, so the
    element type is a type parameter. */
module Matrices {

  /** Largest value of a 64-bit `usize`. */
  const USIZE_MAX: nat := 0xFFFF_FFFF_FFFF_FFFF

  type Usize = x: nat | x <= USIZE_MAX

  datatype Matrix<T> = Matrix(rows: seq<seq<T>>, numCols: nat) {

    /** Every row has exactly `numCols` elements, and both dimensions fit a `usize`. */
    ghost predicate Valid() {
      && |rows| <= USIZE_MAX
      && numCols <= USIZE_MAX
      && forall i :: 0 <= i < |rows| ==> |rows[i]| == numCols
    }

    function NumRows(): nat {
      |rows|
    }

    function NumCols(): nat {
      numCols
    }
  }
}
