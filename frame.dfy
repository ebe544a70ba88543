/** The caller-supplied evaluation frame that frame reads write into: the
    current row and the next row of one trace segment. */
module Frames {

  class EvaluationFrame<T> {
    var current: seq<T>
    var next: seq<T>

    constructor (current: seq<T>, next: seq<T>)
      ensures this.current == current && this.next == next
    {
      this.current := current;
      this.next := next;
    }

    /** Replaces both rows of the frame. */
    method SetData(current: seq<T>, next: seq<T>)
      modifies this
      ensures this.current == current && this.next == next
    {
      this.current := current;
      this.next := next;
    }
  }
}
