/** Shared value types: optional values, results, and byte ranges. */
module Common {
  datatype Option<+T> = None | Some(value: T)

  datatype Result<+T, +E> = Ok(value: T) | Err(error: E)

  /** A span of byte offsets, `start..end`. */
  datatype Range = Range(start: nat, end: nat) {
    /** Whether `other` lies inside this span. */
    predicate Contains(other: Range) {
      start <= other.start && other.end <= end
    }

    /** Whether `offset` lies in the span, both ends included. */
    predicate Touches(offset: nat) {
      start <= offset <= end
    }

    predicate Ordered() {
      start <= end
    }
  }
}
