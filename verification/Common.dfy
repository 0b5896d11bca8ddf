/** Small value types shared by every component model. */
module Common {

  datatype Option<+T> = None | Some(value: T)

  datatype Result<+T, +E> = Ok(value: T) | Err(error: E)

  type Byte = b: nat | b < 256

  const U64_LIMIT: nat := 0x1_0000_0000_0000_0000
  const U32_LIMIT: nat := 0x1_0000_0000

  /** `checked_add` on `u64`. */
  function CheckedAdd(a: nat, b: nat): Option<nat> {
    if a + b < U64_LIMIT then Some(a + b) else None
  }

  /** What a parser took from its input, and where it stopped. */
  datatype Taken<+T> = Taken(value: T, cursor: nat)

  /** A sequence without repetition is no longer than a set that holds its elements. */
  lemma {:induction false} DistinctFits<T>(items: seq<T>, all: set<T>)
    requires forall i | 0 <= i < |items| :: items[i] in all
    requires forall i, j | 0 <= i < j < |items| :: items[i] != items[j]
    ensures |items| <= |all|
  {
    if items != [] {
      var n := |items| - 1;
      DistinctFits(items[..n], all - {items[n]});
    }
  }
}
