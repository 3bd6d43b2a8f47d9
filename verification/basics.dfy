/** Small value types shared by the scheduler model. */
module Basics {

  /** A nullable reference: `None` plays the part of Go's `nil`. */
  datatype Option<+T> = None | Some(value: T)

  /** The outcome of a Go statement sequence that may call a method through a
      nil interface value, which makes the Go runtime panic. */
  datatype Step<+T> = Ok(value: T) | Panic

  newtype byte = b: int | 0 <= b < 256

  /** What `make([]byte, n)` yields: n zero bytes. */
  function Zeros(n: nat): (r: seq<byte>)
    ensures |r| == n
    ensures forall i :: 0 <= i < n ==> r[i] == 0
  {
    seq(n, _ => 0)
  }
}
