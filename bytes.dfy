/** Basic value types of the data-preparation script: raw bytes, the
    unsigned 16-bit codes the encoded stream is stored in, and the
    error results of dictionary lookups and vectorised calls. */
module Bytes {

  /** One byte of the UTF-8 corpus. */
  newtype Byte = b: int | 0 <= b < 0x100

  /** One element of the encoded stream, stored as an unsigned 16-bit integer. */
  newtype Code = c: int | 0 <= c < 0x1_0000

  /** The space character, used as the padding value before position 0. */
  const Space: Byte := 0x20

  /** The errors the script can raise on its modelled path. */
  datatype Error =
    | KeyError(key: int)   // a dictionary lookup of a missing key
    | EmptyArray           // a vectorised call on an array of size 0

  datatype Result<T> = Success(value: T) | Failure(error: Error) {
    predicate IsFailure() { Failure? }

    function PropagateFailure<U>(): Result<U>
      requires Failure?
    {
      Failure(error)
    }

    function Extract(): T
      requires Success?
    {
      value
    }
  }

  /** Strictly ascending: sorted and free of duplicates. */
  ghost predicate StrictlyIncreasing(s: seq<Byte>)
  {
    forall i, j :: 0 <= i < j < |s| ==> s[i] < s[j]
  }

  /** The set of byte values a sequence holds. */
  function Elements(s: seq<Byte>): set<Byte>
  {
    set b | b in s
  }
}
