/** Small shared vocabulary: an optional value for the pure grammar functions,
    and the Python exceptions the core raises or catches, as values. */
module Prelude {

  datatype Option<T> = None | Some(value: T)

  /** The exceptions of the modelled code that the model turns into values. */
  datatype Exception =
    | IndexError          // indexing an empty `bytes` (top-level BitReader) or `heap[0]` on an empty heap
    | EOFError            // the decompression-package BitReader past its last bit
    | StructError         // `struct.unpack(">I", ...)` on fewer than four bytes
    | OverflowError       // `int.to_bytes(4, "big")` on a value outside 0 .. 2^32 - 1
    | KeyError            // a dictionary lookup of an absent key
    | RuntimeError        // `unwrap` of an Err result
    | ValueError(message: string)
    | NotImplementedError(message: string)

  /** Concatenation regrouped; stated once so that proofs about growing sequences need
      not rediscover it. */
  lemma AppendAssoc<T>(a: seq<T>, b: seq<T>, c: seq<T>)
    ensures a + b + c == a + (b + c)
  {
  }
}
