/** Small value types shared by the other modules. */
module Common {

  datatype Option<+T> = None | Some(value: T)

  /** An unsigned 8-bit value: one byte of a path, an address or a packet. */
  type Byte = b: int | 0 <= b < 256

  lemma Associate<T>(a: seq<T>, b: seq<T>, c: seq<T>)
    ensures a + (b + c) == (a + b) + c
  {
  }
}
