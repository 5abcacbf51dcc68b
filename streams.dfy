/** The binary output streams the core writes to (`BytesIO` and the files the
    command line opens), seen as the bytes written so far. */
module Streams {
  import opened Bits

  class OutputStream {
    var data: seq<Byte>

    constructor()
      ensures data == []
    {
      data := [];
    }

    /** `write`: appends the bytes to what the stream holds. */
    method Write(bytes: seq<Byte>)
      modifies this
      ensures data == old(data) + bytes
    {
      data := data + bytes;
    }
  }

  /** Two writes in a row leave the stream as one write of both. */
  lemma WritesCompose(data: seq<Byte>, first: seq<Byte>, second: seq<Byte>)
    ensures data + first + second == data + (first + second)
  {
  }
}
