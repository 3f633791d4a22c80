/** Output as the sequence of bytes written so far. */
module Streams {
  import opened Bytes

  /** A sink of bytes, in the order they are written: standard output, or the screen behind putc. */
  class Output {
    var written: seq<byte>

    constructor ()
      ensures written == []
    {
      written := [];
    }

    method Write(bytes: seq<byte>)
      modifies this
      ensures written == old(written) + bytes
    {
      written := written + bytes;
    }
  }
}
