/** The part of `io.MemoryStream` the encoder relies on: a byte sequence
    and a read/write position (index.ts:120, 136-137, 113). */
module MemoryStreams {
  import Utf8

  class MemoryStream {
    var data: seq<Utf8.byte>
    var pos: nat

    ghost predicate Valid()
      reads this
    {
      pos <= |data|
    }

    constructor ()
      ensures Valid() && data == [] && pos == 0
    {
      data, pos := [], 0;
    }

    /** Writes at the position, overwriting what is there and growing the
        stream past its end; the position moves past the written bytes. */
    method Write(bytes: seq<Utf8.byte>)
      requires Valid()
      modifies this
      ensures Valid()
      ensures pos == old(pos) + |bytes|
      ensures old(pos) == old(|data|) ==> data == old(data) + bytes
      ensures old(pos) < old(|data|) ==>
                data == old(data[..pos]) + bytes + old(if pos + |bytes| < |data| then data[pos + |bytes|..] else [])
    {
      var tail := if pos + |bytes| < |data| then data[pos + |bytes|..] else [];
      assert pos == |data| ==> data[..pos] == data && tail == [];
      data := data[..pos] + bytes + tail;
      pos := pos + |bytes|;
    }

    /** Moves the position back to the first byte. */
    method Rewind()
      modifies this
      ensures data == old(data) && pos == 0
    {
      pos := 0;
    }

    /** Reads everything from the position to the end. */
    method ReadAll() returns (bytes: seq<Utf8.byte>)
      requires Valid()
      modifies this
      ensures Valid()
      ensures bytes == old(data[pos..]) && data == old(data) && pos == |data|
    {
      bytes := data[pos..];
      pos := |data|;
    }
  }
}
