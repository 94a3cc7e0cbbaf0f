/**
 The growable buffer that mongoose reads into and writes from.  `data` is the part
 in use, the first `len` bytes of the C block.
 */
module Mbufs {
  import opened Bytes

  class Mbuf {
    var data: seq<byte>

    constructor ()
      ensures data == []
    {
      data := [];
    }

    /** Appends bytes; `room` says whether a reallocation, if one is needed, succeeds. */
    method Append(bytes: seq<byte>, room: bool) returns (n: nat)
      modifies this
      ensures n == if room then |bytes| else 0
      ensures data == if room then old(data) + bytes else old(data)
    {
      if !room {
        return 0;
      }
      data := data + bytes;
      n := |bytes|;
    }

    /** memmove of everything from `off` on up by |bytes| places, which then hold the bytes. */
    method OpenGap(off: nat, bytes: seq<byte>)
      requires off <= |data|
      modifies this
      ensures data == old(data)[..off] + bytes + old(data)[off..]
    {
      data := data[..off] + bytes + data[off..];
    }

    /** Drops the first n bytes, or nothing when there are fewer. */
    method Remove(n: nat)
      modifies this
      ensures data == if n <= |old(data)| then old(data)[n..] else old(data)
    {
      if 0 < n <= |data| {
        data := data[n..];
      }
    }

    /** memcpy of bytes over the ones at `off`. */
    method Overwrite(off: nat, bytes: seq<byte>)
      requires off + |bytes| <= |data|
      modifies this
      ensures data == old(data)[..off] + bytes + old(data)[off + |bytes|..]
    {
      data := data[..off] + bytes + data[off + |bytes|..];
    }

    /** memmove of everything from `src` on down to `dst`, shortening the buffer by the gap. */
    method CloseGap(dst: nat, src: nat)
      requires dst <= src <= |data|
      modifies this
      ensures data == old(data)[..dst] + old(data)[src..]
    {
      data := data[..dst] + data[src..];
    }
  }
}
