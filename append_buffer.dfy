/**
 * The append buffer: a growable block of bytes that the renderer fills
 * fragment by fragment and then writes to the terminal in one call.
 * The block is `b` and its length `len`, as in `struct abuf`; the block's
 * bytes are modelled as a sequence, and reallocation as building a new one.
 */
module AppendBuffer {

  class Buffer {
    var b: seq<char>
    var len: int

    /** The length field always agrees with the block it describes. */
    ghost predicate Valid()
      reads this
    {
      len == |b|
    }

    /** ABUF_INIT: no block yet and length 0. */
    constructor Init()
      ensures Valid()
      ensures b == [] && len == 0
    {
      b := [];
      len := 0;
    }

    /**
     * abAppend: grow the block to `len + n` bytes and copy the first `n`
     * bytes of `s` behind the old contents. `allocOk` stands for whether
     * `realloc` returned a block; when it did not, nothing changes.
     */
    method Append(s: seq<char>, n: int, allocOk: bool)
      requires Valid()
      requires 0 <= n <= |s|
      modifies this
      ensures Valid()
      ensures allocOk ==> b == old(b) + s[..n] && len == old(len) + n
      ensures allocOk ==> b[..old(len)] == old(b)
      ensures !allocOk ==> b == old(b) && len == old(len)
    {
      if !allocOk {
        return;
      }
      // realloc keeps the old bytes; memcpy fills the new tail
      var newBuf := b + s[..n];
      b := newBuf;
      len := len + n;
    }
  }
}
