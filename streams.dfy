// The two memory streams of src/serralize.hpp: an append-only growable output
// buffer and a bounded read cursor over a caller's buffer.

module Streams {
  import opened Bytes
  import opened Format

  /**
   * `OutMemStream`: an auto-growing byte buffer. `write` appends; nothing is
   * ever removed or overwritten. `getBuf()` is the field `buf` itself.
   */
  class OutMemStream {
    var buf: seq<byte>

    /** An empty stream (the constructor's `reserve` only preallocates). */
    constructor ()
      ensures buf == []
    {
      buf := [];
    }

    /**
     * `write(p, size)`: copies the `size` bytes at `p` onto the end of the
     * buffer one at a time, through a back inserter.
     */
    method Write(p: seq<byte>, size: SizeT)
      requires size <= |p|
      modifies this
      ensures buf == old(buf) + p[..size]
    {
      var k := 0;
      while k < size
        invariant 0 <= k <= size
        invariant buf == old(buf) + p[..k]
      {
        buf := buf + [p[k]];
        k := k + 1;
      }
    }
  }

  /**
   * The bound check `pos_ + size <= size_` as the source evaluates it: the
   * sum is a `size_t` and wraps modulo 2^64 before the comparison.
   */
  function ReadFitsAsWritten(pos: SizeT, n: SizeT, limit: SizeT): (ok: bool)
    ensures pos + n < SIZE_T_MODULUS ==> (ok <==> pos + n <= limit)
  {
    (pos + n) % SIZE_T_MODULUS <= limit
  }

  /**
   * The bound check the assertion is there for: `n` more bytes starting at
   * `pos` lie inside the first `limit` bytes. Written as a subtraction, it
   * cannot wrap.
   */
  function ReadFits(pos: SizeT, n: SizeT, limit: SizeT): (ok: bool)
    requires pos <= limit
    ensures ok <==> pos + n <= limit
  {
    n <= limit - pos
  }

  /** When the sum does not wrap, the check as written is the intended one. */
  lemma AsWrittenAgreesWithoutWrap(pos: SizeT, n: SizeT, limit: SizeT)
    requires pos <= limit
    requires pos + n < SIZE_T_MODULUS
    ensures ReadFitsAsWritten(pos, n, limit) == ReadFits(pos, n, limit)
  {
  }

  /**
   * Once anything has been read, the check as written accepts a read of
   * 2^64 - 1 bytes, which runs past the end of the buffer.
   */
  lemma AsWrittenAdmitsOverrun(pos: SizeT, limit: SizeT)
    requires 0 < pos <= limit
    ensures ReadFitsAsWritten(pos, SIZE_T_MODULUS - 1, limit)
    ensures !ReadFits(pos, SIZE_T_MODULUS - 1, limit)
  {
    assert (pos + (SIZE_T_MODULUS - 1)) % SIZE_T_MODULUS == pos - 1;
  }

  /**
   * `InMemStream`: a read position over the first `size` bytes of a buffer
   * the stream does not own and never writes.
   */
  class InMemStream {
    const buf: seq<byte>
    const size: SizeT
    var pos: SizeT

    /** The position never passes the end of the readable bytes. */
    ghost predicate Valid()
      reads this
    {
      size <= |buf| && pos <= size
    }

    /** The bytes not read yet. */
    function Unread(): (r: seq<byte>)
      reads this
      requires Valid()
      ensures |r| == size - pos
    {
      buf[pos..size]
    }

    /** `InMemStream(buf, size)`: a stream at the start of `size` readable bytes. */
    constructor (buf: seq<byte>, size: SizeT)
      requires size <= |buf|
      ensures Valid()
      ensures this.buf == buf && this.size == size && pos == 0
      ensures Unread() == buf[..size]
    {
      this.buf := buf;
      this.size := size;
      pos := 0;
    }

    /**
     * `read(p, n)`: copies out the next `n` bytes and moves past them, or
     * fails, leaving the position alone, where the bound assertion fires.
     */
    method Read(n: SizeT) returns (ok: bool, bytes: seq<byte>)
      requires Valid()
      modifies this
      ensures Valid()
      ensures ok <==> old(pos) + n <= size
      ensures ok ==> bytes == buf[old(pos)..old(pos) + n] && pos == old(pos) + n
      ensures !ok ==> pos == old(pos)
      ensures Take(old(Unread()), n) == if ok then Ok(bytes, Unread()) else Truncated
    {
      ghost var unread := Unread();
      ok := ReadFits(pos, n, size);
      if ok {
        bytes := buf[pos..pos + n];
        pos := pos + n;
        assert unread[..n] == bytes && unread[n..] == Unread();
      } else {
        bytes := [];
      }
    }

    /**
     * `pos_ptr(n)`: the offset in `buf` of the next `n` bytes, moving past
     * them, or a failure, leaving the position alone, where the bound
     * assertion fires.
     */
    method PosPtr(n: SizeT) returns (ok: bool, ptr: nat)
      requires Valid()
      modifies this
      ensures Valid()
      ensures ok <==> old(pos) + n <= size
      ensures ok ==> ptr == old(pos) && ptr + n <= size && pos == old(pos) + n
      ensures !ok ==> pos == old(pos)
      ensures Take(old(Unread()), n) == if ok then Ok(buf[ptr..ptr + n], Unread()) else Truncated
    {
      ghost var unread := Unread();
      ok := ReadFits(pos, n, size);
      ptr := pos;
      if ok {
        pos := pos + n;
        assert unread[..n] == buf[ptr..ptr + n] && unread[n..] == Unread();
      }
    }
  }
}
