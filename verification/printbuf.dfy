/** The growable output buffer of printbuf.c. */
module PrintBuf {
  import opened Bytes

  const INITIAL_SIZE: nat := 32

  class PrintBuf {
    var buf: array<byte>
    var bpos: nat
    var size: nat
    ghost var peak: nat    // the longest content held since creation
    ghost var copied: nat  // old capacity copied by all the growth so far

    ghost predicate Valid()
      reads this, buf
    {
      && size == buf.Length
      && INITIAL_SIZE <= size
      && bpos < size
      && bpos <= peak
      && size <= Max(INITIAL_SIZE, 2 * peak)
      && copied <= size
    }

    function Contents(): bytes
      requires Valid()
      reads this, buf
    {
      buf[..bpos]
    }

    // Holds from the first append or reset on: a C reader of buf stops in bounds.
    predicate Terminated()
      requires Valid()
      reads this, buf
    {
      buf[bpos] == NUL
    }

    constructor ()
      ensures Valid() && fresh(buf)
      ensures Contents() == []
      ensures size == INITIAL_SIZE == 32
    {
      size := INITIAL_SIZE;
      bpos := 0;
      buf := new byte[INITIAL_SIZE];
      peak, copied := 0, 0;
    }

    method MemAppend(s: bytes)
      requires Valid()
      modifies this, buf
      ensures Valid() && Terminated()
      ensures buf == old(buf) || fresh(buf)
      ensures Contents() == old(Contents()) + s
      ensures peak == Max(old(peak), |Contents()|)
      ensures size == if old(size) - old(bpos) <= |s| then Max(2 * old(size), old(bpos) + |s| + 8) else old(size)
    {
      peak := Max(peak, bpos + |s|);
      if size - bpos <= |s| {
        Grow(Max(size * 2, bpos + |s| + 8));
      }
      ghost var before := old(buf[..bpos]);
      assert buf[..bpos] == before;
      Copy(s);
      bpos := bpos + |s|;
      buf[bpos] := NUL;
      assert buf[..bpos] == before + s;
    }

    // realloc
    method Grow(newSize: nat)
      requires size == buf.Length && bpos <= size <= newSize
      modifies this`buf, this`size, this`copied
      ensures fresh(buf) && buf.Length == size == newSize && copied == old(copied) + old(size)
      ensures buf[..bpos] == old(buf[..bpos])
    {
      var t := new byte[newSize];
      forall i | 0 <= i < size {
        t[i] := buf[i];
      }
      copied := copied + size;
      size := newSize;
      buf := t;
    }

    // memcpy to the end of the content
    method Copy(s: bytes)
      requires bpos + |s| <= buf.Length
      modifies buf
      ensures buf[..bpos] == old(buf[..bpos]) && buf[bpos..bpos + |s|] == s
    {
      forall i | 0 <= i < |s| {
        buf[bpos + i] := s[i];
      }
    }

    method Reset()
      requires Valid()
      modifies this, buf
      ensures Valid() && Terminated()
      ensures buf == old(buf)
      ensures Contents() == []
      ensures peak == old(peak) && size == old(size) && copied == old(copied)
    {
      buf[0] := NUL;
      bpos := 0;
    }
  }
}
