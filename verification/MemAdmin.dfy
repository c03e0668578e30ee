/** The buffers and fragment queues of memadmin.cxx. */
module MemAdmin {
  import opened Bytes
  import opened FifoQueues

  /** A buffer with a write position.  base_len bytes are in use; the last len of them start at buf. */
  class BufHandler {
    var freeSize: U32
    var baseLen: U32
    var maxSize: U32
    var len: U32
    var buf: nat  // the offset of the write pointer from the base
    var base: array?<Byte>

    predicate Valid()
      reads this
    {
      base != null && base.Length == maxSize && buf + len == baseLen <= maxSize
    }

    /** All the bytes added so far. */
    function Contents(): Bytes
      requires Valid()
      reads this, base
    {
      base[..baseLen]
    }

    /** InitBuf */
    constructor ()
      ensures base == null
    {
      freeSize, baseLen, maxSize, len, buf, base := 0, 0, 0, 0, 0, null;
    }

    method AllocBuf(size: U32) returns (ok: bool)
      modifies this
      ensures ok == (old(base) == null)
      ensures ok ==> Valid() && fresh(base) && maxSize == size && freeSize == size && buf == 0 && Contents() == []
      ensures !ok ==> unchanged(this)
    {
      if base != null {
        return false;
      }
      base := new Byte[size](_ => 0);
      len, baseLen, maxSize, freeSize, buf := 0, 0, size, size, 0;
      return true;
    }

    method GetBufFreeSize() returns (free: U32)
      modifies this
      ensures old(baseLen) <= maxSize ==> unchanged(this) && free == maxSize - baseLen
      ensures old(baseLen) > maxSize ==> free == 0 && baseLen == maxSize && buf == 0 && len == 0
      ensures base == old(base) && maxSize == old(maxSize)
    {
      if baseLen > maxSize {
        baseLen, buf, len := maxSize, 0, 0;
      }
      return maxSize - baseLen;
    }

    /** Appends size bytes, unless there is no room for them. */
    method AddToBuf(src: array?<Byte>, size: U32) returns (ok: bool)
      requires Valid() && if src == null then size == 0 else src != base && size <= src.Length
      modifies this, base
      ensures Valid() && base == old(base) && maxSize == old(maxSize)
      ensures ok == (old(baseLen) + size <= maxSize)
      ensures Contents() == old(Contents()) + if ok && src != null then src[..size] else []
    {
      var free := GetBufFreeSize();
      if free < size {
        return false;
      }
      ghost var was := base[..baseLen];
      buf := buf + len;
      for i := 0 to size
        invariant base != null && base.Length == maxSize && base == old(base) && baseLen == old(baseLen) && buf == baseLen && len == old(len)
        invariant maxSize == old(maxSize) && free == maxSize - baseLen
        invariant base[..baseLen] == was && base[buf..buf + i] == (if src != null then src[..i] else [])
      {
        base[buf + i] := src[i];
        assert base[..baseLen] == was;
      }
      len := size;
      baseLen := baseLen + size;
      return true;
    }

    /** SafeMoveToStartPointerBuf */
    method MoveToStart()
      requires Valid()
      modifies this
      ensures Valid() && buf == 0 && len == baseLen == old(baseLen) && base == old(base) && maxSize == old(maxSize)
    {
      buf, len := 0, baseLen;
    }
  }

  /** A queue of byte fragments.  The first element of the list is one that has been read already: it owns the buffer
      that the last GetLastBuf returned. */
  class FragFifo {
    var qcount: int
    var qcountBsize: U32
    var fifo: seq<Bytes>

    ghost predicate Valid()
      reads this
    {
      qcount >= 0 && |fifo| == qcount + 1 && qcountBsize == Wrap(TotalSize(fifo[1..]))
    }

    /** The fragments not yet read. */
    ghost function Unread(): seq<Bytes>
      requires Valid()
      reads this
    {
      fifo[1..]
    }

    /** The byte count is exact: it has not wrapped round. */
    ghost predicate Exact()
      requires Valid()
      reads this
    {
      TotalSize(Unread()) <= QCOUNT_MAX_SIZE
    }

    constructor ()
      ensures Valid() && Unread() == [] && Exact()
    {
      qcount, qcountBsize, fifo := 0, 0, [[]];
    }

    /** Copies a fragment to the end of the queue.  The sum is computed in 32 bits, so the limit holds on if and only if
        the true sum has no more. */
    method PushBuf(src: array<Byte>, at: nat, size: U32) returns (ok: bool)
      requires Valid() && at + size <= src.Length
      modifies this
      ensures Valid() && fifo[0] == old(fifo[0])
      ensures ok == (Wrap(old(qcountBsize) + size) <= QCOUNT_MAX_SIZE)
      ensures Unread() == old(Unread()) + if ok then [src[at..at + size]] else []
      ensures old(Exact()) ==> (Exact() <==> TotalSize(old(Unread())) + size < TWO32)
      ensures old(Exact()) && Exact() ==> Unread() == Push(old(Unread()), src[at..at + size])
    {
      hide TotalSize;
      var m := src[at..at + size];
      TotalSizeAppend(fifo[1..], m);
      if Wrap(qcountBsize + size) > QCOUNT_MAX_SIZE {
        return false;
      }
      fifo := fifo + [m];
      assert fifo[1..] == old(fifo[1..]) + [m];
      qcount := qcount + 1;
      qcountBsize := Wrap(qcountBsize + size);
      return true;
    }

    /** Drops the fragment read before and gives out the next one, which stays at the front of the list. */
    method GetLastBuf() returns (buf: Option<Bytes>)
      requires Valid()
      modifies this
      ensures Valid() && (old(Exact()) ==> Exact())
      ensures buf == if old(Unread()) == [] then None else Some(old(Unread())[0])
      ensures buf.None? ==> unchanged(this)
      ensures buf.Some? ==> Unread() == old(Unread())[1..] && fifo[0] == buf.value
    {
      if qcount <= 0 {
        return None;
      }
      hide TotalSize;
      TotalSizeFirst(fifo[1..]);
      fifo := fifo[1..];
      qcount := qcount - 1;
      qcountBsize := Wrap(qcountBsize - |fifo[0]|);
      return Some(fifo[0]);
    }
  }

  lemma TotalSizeAppend(q: seq<Bytes>, m: Bytes)
    ensures TotalSize(q + [m]) == TotalSize(q) + |m|
  {
    assert (q + [m])[..|q|] == q;
  }
}
