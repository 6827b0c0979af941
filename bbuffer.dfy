// Bounded ring buffer shared by a writer and a reader thread
// (lectures/net6/bbuffer-cond.cc).
//
// The mutex and the two condition variables are not modelled: each call runs
// as one atomic step under the lock, and a call that would wait on a
// condition variable returns `Blocked` with nothing changed.
module BoundedBuffer {

  const CAPACITY: nat := 128

  /** Slot of the k-th buffered byte when the first one is at `pos`. */
  function Slot(pos: nat, k: nat): (s: nat)
    requires pos < CAPACITY && k < CAPACITY
    ensures s < CAPACITY
    ensures s == if pos + k < CAPACITY then pos + k else pos + k - CAPACITY
  {
    (pos + k) % CAPACITY
  }

  /** `(pos + n) % capacity` for an advance of at most one full turn. */
  function Advance(pos: nat, n: nat): (s: nat)
    requires pos < CAPACITY && n <= CAPACITY
    ensures s < CAPACITY
    ensures s == if pos + n < CAPACITY then pos + n else pos + n - CAPACITY
  {
    (pos + n) % CAPACITY
  }

  /** Different offsets below the capacity land in different slots. */
  lemma {:induction false} SlotsDistinct(pos: nat, k1: nat, k2: nat)
    requires pos < CAPACITY && k1 < CAPACITY && k2 < CAPACITY && k1 != k2
    ensures Slot(pos, k1) != Slot(pos, k2)
  {
  }

  /** The slot after `Slot(pos, 0)` is where the byte at offset 1 lived. */
  lemma {:induction false} SlotAdvance(pos: nat, k: nat)
    requires pos < CAPACITY && k + 1 < CAPACITY
    ensures Slot(Slot(pos, 1), k) == Slot(pos, k + 1)
  {
  }

  datatype WriteResult =
    | Wrote(n: int)     // the count copied, or -1 for "try again"
    | Blocked           // the buffer is full: the writer waits on `nonfull_`
    | AssertFailed      // `assert(!write_closed_)`

  datatype ReadResult =
    | Got(n: int, data: seq<char>)   // the count read (or -1), and the bytes
    | Empty                          // nothing buffered, writes open: waits on `nonempty_`

  class BBuffer {
    var bbuf: array<char>
    var bpos: nat
    var blen: nat
    var writeClosed: bool

    ghost predicate Valid()
      reads this
    {
      bbuf.Length == CAPACITY && bpos < CAPACITY && blen <= CAPACITY
    }

    /** The buffered bytes in FIFO order. */
    ghost function Contents(): (c: seq<char>)
      reads this, bbuf
      requires Valid()
      ensures |c| == blen
    {
      var a, p, n := bbuf, bpos, blen;
      seq(n, k requires 0 <= k < n && p < CAPACITY && n <= CAPACITY == a.Length reads a =>
        a[Slot(p, k)])
    }

    constructor ()
      ensures Valid() && Contents() == [] && !writeClosed && bpos == 0 && fresh(bbuf)
    {
      bbuf := new char[CAPACITY];
      bpos := 0;
      blen := 0;
      writeClosed := false;
    }

    /**
     * `write(buf, sz)`: after shutdown the assertion fails; on a full buffer
     * the writer waits; otherwise the first `min(sz, capacity - blen)` bytes
     * of `buf` are appended and their count returned (-1 when none were
     * copied although sz > 0). `bpos` does not move.
     */
    method Write(buf: seq<char>) returns (res: WriteResult)
      requires Valid()
      modifies this, bbuf
      ensures Valid() && bbuf == old(bbuf) && bpos == old(bpos) && writeClosed == old(writeClosed)
      ensures old(writeClosed) ==> res == AssertFailed
      ensures !old(writeClosed) && old(blen) == CAPACITY ==> res == Blocked
      ensures res.AssertFailed? || res.Blocked? ==> blen == old(blen) && unchanged(bbuf)
      ensures !old(writeClosed) && old(blen) < CAPACITY ==>
        var n := if |buf| < CAPACITY - old(blen) then |buf| else CAPACITY - old(blen);
        res == Wrote(if n == 0 && |buf| > 0 then -1 else n) &&
        Contents() == old(Contents()) + buf[..n]
    {
      if writeClosed {
        return AssertFailed;
      }
      if blen == CAPACITY {
        return Blocked;
      }
      ghost var c0 := Contents();
      var pos := 0;
      while pos < |buf| && blen < CAPACITY
        invariant Valid() && bbuf == old(bbuf) && bpos == old(bpos) && writeClosed == old(writeClosed)
        invariant 0 <= pos <= |buf| && blen == old(blen) + pos
        invariant Contents() == c0 + buf[..pos]
      {
        PushBack(buf[pos]);
        pos := pos + 1;
        assert buf[..pos] == buf[..pos - 1] + [buf[pos - 1]];
      }
      if pos == 0 && |buf| > 0 {
        return Wrote(-1);
      } else {
        return Wrote(pos);
      }
    }

    /**
     * `read(buf, sz)`: with nothing buffered and writes open the reader
     * waits; otherwise the first `min(sz, blen)` bytes are removed in FIFO
     * order, and their count returned (0 once closed and empty; -1 when none
     * were read although sz > 0 and writes are open).
     */
    method Read(sz: nat) returns (res: ReadResult)
      requires Valid()
      modifies this
      ensures Valid() && bbuf == old(bbuf) && writeClosed == old(writeClosed)
      ensures old(blen) == 0 && !old(writeClosed) ==> res == Empty && blen == 0 && bpos == old(bpos)
      ensures old(blen) > 0 || old(writeClosed) ==>
        var n := if sz < old(blen) then sz else old(blen);
        res == Got(if n == 0 && sz > 0 && !writeClosed then -1 else n, old(Contents())[..n]) &&
        Contents() == old(Contents())[n..] &&
        bpos == Advance(old(bpos), n)
    {
      if blen == 0 && !writeClosed {
        return Empty;
      }
      ghost var c0 := Contents();
      var data: seq<char> := [];
      var pos := 0;
      while pos < sz && blen > 0
        invariant Valid() && bbuf == old(bbuf) && writeClosed == old(writeClosed)
        invariant 0 <= pos <= sz && pos <= |c0| && blen == |c0| - pos
        invariant data == c0[..pos] && Contents() == c0[pos..]
        invariant bpos == Advance(old(bpos), pos)
      {
        var ch := PopFront();
        data := data + [ch];
        pos := pos + 1;
        assert c0[pos..] == c0[pos - 1..][1..];
        assert c0[..pos] == c0[..pos - 1] + [c0[pos - 1]];
      }
      if pos == 0 && sz > 0 && !writeClosed {
        return Got(-1, data);
      } else {
        return Got(pos, data);
      }
    }

    /** One iteration of the copy loop in `write`: the byte goes to slot `(bpos + blen) % capacity`. */
    method PushBack(ch: char)
      requires Valid() && blen < CAPACITY
      modifies this, bbuf
      ensures Valid() && bbuf == old(bbuf) && bpos == old(bpos) && writeClosed == old(writeClosed)
      ensures blen == old(blen) + 1
      ensures Contents() == old(Contents()) + [ch]
    {
      ghost var c := Contents();
      bbuf[Slot(bpos, blen)] := ch;
      blen := blen + 1;
      forall k | 0 <= k < blen - 1
        ensures bbuf[Slot(bpos, k)] == c[k]
      {
        SlotsDistinct(bpos, k, blen - 1);
      }
    }

    /** One iteration of the copy loop in `read`: the byte at `bpos` leaves. */
    method PopFront() returns (ch: char)
      requires Valid() && blen > 0
      modifies this
      ensures Valid() && bbuf == old(bbuf) && writeClosed == old(writeClosed)
      ensures blen == old(blen) - 1 && bpos == Slot(old(bpos), 1)
      ensures ch == old(Contents())[0] && Contents() == old(Contents())[1..]
    {
      ghost var c := Contents();
      ghost var p := bpos;
      ch := bbuf[bpos];
      bpos := Slot(bpos, 1);
      blen := blen - 1;
      forall k | 0 <= k < blen
        ensures bbuf[Slot(bpos, k)] == c[k + 1]
      {
        SlotAdvance(p, k);
      }
    }

    /** `shutdown_write()`: sets the flag; the buffered bytes stay. */
    method ShutdownWrite()
      requires Valid()
      modifies this
      ensures Valid() && writeClosed
      ensures bbuf == old(bbuf) && bpos == old(bpos) && blen == old(blen)
      ensures Contents() == old(Contents())
    {
      writeClosed := true;
    }
  }
}
