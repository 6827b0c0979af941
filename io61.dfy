// Single-slot buffered I/O over a file descriptor (psets/pset4/io61.cc).
//
// The descriptor is modelled as the file's bytes `disk` and its file
// position `offset`; `read`, `write` and `lseek` act on them as POSIX
// describes for a regular file, except that each call may instead fail
// (return -1), which the caller of a model operation decides through a
// `fails` argument. What each `write` returns is likewise an argument:
// -1, or how many bytes it wrote, which may be fewer than it was handed.
// A failed call changes nothing.
//
// Each operation is first given as a function from one snapshot of the
// `io61_file` (a `Cache`) to the next, following the C code branch by
// branch; the lemmas then say what those steps mean for the bytes a
// program reads or writes, and the `File` class at the end performs the
// same steps in place on a `buf` array.
module Io61 {

  newtype byte = x: int | 0 <= x < 256

  const BUFSIZE: int := 16384

  datatype Mode = ReadOnly | WriteOnly

  /** What an operation returns, or its `assert` failing. */
  datatype Ret = Ret(n: int) | AssertFailed

  function Min(a: int, b: int): int { if a < b then a else b }
  function Max(a: int, b: int): int { if a < b then b else a }

  /** The bytes `read(fd, _, n)` returns from file position `off`. */
  function ReadAt(d: seq<byte>, off: int, n: int): (r: seq<byte>)
    requires off >= 0
    ensures |r| == Max(0, Min(n, |d| - off))
  {
    if n <= 0 || off >= |d| then [] else d[off..Min(off + n, |d|)]
  }

  /**
   * The file after `write(fd, a, |a|)` at position p: bytes past the end are
   * zero-filled up to p, and an empty write changes nothing.
   */
  function Overwrite(d: seq<byte>, p: nat, a: seq<byte>): (r: seq<byte>)
    ensures |r| == if |a| == 0 then |d| else Max(|d|, p + |a|)
    ensures forall k :: 0 <= k < |r| && p <= k < p + |a| ==> r[k] == a[k - p]
    ensures forall k :: 0 <= k < |r| && !(p <= k < p + |a|) ==>
      r[k] == if k < |d| then d[k] else 0
  {
    var n := if |a| == 0 then |d| else Max(|d|, p + |a|);
    seq(n, k requires 0 <= k < n =>
      if p <= k < p + |a| then a[k - p] else if k < |d| then d[k] else 0)
  }

  /** `memcpy(b + off, a, |a|)` on the cache's bytes. */
  function Splice(b: seq<byte>, off: int, a: seq<byte>): (r: seq<byte>)
    requires 0 <= off && off + |a| <= |b|
    ensures |r| == |b|
  {
    b[..off] + a + b[off + |a|..]
  }

  /** Writing a then b straight after it is writing a + b. */
  lemma {:induction false} OverwriteCompose(d: seq<byte>, p: nat, a: seq<byte>, b: seq<byte>)
    ensures Overwrite(Overwrite(d, p, a), p + |a|, b) == Overwrite(d, p, a + b)
  {
    var l := Overwrite(Overwrite(d, p, a), p + |a|, b);
    var r := Overwrite(d, p, a + b);
    assert |l| == |r|;
    forall k | 0 <= k < |l|
      ensures l[k] == r[k]
    {
      if p + |a| <= k < p + |a| + |b| {
      } else if p <= k < p + |a| {
      } else {
      }
    }
  }

  /** Reading sz bytes from p is reading the first n of them, then the rest. */
  lemma {:induction false} ReadAtSplit(d: seq<byte>, p: int, n: int, sz: int)
    requires 0 <= p && 0 <= n <= sz && p + n <= |d|
    ensures ReadAt(d, p, sz) == d[p..p + n] + ReadAt(d, p + n, sz - n)
  {
    var l := ReadAt(d, p, sz);
    var r := d[p..p + n] + ReadAt(d, p + n, sz - n);
    assert |l| == |r|;
    forall k | 0 <= k < |l|
      ensures l[k] == r[k]
    {
      if k >= n {
        assert r[k] == ReadAt(d, p + n, sz - n)[k - n];
      }
    }
  }

  /** A snapshot of an `io61_file` together with its descriptor's file and position. */
  datatype Cache = Cache(buf: seq<byte>, tag: int, endTag: int, posTag: int, seekIdx: int,
                         disk: seq<byte>, offset: int)

  /** One operation's outcome: the new snapshot, the return value, the bytes handed out. */
  datatype Step = Step(after: Cache, r: Ret, out: seq<byte>)

  /** The condition `read`, `write` and `flush` assert on entry. */
  predicate TagsOrdered(c: Cache)
  {
    c.tag <= c.posTag && c.posTag <= c.endTag && c.endTag - c.posTag <= BUFSIZE
  }

  /** The state a failed refill in `readc` leaves: `pos_tag` past `end_tag`. */
  predicate ReadcFailed(c: Cache)
  {
    c.posTag == c.tag + 1 && c.endTag == c.tag - 1
  }

  /** What every operation keeps, in each mode. */
  ghost predicate Inv(c: Cache, m: Mode)
  {
    |c.buf| == BUFSIZE && c.offset >= 0 &&
    0 <= c.seekIdx < BUFSIZE && (c.seekIdx != 0 ==> c.tag == c.posTag == c.endTag) &&
    (m == WriteOnly ==>
      c.seekIdx == 0 && 0 <= c.tag <= c.posTag == c.endTag <= c.tag + BUFSIZE && c.offset == c.tag) &&
    (m == ReadOnly ==> (TagsOrdered(c) && c.endTag - c.tag <= BUFSIZE) || ReadcFailed(c))
  }

  /**
   * Read mode: the cache holds the file's bytes [tag, end_tag) and the
   * descriptor sits at end_tag.
   */
  ghost predicate Coherent(c: Cache)
  {
    TagsOrdered(c) && c.tag >= 0 && c.offset == c.endTag && c.endTag - c.tag <= |c.buf| &&
    (c.tag < c.endTag ==> c.endTag <= |c.disk|) &&
    forall k :: 0 <= k < c.endTag - c.tag ==> c.buf[k] == c.disk[c.tag + k]
  }

  /** Write mode: the bytes written so far but not yet flushed. */
  function Pending(c: Cache): seq<byte>
    requires Inv(c, WriteOnly)
  {
    c.buf[..c.posTag - c.tag]
  }

  /** Write mode: the file as it will be once the cache is flushed. */
  ghost function Logical(c: Cache): seq<byte>
    requires Inv(c, WriteOnly)
  {
    Overwrite(c.disk, c.tag, Pending(c))
  }

  /** The snapshot `io61_fdopen` creates over a descriptor at the start of `d`. */
  function Open(b: seq<byte>, d: seq<byte>): (c: Cache)
    requires |b| == BUFSIZE
    ensures Inv(c, ReadOnly) && Inv(c, WriteOnly)
    ensures Coherent(c) && Logical(c) == d
  {
    Cache(b, 0, 0, 0, 0, d, 0)
  }

  /** `read(fd, buf, BUFSIZE)` into the cache: the count in `r`, or -1. */
  function Refill(c: Cache, fails: bool): (s: Step)
    requires |c.buf| == BUFSIZE && c.offset >= 0
    ensures s.r.Ret? && s.after.disk == c.disk && |s.after.buf| == BUFSIZE
    ensures s.after.tag == c.tag && s.after.posTag == c.posTag && s.after.endTag == c.endTag
    ensures s.after.seekIdx == c.seekIdx && s.after.offset >= 0
    ensures fails ==> s.r == Ret(-1) && s.after == c
    ensures !fails ==>
      s.out == ReadAt(c.disk, c.offset, BUFSIZE) && s.r == Ret(|s.out|) &&
      s.after.offset == c.offset + |s.out|
  {
    if fails then Step(c, Ret(-1), [])
    else
      var got := ReadAt(c.disk, c.offset, BUFSIZE);
      Step(c.(buf := Splice(c.buf, 0, got), offset := c.offset + |got|), Ret(|got|), got)
  }

  /** `io61_readc`; the character (or EOF) is `r`. */
  function Readc(c: Cache, m: Mode, fails: bool): (s: Step)
    requires Inv(c, m)
    ensures Inv(s.after, m) && s.after.disk == c.disk && s.r.Ret?
    ensures m == WriteOnly ==> s.r == Ret(-1) && s.after == c
  {
    if m == WriteOnly then Step(c, Ret(-1), [])
    else if c.posTag + 1 <= c.endTag then
      Step(c.(posTag := c.posTag + 1), Ret(c.buf[c.posTag - c.tag] as int), [])
    else ReadcRefill(c, fails)
  }

  /**
   * `io61_readc` past the cache: a refill, then `buf[seek_idx]`. A refill
   * that reads nothing returns EOF; one that fails (-1) is not noticed.
   */
  function ReadcRefill(c: Cache, fails: bool): (s: Step)
    requires Inv(c, ReadOnly) && c.posTag + 1 > c.endTag
    ensures Inv(s.after, ReadOnly) && s.after.disk == c.disk && s.r.Ret?
  {
    var f := Refill(c.(tag := c.endTag, posTag := c.endTag), fails);
    if f.r.n == 0 then Step(f.after, Ret(-1), [])
    else
      Step(f.after.(endTag := c.endTag + f.r.n, posTag := c.endTag + 1, seekIdx := 0),
           Ret(f.after.buf[c.seekIdx] as int), [])
  }

  /** The cached bytes not read yet, `buf[pos_tag - tag .. end_tag - tag]`. */
  function CachedRest(c: Cache): (r: seq<byte>)
    requires Inv(c, ReadOnly) && TagsOrdered(c)
    ensures |r| == c.endTag - c.posTag
    ensures Coherent(c) && c.posTag < c.endTag ==> r == c.disk[c.posTag..c.endTag]
  {
    if c.endTag > c.posTag then c.buf[c.posTag - c.tag..c.endTag - c.tag] else []
  }

  /** `io61_read(f, buf, sz)`; `out` is what lands in the caller's buffer, also when -1 is returned. */
  function Read(c: Cache, m: Mode, sz: nat, fails: bool): (s: Step)
    requires Inv(c, m)
    ensures Inv(s.after, m) && s.after.disk == c.disk
    ensures m == WriteOnly ==> s == Step(c, Ret(-1), [])
    ensures m == ReadOnly && !TagsOrdered(c) ==> s == Step(c, AssertFailed, [])
  {
    if m == WriteOnly then Step(c, Ret(-1), [])
    else if !TagsOrdered(c) then Step(c, AssertFailed, [])
    else if sz <= BUFSIZE && c.posTag + sz <= c.endTag then
      Step(c.(posTag := c.posTag + sz), Ret(sz), c.buf[c.posTag - c.tag..c.posTag - c.tag + sz])
    else if sz <= BUFSIZE - c.seekIdx then ReadRefill(c, sz, fails)
    else ReadDirect(c, sz, fails)
  }

  /**
   * The middle case of `io61_read`: the cached rest is copied, the cache
   * refilled, and up to the remaining count copied from `buf[seek_idx]`;
   * `pos_tag` advances by that count only.
   */
  function ReadRefill(c: Cache, sz: nat, fails: bool): (s: Step)
    requires Inv(c, ReadOnly) && TagsOrdered(c)
    requires !(sz <= BUFSIZE && c.posTag + sz <= c.endTag) && sz <= BUFSIZE - c.seekIdx
    ensures Inv(s.after, ReadOnly) && s.after.disk == c.disk
  {
    var dump := CachedRest(c);
    var f := FillAndCopy(c.(tag := c.endTag, posTag := c.endTag), sz - |dump|, fails);
    if f.r.n < 0 then Step(f.after, Ret(-1), dump)
    else Step(f.after, Ret(|dump| + f.r.n), dump + f.out)
  }

  /** `io61_read`'s refill path is the cached rest followed by what the refill copies. */
  lemma {:induction false} ReadRefillCompose(c: Cache, sz: nat, fails: bool, c1: Cache, want: int,
                          after: Cache, copied: int, got: seq<byte>)
    requires Inv(c, ReadOnly) && TagsOrdered(c)
    requires !(sz <= BUFSIZE && c.posTag + sz <= c.endTag) && sz <= BUFSIZE - c.seekIdx
    requires c1 == c.(tag := c.endTag, posTag := c.endTag) && want == sz - |CachedRest(c)|
    requires Inv(c1, ReadOnly) && c1.tag == c1.posTag == c1.endTag && 0 < want <= BUFSIZE - c1.seekIdx
    requires FillAndCopy(c1, want, fails) == Step(after, Ret(copied), got)
    ensures ReadRefill(c, sz, fails) ==
      if copied < 0 then Step(after, Ret(-1), CachedRest(c))
      else Step(after, Ret(|CachedRest(c) + got|), CachedRest(c) + got)
  {
  }

  /**
   * A refill of the dropped cache, then up to `want` bytes copied out of it
   * from `buf[seek_idx]`, their count in `r` (-1 if the refill fails).
   */
  function FillAndCopy(c: Cache, want: int, fails: bool): (s: Step)
    requires Inv(c, ReadOnly) && c.tag == c.posTag == c.endTag && 0 < want <= BUFSIZE - c.seekIdx
    ensures Inv(s.after, ReadOnly) && s.after.disk == c.disk && s.r.Ret?
    ensures s.r.n < 0 ==> s.r.n == -1 && s.out == [] && s.after.posTag == c.posTag
    ensures s.r.n >= 0 ==> |s.out| == s.r.n
  {
    var f := Refill(c, fails);
    if f.r.n < 0 then Step(f.after, Ret(-1), [])
    else
      var copy := Min(want, f.r.n);
      Step(f.after.(endTag := c.endTag + f.r.n, posTag := c.endTag + copy, seekIdx := 0),
           Ret(copy), f.after.buf[c.seekIdx..c.seekIdx + copy])
  }

  /**
   * The last case of `io61_read`: the cached rest is copied and the
   * remainder read directly into the caller's buffer. On success all tags
   * become `end_tag + r + seek_idx`; on failure the cached count is
   * returned (-1 if it is 0).
   */
  function ReadDirect(c: Cache, sz: nat, fails: bool): (s: Step)
    requires Inv(c, ReadOnly) && TagsOrdered(c)
    requires !(sz <= BUFSIZE && c.posTag + sz <= c.endTag) && !(sz <= BUFSIZE - c.seekIdx)
    ensures Inv(s.after, ReadOnly) && s.after.disk == c.disk
  {
    var dump := CachedRest(c);
    if fails then Step(c, Ret(if |dump| == 0 then -1 else |dump|), dump)
    else
      var got := ReadAt(c.disk, c.offset, sz - |dump|);
      var t := c.endTag + |got| + c.seekIdx;
      Step(c.(offset := c.offset + |got|, tag := t, posTag := t, endTag := t, seekIdx := 0),
           Ret(|dump| + |got|), dump + got)
  }

  /**
   * `io61_flush(f)`; `wrote` is what `write` returns: -1 when it fails,
   * otherwise how many of the pending bytes it wrote, and `out` is what
   * reached the file. A short write fails the assertion that every
   * pending byte was written: the bytes it did write are in the file and
   * the process dies there. (A count above the pending length, which
   * `write` never returns, fails that assertion too.)
   */
  function Flush(c: Cache, m: Mode, wrote: int): (s: Step)
    requires Inv(c, m)
    ensures Inv(s.after, m)
    ensures m == ReadOnly ==> s == Step(c, Ret(0), [])
    ensures m == WriteOnly && s.r.Ret? && s.r.n >= 0 ==> s.after.tag == s.after.posTag == c.posTag
    ensures s.r.AssertFailed? ==> m == WriteOnly && 0 <= wrote && wrote != c.posTag - c.tag
  {
    if m == ReadOnly then Step(c, Ret(0), [])
    else if !(TagsOrdered(c) && c.posTag == c.endTag) then Step(c, AssertFailed, [])
    else
      var n := c.posTag - c.tag;
      if n != 0 then
        if wrote < 0 then Step(c, Ret(-1), [])
        else if wrote != n then
          var w := Min(wrote, n);
          Step(c.(disk := Overwrite(c.disk, c.offset, c.buf[..w])), AssertFailed, c.buf[..w])
        else
          Step(c.(disk := Overwrite(c.disk, c.offset, c.buf[..n]), offset := c.offset + n, tag := c.tag + n),
               Ret(n), c.buf[..n])
      else Step(c, Ret(0), [])
  }

  /**
   * Write mode: `memcpy(f->buf + filled_sz, data, |data|)` and both
   * `pos_tag` and `end_tag` advanced by |data|, which appends data to what
   * the program has written.
   */
  function Append(c: Cache, data: seq<byte>): (r: Cache)
    requires Inv(c, WriteOnly) && c.posTag - c.tag + |data| <= BUFSIZE
    ensures Inv(r, WriteOnly) && r.disk == c.disk && r.tag == c.tag && r.offset == c.offset
    ensures r.posTag == r.endTag == c.posTag + |data|
    ensures Pending(r) == Pending(c) + data
    ensures Logical(r) == Overwrite(Logical(c), c.posTag, data)
  {
    var r := c.(buf := Splice(c.buf, c.posTag - c.tag, data), posTag := c.posTag + |data|,
                endTag := c.endTag + |data|);
    assert Pending(r) == Pending(c) + data;
    OverwriteCompose(c.disk, c.tag, Pending(c), data);
    r
  }

  /**
   * `io61_writec(f, ch)`: `ch` is stored as an unsigned char; `flushed` is
   * what the flush's `write` returns when the cache is full.
   */
  function Writec(c: Cache, m: Mode, ch: int, flushed: int): (s: Step)
    requires Inv(c, m)
    ensures Inv(s.after, m)
    ensures m == ReadOnly ==> s == Step(c, Ret(-1), [])
    ensures s.r.AssertFailed? ==> Flush(c, m, flushed).r.AssertFailed?
  {
    if m == ReadOnly then Step(c, Ret(-1), [])
    else if c.posTag - c.tag + 1 <= BUFSIZE then Step(Append(c, [(ch % 256) as byte]), Ret(0), [])
    else
      var f := Flush(c, m, flushed);
      if f.r.AssertFailed? then f
      else if f.r.n < 0 then Step(f.after, Ret(-1), [])
      else Step(Append(f.after, [(ch % 256) as byte]), Ret(0), [])
  }

  /**
   * `io61_write(f, data, |data|)`; `flushed` is what the flush's `write`
   * returns, and `written` what the direct `write` of the last case
   * returns: -1 when it fails, or how many bytes it wrote.
   */
  function Write(c: Cache, m: Mode, data: seq<byte>, flushed: int, written: int): (s: Step)
    requires Inv(c, m) && -1 <= written <= |data|
    ensures Inv(s.after, m)
    ensures m == ReadOnly ==> s == Step(c, Ret(-1), [])
  {
    if m == ReadOnly then Step(c, Ret(-1), [])
    else if !(TagsOrdered(c) && c.posTag == c.endTag) then Step(c, AssertFailed, [])
    else if |data| <= BUFSIZE && |data| <= BUFSIZE - (c.posTag - c.tag) then
      Step(Append(c, data), Ret(|data|), [])
    else if |data| <= BUFSIZE then WriteFillFlush(c, data, flushed)
    else WriteDirect(c, data, flushed, written)
  }

  /** The middle case of `io61_write`: fill the cache, flush it, put the rest in it. */
  function WriteFillFlush(c: Cache, data: seq<byte>, flushed: int): (s: Step)
    requires Inv(c, WriteOnly) && BUFSIZE - (c.posTag - c.tag) < |data| <= BUFSIZE
    ensures Inv(s.after, WriteOnly)
  {
    var empty := BUFSIZE - (c.posTag - c.tag);
    var f := Flush(Append(c, data[..empty]), WriteOnly, flushed);
    if f.r.AssertFailed? then f
    else if f.r.n < 0 then Step(f.after, Ret(-1), [])
    else Step(Append(f.after, data[empty..]), Ret(|data|), [])
  }

  /**
   * The last case of `io61_write`: flush, then write data directly; the
   * first `written` bytes reach the file, all tags move past them and that
   * count is returned, short or not.
   */
  function WriteDirect(c: Cache, data: seq<byte>, flushed: int, written: int): (s: Step)
    requires Inv(c, WriteOnly) && -1 <= written <= |data|
    ensures Inv(s.after, WriteOnly)
  {
    var f := Flush(c, WriteOnly, flushed);
    if f.r.AssertFailed? then f
    else if f.r.n < 0 || written < 0 then Step(f.after, Ret(-1), [])
    else
      var t := f.after.endTag + written;
      Step(f.after.(disk := Overwrite(f.after.disk, f.after.offset, data[..written]),
                    offset := f.after.offset + written, tag := t, posTag := t, endTag := t),
           Ret(written), data[..written])
  }

  /** `off % BUFSIZE` as C computes it on an `off_t`: truncated toward zero. */
  function CRem(off: int): (r: int)
    ensures off >= 0 ==> r == off % BUFSIZE
    ensures -BUFSIZE < r < BUFSIZE && (off - r) % BUFSIZE == 0
    ensures off < 0 ==> r <= 0 && off - r <= 0
    ensures -BUFSIZE < off < 0 ==> r == off
  {
    if off >= 0 then off % BUFSIZE else -((-off) % BUFSIZE)
  }

  /** What `lseek(fd, off, SEEK_SET)` returns: -1 when it fails or off is negative. */
  function Lseek(off: int, fails: bool): int
  {
    if fails || off < 0 then -1 else off
  }

  /**
   * `io61_seek(f, pos)`. Read mode: inside the cache only `pos_tag` moves;
   * otherwise the descriptor is moved to the block boundary below pos and
   * `seek_idx` records the distance. Write mode: a flush whose result is
   * ignored (unless its assertion kills the process), then the descriptor
   * and all tags move to pos. The seek counts
   * as done when `lseek` returns the offset asked for, so a negative pos
   * whose aligned offset is 0 (read mode) or that is -1 (write mode) passes.
   */
  function Seek(c: Cache, m: Mode, pos: int, flushed: int, seekFails: bool): (s: Step)
    requires Inv(c, m)
    ensures pos >= 0 ==> Inv(s.after, m)
    ensures s.r.Ret? ==> s.r.n in {0, -1}
    ensures s.r.AssertFailed? ==> m == WriteOnly && Flush(c, m, flushed).r.AssertFailed?
    ensures !s.r.Ret? || s.r.n == -1 ==> Inv(s.after, m)
  {
    if m == ReadOnly then
      if pos >= c.tag && pos < c.endTag then Step(c.(posTag := pos), Ret(0), [])
      else
        var aligned := pos - CRem(pos);
        if Lseek(aligned, seekFails) != aligned then Step(c, Ret(-1), [])
        else
          Step(c.(offset := aligned, tag := aligned, posTag := aligned, endTag := aligned,
                  seekIdx := pos - aligned),
               Ret(0), [])
    else
      var f := Flush(c, m, flushed);
      if f.r.AssertFailed? then f
      else if Lseek(pos, seekFails) != pos then Step(f.after, Ret(-1), [])
      else Step(f.after.(offset := if pos < 0 then f.after.offset else pos, tag := pos, posTag := pos, endTag := pos),
                Ret(0), [])
  }
}

module Io61Properties {
  import opened Io61

  // ---- Reading ----

  /**
   * From a coherent cache, `readc` returns the file's byte at `pos_tag`
   * (EOF at the end of the file), then stands one byte further on, and the
   * cache stays coherent.
   */
  lemma {:induction false} ReadcFromFile(c: Cache)
    requires Inv(c, ReadOnly) && Coherent(c) && c.seekIdx == 0
    ensures var s := Readc(c, ReadOnly, false);
      Coherent(s.after) &&
      s.r == Ret(if c.posTag < |c.disk| then c.disk[c.posTag] as int else -1) &&
      s.after.posTag == c.posTag + (if c.posTag < |c.disk| then 1 else 0)
  {
    if c.posTag + 1 > c.endTag {
      ReadcRefillFromFile(c);
    }
  }

  lemma {:induction false} ReadcRefillFromFile(c: Cache)
    requires Inv(c, ReadOnly) && Coherent(c) && c.seekIdx == 0 && c.posTag + 1 > c.endTag
    ensures var s := ReadcRefill(c, false);
      Coherent(s.after) &&
      s.r == Ret(if c.posTag < |c.disk| then c.disk[c.posTag] as int else -1) &&
      s.after.posTag == c.posTag + (if c.posTag < |c.disk| then 1 else 0)
  {
    var c1 := c.(tag := c.endTag, posTag := c.endTag);
    var f := Refill(c1, false);
    RefillCoherent(c1);
    RefillContents(c1);
    if f.r.n != 0 {
      assert f.after.buf[0] == f.after.buf[..|f.out|][0] == f.out[0];
      MovePos(f.after.(endTag := c.endTag + f.r.n), c.endTag + 1);
    }
  }

  /** A refill of a dropped cache at the descriptor's position makes it coherent. */
  lemma {:induction false} RefillCoherent(c: Cache)
    requires |c.buf| == BUFSIZE && c.tag >= 0 && c.tag == c.posTag == c.endTag == c.offset
    ensures var f := Refill(c, false);
      Coherent(f.after.(endTag := c.endTag + f.r.n))
  {
    var f := Refill(c, false);
    var c2 := f.after.(endTag := c.endTag + f.r.n);
    RefillContents(c);
    forall k | 0 <= k < c2.endTag - c2.tag
      ensures c2.buf[k] == c2.disk[c2.tag + k]
    {
      assert c2.buf[k] == f.after.buf[..|f.out|][k] == f.out[k];
    }
  }

  /** Moving `pos_tag` inside the cache keeps it coherent. */
  lemma {:induction false} MovePos(c: Cache, p: int)
    requires Coherent(c) && c.tag <= p <= c.endTag && c.endTag - c.tag <= BUFSIZE
    ensures Coherent(c.(posTag := p))
  {
  }

  /**
   * From a coherent cache, `read` of sz bytes hands out exactly the file's
   * bytes from `pos_tag` (fewer at the end of the file), returns their
   * count, advances `pos_tag` past them and keeps the cache coherent.
   */
  lemma {:induction false} ReadFromFile(c: Cache, sz: nat)
    requires Inv(c, ReadOnly) && Coherent(c) && c.seekIdx == 0
    ensures var s := Read(c, ReadOnly, sz, false);
      s.out == ReadAt(c.disk, c.posTag, sz) && s.r == Ret(|s.out|) &&
      s.after.posTag == c.posTag + |s.out| && Coherent(s.after)
  {
    if sz <= BUFSIZE && c.posTag + sz <= c.endTag {
      var s := Read(c, ReadOnly, sz, false);
      assert s.out == ReadAt(c.disk, c.posTag, sz);
    } else if sz <= BUFSIZE - c.seekIdx {
      ReadRefillFromFile(c, sz);
    } else {
      ReadDirectFromFile(c, sz);
    }
  }

  lemma {:induction false} ReadRefillFromFile(c: Cache, sz: nat)
    requires Inv(c, ReadOnly) && Coherent(c) && c.seekIdx == 0
    requires !(sz <= BUFSIZE && c.posTag + sz <= c.endTag) && sz <= BUFSIZE - c.seekIdx
    ensures var s := ReadRefill(c, sz, false);
      s.out == ReadAt(c.disk, c.posTag, sz) && s.r == Ret(|s.out|) &&
      s.after.posTag == c.posTag + |s.out| && Coherent(s.after)
  {
    var dump := CachedRest(c);
    var c1 := c.(tag := c.endTag, posTag := c.endTag);
    FillFromFile(c1, sz - |dump|);
    ReadAtAfterCache(c, sz, dump);
  }

  /** Refilling the dropped cache and copying up to `want` bytes hands out the file's bytes from `end_tag`. */
  lemma {:induction false} FillFromFile(c1: Cache, want: int)
    requires Inv(c1, ReadOnly) && Coherent(c1) && c1.tag == c1.posTag == c1.endTag && c1.seekIdx == 0
    requires 0 < want <= BUFSIZE
    ensures var f := FillAndCopy(c1, want, false);
      f.out == ReadAt(c1.disk, c1.endTag, want) && f.r == Ret(|f.out|) &&
      f.after.posTag == c1.endTag + |f.out| && Coherent(f.after)
  {
    FillOut(c1, want);
    FillCoherent(c1, want);
  }

  /** The bytes copied out after the refill are the file's bytes from `end_tag`. */
  lemma {:induction false} FillOut(c1: Cache, want: int)
    requires Inv(c1, ReadOnly) && Coherent(c1) && c1.tag == c1.posTag == c1.endTag && c1.seekIdx == 0
    requires 0 < want <= BUFSIZE
    ensures var f := FillAndCopy(c1, want, false);
      f.out == ReadAt(c1.disk, c1.endTag, want) && f.r == Ret(|f.out|)
  {
    var f := Refill(c1, false);
    var copy := Min(want, f.r.n);
    RefillContents(c1);
    assert f.after.buf[..copy] == f.out[..copy];
    ReadAtPrefix(c1.disk, c1.endTag, want, BUFSIZE);
  }

  /** After the refill and the copy the cache is coherent, with `pos_tag` past the bytes copied. */
  lemma {:induction false} FillCoherent(c1: Cache, want: int)
    requires Inv(c1, ReadOnly) && Coherent(c1) && c1.tag == c1.posTag == c1.endTag && c1.seekIdx == 0
    requires 0 < want <= BUFSIZE
    ensures var f := FillAndCopy(c1, want, false);
      f.after.posTag == c1.endTag + f.r.n && Coherent(f.after)
  {
    var f := Refill(c1, false);
    RefillCoherent(c1);
    MovePos(f.after.(endTag := c1.endTag + f.r.n), c1.endTag + Min(want, f.r.n));
  }

  /** Reading n bytes gives the first n (or fewer) of reading m >= n bytes. */
  lemma {:induction false} ReadAtPrefix(d: seq<byte>, off: int, n: int, m: int)
    requires off >= 0 && 0 <= n <= m
    ensures ReadAt(d, off, m)[..Min(n, |ReadAt(d, off, m)|)] == ReadAt(d, off, n)
  {
    if n > 0 && off < |d| {
      var whole := d[off..Min(off + m, |d|)];
      assert ReadAt(d, off, m) == whole;
      assert whole[..Min(n, |whole|)] == d[off..Min(off + n, |d|)];
    }
  }

  /** A refill puts the bytes it read at the front of the cache. */
  lemma {:induction false} RefillContents(c: Cache)
    requires |c.buf| == BUFSIZE && c.offset >= 0
    ensures var f := Refill(c, false); f.after.buf[..|f.out|] == f.out
  {
    var got := ReadAt(c.disk, c.offset, BUFSIZE);
    assert Splice(c.buf, 0, got) == got + c.buf[|got|..];
  }

  /** The bytes from the cached rest on are the cached rest, then the file from `end_tag`. */
  lemma {:induction false} ReadAtAfterCache(c: Cache, sz: nat, dump: seq<byte>)
    requires Inv(c, ReadOnly) && Coherent(c) && dump == CachedRest(c) && |dump| <= sz
    ensures ReadAt(c.disk, c.posTag, sz) == dump + ReadAt(c.disk, c.endTag, sz - |dump|)
  {
    if c.posTag < c.endTag {
      ReadAtSplit(c.disk, c.posTag, |dump|, sz);
    } else {
      assert dump == [];
    }
  }

  lemma {:induction false} ReadDirectFromFile(c: Cache, sz: nat)
    requires Inv(c, ReadOnly) && Coherent(c) && c.seekIdx == 0
    requires !(sz <= BUFSIZE && c.posTag + sz <= c.endTag) && !(sz <= BUFSIZE - c.seekIdx)
    ensures var s := ReadDirect(c, sz, false);
      s.out == ReadAt(c.disk, c.posTag, sz) && s.r == Ret(|s.out|) &&
      s.after.posTag == c.posTag + |s.out| && Coherent(s.after)
  {
    ReadAtAfterCache(c, sz, CachedRest(c));
  }

  /**
   * A direct `read` that fails returns the count of cached bytes already
   * handed out, or -1 when there were none, and changes nothing.
   */
  lemma {:induction false} ReadDirectError(c: Cache, sz: nat)
    requires Inv(c, ReadOnly) && TagsOrdered(c)
    requires !(sz <= BUFSIZE && c.posTag + sz <= c.endTag) && !(sz <= BUFSIZE - c.seekIdx)
    ensures var s := Read(c, ReadOnly, sz, true);
      |s.out| == c.endTag - c.posTag && s.after == c &&
      s.r == Ret(if c.posTag == c.endTag then -1 else c.endTag - c.posTag)
  {
  }

  /**
   * As written, a `read` whose refill fails returns -1 even though it has
   * already handed out the cached rest, and those bytes count as consumed:
   * `pos_tag` stands at the old `end_tag`.
   */
  lemma {:induction false} ReadRefillErrorAfterCopy(c: Cache, sz: nat)
    requires Inv(c, ReadOnly) && TagsOrdered(c) && c.posTag < c.endTag
    requires !(sz <= BUFSIZE && c.posTag + sz <= c.endTag) && sz <= BUFSIZE - c.seekIdx
    ensures var s := Read(c, ReadOnly, sz, true);
      s.r == Ret(-1) && |s.out| == c.endTag - c.posTag > 0 &&
      s.out == c.buf[c.posTag - c.tag..c.endTag - c.tag] &&
      s.after.posTag == s.after.endTag == c.endTag
  {
  }

  /**
   * As written, `readc` does not check its refill for -1: on a failed
   * refill it returns a stale cache byte rather than EOF, and leaves
   * `pos_tag` past `end_tag`, so that the next `read` fails its assertion.
   */
  lemma {:induction false} ReadcIgnoresReadError(c: Cache, sz: nat, fails: bool)
    requires Inv(c, ReadOnly) && c.posTag + 1 > c.endTag
    ensures var s := Readc(c, ReadOnly, true);
      s.r == Ret(c.buf[c.seekIdx] as int) && s.r.n != -1 && ReadcFailed(s.after) &&
      Read(s.after, ReadOnly, sz, fails).r == AssertFailed
  {
  }

  // ---- Seeking in read mode ----

  /**
   * A read-mode seek keeps the cache coherent and puts the position the
   * next read starts from, `pos_tag + seek_idx`, at pos.
   */
  lemma {:induction false} SeekReadCoherent(c: Cache, pos: int)
    requires Inv(c, ReadOnly) && Coherent(c) && pos >= 0
    ensures var s := Seek(c, ReadOnly, pos, 0, false);
      s.r == Ret(0) && Coherent(s.after) && s.after.posTag + s.after.seekIdx == pos &&
      (c.tag <= pos < c.endTag ==> s.after == c.(posTag := pos))
  {
  }

  /**
   * A read-mode seek to a position outside the cache, when `lseek`
   * succeeds: the descriptor and every tag move to the block boundary
   * below pos, and `seek_idx` is pos's distance from it.
   */
  lemma {:induction false} SeekOutsideCache(c: Cache, pos: int)
    requires Inv(c, ReadOnly) && pos >= 0 && !(c.tag <= pos < c.endTag)
    ensures var a := pos - pos % BUFSIZE;
      Seek(c, ReadOnly, pos, 0, false)
      == Step(c.(offset := a, tag := a, posTag := a, endTag := a, seekIdx := pos % BUFSIZE), Ret(0), [])
  {
  }

  /**
   * As written, `seek_idx` is never added to `pos_tag`: after a seek to a
   * position one past a block boundary, the first `readc` returns the byte
   * at pos but the second returns that same byte again.
   */
  lemma {:induction false} SeekIdxNotFolded(c: Cache, pos: int)
    requires Inv(c, ReadOnly) && Coherent(c) && pos >= 0
    requires pos % BUFSIZE == 1 && !(c.tag <= pos < c.endTag) && pos + 1 < |c.disk|
    ensures var s0 := Seek(c, ReadOnly, pos, 0, false).after;
      var s1 := Readc(s0, ReadOnly, false);
      var s2 := Readc(s1.after, ReadOnly, false);
      s1.r == Ret(c.disk[pos] as int) && s2.r == Ret(c.disk[pos] as int)
  {
    SeekOutsideCache(c, pos);
    var s0 := Seek(c, ReadOnly, pos, 0, false).after;
    var aligned := pos - 1;
    var f := Refill(s0.(tag := s0.endTag, posTag := s0.endTag), false);
    RefillContents(s0.(tag := s0.endTag, posTag := s0.endTag));
    assert |f.out| >= 3;
    assert f.after.buf[1] == f.after.buf[..|f.out|][1] == f.out[1] == c.disk[pos];
  }

  /**
   * As written, `io61_seek` lets some negative positions through: in read
   * mode every pos above -BUFSIZE, whose aligned offset 0 `lseek` accepts,
   * and in write mode pos == -1, which equals what a failing `lseek`
   * returns. Every other negative pos fails; one that passes leaves a
   * snapshot outside `Inv` (read mode: a negative `seek_idx`, which the
   * next refill uses as an index into the cache).
   */
  lemma {:induction false} SeekNegative(c: Cache, m: Mode, pos: int, flushed: int)
    requires Inv(c, m) && c.tag >= 0 && pos < 0
    requires flushed == -1 || flushed == c.posTag - c.tag
    ensures var s := Seek(c, m, pos, flushed, false);
      (s.r == Ret(0) <==> if m == ReadOnly then -BUFSIZE < pos else pos == -1) &&
      (s.r == Ret(0) ==> !Inv(s.after, m))
  {
  }

  // ---- Writing ----

  /** An empty write leaves the file as it is. */
  lemma {:induction false} OverwriteEmpty(d: seq<byte>, p: nat)
    ensures Overwrite(d, p, []) == d
  {
    assert |Overwrite(d, p, [])| == |d|;
  }

  /**
   * `flush` writes exactly the pending bytes at `tag`, so the file becomes
   * what the program has written, nothing is left pending, and it returns
   * the count written.
   */
  lemma {:induction false} FlushWritesPending(c: Cache)
    requires Inv(c, WriteOnly)
    ensures var s := Flush(c, WriteOnly, |Pending(c)|);
      s.out == Pending(c) && s.r == Ret(|Pending(c)|) &&
      s.after.disk == Logical(c) && Pending(s.after) == [] && Logical(s.after) == Logical(c)
  {
    var s := Flush(c, WriteOnly, |Pending(c)|);
    OverwriteEmpty(s.after.disk, s.after.tag);
    if c.posTag == c.tag {
      OverwriteEmpty(c.disk, c.tag);
    }
  }

  /** A `flush` whose write fails returns -1 and changes nothing. */
  lemma {:induction false} FlushError(c: Cache)
    requires Inv(c, WriteOnly) && Pending(c) != []
    ensures Flush(c, WriteOnly, -1) == Step(c, Ret(-1), [])
  {
  }

  /**
   * A `write` that takes only w of the pending bytes fails the assertion
   * in `flush`: those w bytes are in the file and the process dies, in
   * `writec` on a full cache and in a write-mode seek alike.
   */
  lemma {:induction false} FlushShortAborts(c: Cache, w: int, ch: int, pos: int)
    requires Inv(c, WriteOnly) && 0 <= w < |Pending(c)|
    ensures var s := Flush(c, WriteOnly, w);
      s == Step(c.(disk := Overwrite(c.disk, c.offset, Pending(c)[..w])), AssertFailed, Pending(c)[..w])
    ensures |Pending(c)| == BUFSIZE ==> Writec(c, WriteOnly, ch, w).r == AssertFailed
    ensures Seek(c, WriteOnly, pos, w, false).r == AssertFailed
  {
    assert Pending(c)[..w] == c.buf[..w];
  }

  /**
   * The same short `write` in the flush of the filling case of
   * `io61_write`, and in the flush before its direct case, kills the process.
   */
  lemma {:induction false} WriteShortFlushAborts(c: Cache, data: seq<byte>, w: int, written: int)
    requires Inv(c, WriteOnly) && -1 <= written <= |data|
    requires BUFSIZE - (c.posTag - c.tag) < |data|
    requires 0 <= w < (if |data| <= BUFSIZE then BUFSIZE else |Pending(c)|)
    ensures Write(c, WriteOnly, data, w, written).r == AssertFailed
  {
  }

  /** `writec` adds one byte at `pos_tag` to what the program has written and returns 0. */
  lemma {:induction false} WritecAppends(c: Cache, ch: int)
    requires Inv(c, WriteOnly)
    ensures var s := Writec(c, WriteOnly, ch, |Pending(c)|);
      s.r == Ret(0) && s.after.posTag == c.posTag + 1 &&
      Logical(s.after) == Overwrite(Logical(c), c.posTag, [(ch % 256) as byte])
  {
    if c.posTag - c.tag + 1 > BUFSIZE {
      FlushWritesPending(c);
    }
  }

  /** A full cache whose flush fails makes `writec` return -1 and change nothing. */
  lemma {:induction false} WritecError(c: Cache, ch: int)
    requires Inv(c, WriteOnly) && c.posTag - c.tag == BUFSIZE
    ensures Writec(c, WriteOnly, ch, -1) == Step(c, Ret(-1), [])
  {
  }

  /**
   * What a complete `write` in `io61_write`'s flush returns: the full
   * cache in the filling case, the pending bytes in the direct case.
   */
  function FlushCount(c: Cache, data: seq<byte>): nat
    requires Inv(c, WriteOnly)
  {
    if |data| <= BUFSIZE then BUFSIZE else |Pending(c)|
  }

  /**
   * `write` of data adds it at `pos_tag`, in order, to what the program has
   * written, keeps `pos_tag == end_tag` and returns |data|, in each of its
   * three cases.
   */
  lemma {:induction false} WriteAppends(c: Cache, data: seq<byte>)
    requires Inv(c, WriteOnly)
    ensures var s := Write(c, WriteOnly, data, FlushCount(c, data), |data|);
      s.r == Ret(|data|) && s.after.posTag == s.after.endTag == c.posTag + |data| &&
      Logical(s.after) == Overwrite(Logical(c), c.posTag, data)
  {
    if |data| <= BUFSIZE && |data| <= BUFSIZE - (c.posTag - c.tag) {
    } else if |data| <= BUFSIZE {
      WriteFillFlushAppends(c, data);
    } else {
      WriteDirectAppends(c, data);
    }
  }

  lemma {:induction false} WriteFillFlushAppends(c: Cache, data: seq<byte>)
    requires Inv(c, WriteOnly) && BUFSIZE - (c.posTag - c.tag) < |data| <= BUFSIZE
    ensures var s := WriteFillFlush(c, data, BUFSIZE);
      s.r == Ret(|data|) && s.after.posTag == s.after.endTag == c.posTag + |data| &&
      Logical(s.after) == Overwrite(Logical(c), c.posTag, data)
  {
    var empty := BUFSIZE - (c.posTag - c.tag);
    var c1 := Append(c, data[..empty]);
    var f := FillFlushShape(c, data);
    var c2 := Append(f, data[empty..]);
    ComposeAt(Logical(c), c.posTag, data, empty, Logical(c1), c1.posTag, Logical(c2));
  }

  /** The filled cache flushes without error to a snapshot with the same
      logical file and write position, and the rest of data is appended there. */
  lemma {:induction false} FillFlushShape(c: Cache, data: seq<byte>) returns (f: Cache)
    requires Inv(c, WriteOnly) && BUFSIZE - (c.posTag - c.tag) < |data| <= BUFSIZE
    ensures var e := BUFSIZE - (c.posTag - c.tag);
      var c1 := Append(c, data[..e]);
      Inv(f, WriteOnly) && f.posTag == c1.posTag && f.tag == f.posTag &&
      Logical(Append(f, data[e..])) == Overwrite(Logical(c1), c1.posTag, data[e..]) &&
      WriteFillFlush(c, data, BUFSIZE) == Step(Append(f, data[e..]), Ret(|data|), [])
  {
    var c1 := Append(c, data[..BUFSIZE - (c.posTag - c.tag)]);
    FlushWritesPending(c1);
    f := Flush(c1, WriteOnly, BUFSIZE).after;
  }

  /** Writing data[..e] at p, then data[e..] right after it, is writing data at p. */
  lemma {:induction false} ComposeAt(d: seq<byte>, p: nat, data: seq<byte>, e: int, l1: seq<byte>, q: nat, l2: seq<byte>)
    requires 0 <= e <= |data| && q == p + e
    requires l1 == Overwrite(d, p, data[..e]) && l2 == Overwrite(l1, q, data[e..])
    ensures l2 == Overwrite(d, p, data)
  {
    OverwriteCompose(d, p, data[..e], data[e..]);
    assert data[..e] + data[e..] == data;
  }

  lemma {:induction false} WriteDirectAppends(c: Cache, data: seq<byte>)
    requires Inv(c, WriteOnly) && |data| > BUFSIZE
    ensures var s := WriteDirect(c, data, |Pending(c)|, |data|);
      s.r == Ret(|data|) && s.after.posTag == s.after.endTag == c.posTag + |data| &&
      Logical(s.after) == Overwrite(Logical(c), c.posTag, data)
  {
    WriteDirectShort(c, data, |data|);
    assert data[..|data|] == data;
  }

  /**
   * A direct `write` that writes only the first w bytes: `io61_write`
   * returns w, and exactly those bytes follow what was written before.
   */
  lemma {:induction false} WriteDirectShort(c: Cache, data: seq<byte>, w: int)
    requires Inv(c, WriteOnly) && |data| > BUFSIZE && 0 <= w <= |data|
    ensures var s := WriteDirect(c, data, |Pending(c)|, w);
      s.r == Ret(w) && s.out == data[..w] && s.after.posTag == s.after.endTag == c.posTag + w &&
      Logical(s.after) == Overwrite(Logical(c), c.posTag, data[..w])
  {
    FlushWritesPending(c);
    var s := WriteDirect(c, data, |Pending(c)|, w);
    OverwriteEmpty(s.after.disk, s.after.tag);
  }

  /**
   * As written, a `write` that fills the cache and then fails to flush it
   * returns -1 even though the first part of the data is now pending.
   */
  lemma {:induction false} WriteFlushErrorKeepsPart(c: Cache, data: seq<byte>)
    requires Inv(c, WriteOnly)
    requires var empty := BUFSIZE - (c.posTag - c.tag);
      empty < |data| <= BUFSIZE
    ensures var empty := BUFSIZE - (c.posTag - c.tag);
      var s := Write(c, WriteOnly, data, -1, |data|);
      s.r == Ret(-1) && Logical(s.after) == Overwrite(Logical(c), c.posTag, data[..empty])
  {
  }

  // ---- Seeking in write mode ----

  /**
   * A write-mode seek writes out what is pending, then moves the
   * descriptor and all tags to pos.
   */
  lemma {:induction false} SeekWriteFlushes(c: Cache, pos: int)
    requires Inv(c, WriteOnly) && pos >= 0
    ensures var s := Seek(c, WriteOnly, pos, |Pending(c)|, false);
      s.r == Ret(0) && s.after.disk == Logical(c) && Logical(s.after) == Logical(c) &&
      s.after.tag == s.after.posTag == s.after.endTag == s.after.offset == pos
  {
    FlushWritesPending(c);
    var s := Seek(c, WriteOnly, pos, |Pending(c)|, false);
    OverwriteEmpty(s.after.disk, s.after.tag);
  }

  /**
   * As written, a write-mode seek ignores its flush's result: when the
   * flush fails the seek still returns 0, and the pending bytes are gone.
   */
  lemma {:induction false} SeekWriteDropsPending(c: Cache, pos: int)
    requires Inv(c, WriteOnly) && pos >= 0 && Pending(c) != []
    ensures var s := Seek(c, WriteOnly, pos, -1, false);
      s.r == Ret(0) && s.after.disk == c.disk && Pending(s.after) == [] &&
      Logical(s.after) == c.disk
  {
    var s := Seek(c, WriteOnly, pos, -1, false);
    OverwriteEmpty(s.after.disk, s.after.tag);
  }
}

/** The `io61_file` itself, updated in place as the C code does. */
module Io61File {
  import opened Io61

  class File {
    const buf: array<byte>
    var tag: int
    var endTag: int
    var posTag: int
    var seekIdx: int
    const mode: Mode
    /** The file the descriptor refers to, and its file position. */
    var disk: seq<byte>
    var offset: int

    ghost function State(): Cache
      reads this, buf
    {
      Cache(buf[..], tag, endTag, posTag, seekIdx, disk, offset)
    }

    ghost predicate Valid()
      reads this, buf
    {
      buf.Length == BUFSIZE && Inv(State(), mode)
    }

    /** `io61_fdopen(fd, mode)` on a descriptor at the start of the file `d`. */
    constructor (m: Mode, d: seq<byte>)
      ensures Valid() && mode == m && fresh(buf)
      ensures State() == Open(buf[..], d)
    {
      mode := m;
      disk := d;
      offset := 0;
      tag := 0;
      posTag := 0;
      endTag := 0;
      seekIdx := 0;
      buf := new byte[BUFSIZE];
    }

    /** `memcpy(buf + off, data, |data|)`. */
    method CopyIn(off: int, data: seq<byte>)
      requires buf.Length == BUFSIZE && 0 <= off && off + |data| <= BUFSIZE
      modifies buf
      ensures buf[..] == Splice(old(buf[..]), off, data)
    {
      forall k | 0 <= k < |data| {
        buf[off + k] := data[k];
      }
      assert buf[..] == Splice(old(buf[..]), off, data);
    }

    /** `read(fd, buf, BUFSIZE)`: the count, or -1. */
    method Refill(fails: bool) returns (r: int)
      requires buf.Length == BUFSIZE && offset >= 0
      modifies buf, `offset
      ensures State() == Io61.Refill(old(State()), fails).after
      ensures r == Io61.Refill(old(State()), fails).r.n
    {
      if fails {
        return -1;
      }
      var got := ReadAt(disk, offset, BUFSIZE);
      CopyIn(0, got);
      offset := offset + |got|;
      r := |got|;
    }

    method Readc(fails: bool) returns (ch: int)
      requires Valid()
      modifies this, buf
      ensures State() == Io61.Readc(old(State()), mode, fails).after
      ensures Ret(ch) == Io61.Readc(old(State()), mode, fails).r
      ensures Valid()
    {
      if mode == WriteOnly {
        return -1;
      }
      if posTag + 1 <= endTag {
        posTag := posTag + 1;
        return buf[posTag - tag - 1] as int;
      }
      tag, posTag := endTag, endTag;
      var total := Refill(fails);
      if total == 0 {
        return -1;
      }
      endTag := endTag + total;
      posTag := posTag + 1;
      ch := buf[seekIdx] as int;
      seekIdx := 0;
    }

    /** `io61_read(f, buf, sz)`; `out` is what lands in the caller's buffer. */
    method Read(sz: nat, fails: bool) returns (r: Ret, out: seq<byte>)
      requires Valid()
      modifies this, buf
      ensures Step(State(), r, out) == Io61.Read(old(State()), mode, sz, fails)
      ensures Valid()
    {
      if mode == WriteOnly {
        return Ret(-1), [];
      }
      if !(tag <= posTag && posTag <= endTag && endTag - posTag <= BUFSIZE) {
        return AssertFailed, [];
      }
      if sz <= BUFSIZE && posTag + sz <= endTag {
        out := buf[posTag - tag..posTag - tag + sz];
        posTag := posTag + sz;
        r := Ret(sz);
      } else if sz <= BUFSIZE - seekIdx {
        r, out := ReadRefill(sz, fails);
      } else {
        r, out := ReadDirect(sz, fails);
      }
    }

    method ReadRefill(sz: nat, fails: bool) returns (r: Ret, out: seq<byte>)
      requires Valid() && mode == ReadOnly && TagsOrdered(State())
      requires !(sz <= BUFSIZE && posTag + sz <= endTag) && sz <= BUFSIZE - seekIdx
      modifies this, buf
      ensures Valid()
      ensures Step(State(), r, out) == Io61.ReadRefill(old(State()), sz, fails)
    {
      ghost var c0 := State();
      out := if endTag > posTag then buf[posTag - tag..endTag - tag] else [];
      assert out == Io61.CachedRest(c0);
      tag, posTag := endTag, endTag;
      ghost var c1 := State();
      assert c1 == c0.(tag := c0.endTag, posTag := c0.endTag);
      var copied, got := FillAndCopy(sz - |out|, fails);
      ReadRefillCompose(c0, sz, fails, c1, sz - |out|, State(), copied, got);
      if copied < 0 {
        return Ret(-1), out;
      }
      out := out + got;
      r := Ret(|out|);
    }

    method FillAndCopy(want: int, fails: bool) returns (copied: int, got: seq<byte>)
      requires Valid() && mode == ReadOnly && tag == posTag == endTag && 0 < want <= BUFSIZE - seekIdx
      modifies this, buf
      ensures Valid()
      ensures Step(State(), Ret(copied), got) == Io61.FillAndCopy(old(State()), want, fails)
    {
      ghost var c := State();
      ghost var spec := Io61.FillAndCopy(c, want, fails);
      assert Inv(spec.after, ReadOnly);
      ghost var f := Io61.Refill(c, fails);
      var total := Refill(fails);
      assert State() == f.after && total == f.r.n;
      if total < 0 {
        assert spec == Step(State(), Ret(-1), []);
        return -1, [];
      }
      copied := if total >= want then want else total;
      got := buf[seekIdx..seekIdx + copied];
      endTag, posTag, seekIdx := endTag + total, posTag + copied, 0;
      assert spec == Step(State(), Ret(copied), got);
    }

    method ReadDirect(sz: nat, fails: bool) returns (r: Ret, out: seq<byte>)
      requires Valid() && mode == ReadOnly && TagsOrdered(State())
      requires !(sz <= BUFSIZE && posTag + sz <= endTag) && !(sz <= BUFSIZE - seekIdx)
      modifies this
      ensures Valid()
      ensures Step(State(), r, out) == Io61.ReadDirect(old(State()), sz, fails)
    {
      ghost var c0 := State();
      ghost var spec := Io61.ReadDirect(c0, sz, fails);
      assert Inv(spec.after, ReadOnly);
      out := if endTag > posTag then buf[posTag - tag..endTag - tag] else [];
      assert out == Io61.CachedRest(c0);
      if fails {
        return Ret(if |out| == 0 then -1 else |out|), out;
      }
      var got := ReadAt(disk, offset, sz - |out|);
      var t := endTag + |got| + seekIdx;
      assert spec == Step(c0.(offset := c0.offset + |got|, tag := t, posTag := t, endTag := t, seekIdx := 0),
                          Ret(|out| + |got|), out + got);
      out := out + got;
      offset, tag, posTag, endTag, seekIdx := offset + |got|, t, t, t, 0;
      r := Ret(|out|);
    }

    method Flush(wrote: int) returns (r: Ret)
      requires Valid()
      modifies this
      ensures State() == Io61.Flush(old(State()), mode, wrote).after
      ensures r == Io61.Flush(old(State()), mode, wrote).r
      ensures Valid()
    {
      if mode == ReadOnly {
        return Ret(0);
      }
      if !(tag <= posTag && posTag <= endTag && endTag - posTag <= BUFSIZE && posTag == endTag) {
        return AssertFailed;
      }
      var n := posTag - tag;
      if n != 0 {
        if wrote < 0 {
          return Ret(-1);
        }
        if wrote != n {
          disk := Overwrite(disk, offset, buf[..Min(wrote, n)]);
          return AssertFailed;
        }
        disk := Overwrite(disk, offset, buf[..n]);
        offset := offset + n;
        tag := tag + n;
        return Ret(n);
      }
      return Ret(0);
    }

    /** `memcpy(f->buf + filled_sz, data, |data|)`, then `pos_tag` and `end_tag` advance. */
    method Append(data: seq<byte>)
      requires Valid() && mode == WriteOnly && posTag - tag + |data| <= BUFSIZE
      modifies this, buf
      ensures State() == Io61.Append(old(State()), data)
      ensures Valid()
    {
      CopyIn(posTag - tag, data);
      posTag := posTag + |data|;
      endTag := endTag + |data|;
    }

    method Writec(ch: int, flushed: int) returns (r: Ret)
      requires Valid()
      modifies this, buf
      ensures State() == Io61.Writec(old(State()), mode, ch, flushed).after
      ensures r == Io61.Writec(old(State()), mode, ch, flushed).r
      ensures Valid()
    {
      if mode == ReadOnly {
        return Ret(-1);
      }
      if posTag - tag + 1 <= BUFSIZE {
        Append([(ch % 256) as byte]);
      } else {
        var f := Flush(flushed);
        if f.AssertFailed? {
          return AssertFailed;
        }
        if f.n < 0 {
          return Ret(-1);
        }
        Append([(ch % 256) as byte]);
      }
      return Ret(0);
    }

    method Write(data: seq<byte>, flushed: int, written: int) returns (r: Ret)
      requires Valid() && -1 <= written <= |data|
      modifies this, buf
      ensures Valid()
      ensures State() == Io61.Write(old(State()), mode, data, flushed, written).after
      ensures r == Io61.Write(old(State()), mode, data, flushed, written).r
    {
      if mode == ReadOnly {
        return Ret(-1);
      }
      if !(tag <= posTag && posTag <= endTag && endTag - posTag <= BUFSIZE && posTag == endTag) {
        return AssertFailed;
      }
      if |data| <= BUFSIZE && |data| <= BUFSIZE - (posTag - tag) {
        Append(data);
        r := Ret(|data|);
      } else if |data| <= BUFSIZE {
        r := WriteFillFlush(data, flushed);
      } else {
        r := WriteDirect(data, flushed, written);
      }
    }

    method WriteFillFlush(data: seq<byte>, flushed: int) returns (r: Ret)
      requires Valid() && mode == WriteOnly && BUFSIZE - (posTag - tag) < |data| <= BUFSIZE
      modifies this, buf
      ensures Valid()
      ensures State() == Io61.WriteFillFlush(old(State()), data, flushed).after
      ensures r == Io61.WriteFillFlush(old(State()), data, flushed).r
    {
      ghost var c0 := State();
      var empty := BUFSIZE - (posTag - tag);
      Append(data[..empty]);
      ghost var a := State();
      var f := Flush(flushed);
      assert Io61.Flush(a, WriteOnly, flushed) == Step(State(), f, Io61.Flush(a, WriteOnly, flushed).out);
      if f.AssertFailed? {
        return AssertFailed;
      }
      if f.n < 0 {
        return Ret(-1);
      }
      Append(data[empty..]);
      r := Ret(|data|);
    }

    method WriteDirect(data: seq<byte>, flushed: int, written: int) returns (r: Ret)
      requires Valid() && mode == WriteOnly && -1 <= written <= |data|
      modifies this
      ensures Valid()
      ensures State() == Io61.WriteDirect(old(State()), data, flushed, written).after
      ensures r == Io61.WriteDirect(old(State()), data, flushed, written).r
    {
      var f := Flush(flushed);
      if f.AssertFailed? {
        return AssertFailed;
      }
      if f.n < 0 || written < 0 {
        return Ret(-1);
      }
      var t := endTag + written;
      disk, offset, tag, posTag, endTag := Overwrite(disk, offset, data[..written]), offset + written, t, t, t;
      r := Ret(written);
    }

    /**
     * `io61_seek(f, pos)`. A negative pos that passes the source's test
     * leaves a file no other operation may be applied to (`SeekNegative`).
     */
    method Seek(pos: int, flushed: int, seekFails: bool) returns (r: Ret)
      requires Valid()
      modifies this
      ensures State() == Io61.Seek(old(State()), mode, pos, flushed, seekFails).after
      ensures r == Io61.Seek(old(State()), mode, pos, flushed, seekFails).r
      ensures pos >= 0 || r != Ret(0) ==> Valid()
    {
      if mode == ReadOnly {
        if pos >= tag && pos < endTag {
          posTag := pos;
          return Ret(0);
        }
        var aligned := pos - CRem(pos);
        if Lseek(aligned, seekFails) != aligned {
          return Ret(-1);
        }
        offset := aligned;
        tag, posTag, endTag := aligned, aligned, aligned;
        seekIdx := pos - aligned;
      } else {
        var f := Flush(flushed);
        if f.AssertFailed? {
          return AssertFailed;
        }
        var moved := Lseek(pos, seekFails);
        if moved != pos {
          return Ret(-1);
        }
        if pos >= 0 {
          offset := pos;
        }
        tag, posTag, endTag := pos, pos, pos;
      }
      return Ret(0);
    }
  }
}
