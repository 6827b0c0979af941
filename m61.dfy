// The CS61 debugging allocator (pset1/m61.cc).
//
// Memory is modelled at the level the allocator sees it: a map from the
// address of each block's `metadata` header to that header's contents
// (`mem`), the `front` pointer of the doubly linked list of active blocks,
// and the statistics record `g_stats`. `base_malloc` is an oracle: the
// caller of a model operation passes the address it returned (0 for null),
// together with what the new block's bytes happen to hold.
//
// The field order of `m61_statistics` is the one its initializer in
// m61.cc implies; m61.hh is not part of this model.
module M61 {

  newtype byte = x: int | 0 <= x < 256

  /** 2^64: `size_t`, `uintptr_t` and `unsigned long long` wrap modulo this. */
  const WORD: int := 0x1_0000_0000_0000_0000
  const SIZE_MAX: int := WORD - 1
  const UINTPTR_MAX: int := WORD - 1

  /** sizeof(metadata): six 8-byte fields, a bool and 15 bytes of padding. */
  const HDR: int := 64

  /** The bytes written just past every block, and checked when it is freed. */
  const Terminator: seq<byte> := [42, 183, 229, 13]
  const TERMSIZE: int := 4

  /** Unsigned 64-bit arithmetic: Dafny's `%` is Euclidean, so this also wraps below 0. */
  function Wrap(x: int): (r: int)
    ensures 0 <= r < WORD
    ensures 0 <= x < WORD ==> r == x
  {
    x % WORD
  }

  datatype Site = Site(file: string, line: int)

  datatype Stats = Stats(nactive: int, activeSize: int, ntotal: int, totalSize: int,
                         nfail: int, failSize: int, heapMin: int, heapMax: int)

  /** `g_stats` at program start. */
  const Initial: Stats := Stats(0, 0, 0, 0, 0, 0, UINTPTR_MAX, 0)

  /**
   * A `metadata` header, with the block's bytes (`data`) and the four bytes
   * after them (`tail`) that hold the terminator unless something wrote there.
   */
  datatype Header = Header(checksum: int, size: int, site: Site, next: int, prev: int,
                           freed: bool, data: seq<byte>, tail: seq<byte>)

  datatype Heap = Heap(stats: Stats, front: int, mem: map<int, Header>)

  /** The allocator before its first call. */
  const Empty: Heap := Heap(Initial, 0, map[])

  /** A header at address m, as `m61_malloc` writes it: checksum, sizes and room in the address space. */
  predicate HeaderOk(m: int, b: Header)
  {
    b.checksum == m && m > 0 && 0 <= b.size && |b.data| == b.size && |b.tail| == TERMSIZE &&
    m + HDR + b.size + TERMSIZE <= WORD
  }

  /** Two headers that describe the same block, whatever their links and freed flag. */
  predicate SameBlock(x: Header, y: Header)
  {
    x.checksum == y.checksum && x.size == y.size && x.site == y.site && x.data == y.data && x.tail == y.tail
  }

  /** An active block: its header is in memory and not marked freed. */
  predicate Live(mem: map<int, Header>, m: int)
  {
    m in mem && !mem[m].freed
  }

  /** The header after (before) position i of the list, or null. */
  function NextOf(order: seq<int>, i: int): int
    requires 0 <= i < |order|
  {
    if i + 1 < |order| then order[i + 1] else 0
  }

  function PrevOf(order: seq<int>, i: int): int
    requires 0 <= i < |order|
  {
    if i > 0 then order[i - 1] else 0
  }

  /**
   * The active list: `order` lists the active blocks' headers from `front`
   * on, and their `next` and `prev` fields link exactly those headers in
   * that order. Every header in memory is well formed and every active one
   * is on the list.
   */
  ghost predicate Linked(h: Heap, order: seq<int>)
  {
    (forall i, j :: 0 <= i < j < |order| ==> order[i] != order[j]) &&
    (forall i :: 0 <= i < |order| ==> Live(h.mem, order[i])) &&
    h.front == (if |order| == 0 then 0 else order[0]) &&
    (forall i {:trigger h.mem[order[i]].next} :: 0 <= i < |order| ==> h.mem[order[i]].next == NextOf(order, i)) &&
    (forall i {:trigger h.mem[order[i]].prev} :: 0 <= i < |order| ==> h.mem[order[i]].prev == PrevOf(order, i)) &&
    (forall m :: Live(h.mem, m) ==> m in order) &&
    (forall m :: m in h.mem ==> HeaderOk(m, h.mem[m]))
  }

  /** The size recorded in the header at m, or 0 where there is none. */
  function SizeOf(mem: map<int, Header>, m: int): int
  {
    if m in mem then mem[m].size else 0
  }

  /** Sum of the sizes of the blocks in `order`. */
  function SizeSum(mem: map<int, Header>, order: seq<int>): int
  {
    if order == [] then 0 else SizeOf(mem, order[0]) + SizeSum(mem, order[1..])
  }

  /** Every statistic is a 64-bit unsigned value. */
  predicate InRange(s: Stats)
  {
    0 <= s.nactive < WORD && 0 <= s.activeSize < WORD && 0 <= s.ntotal < WORD &&
    0 <= s.totalSize < WORD && 0 <= s.nfail < WORD && 0 <= s.failSize < WORD &&
    0 <= s.heapMin < WORD && 0 <= s.heapMax < WORD
  }

  /** `nactive` and `active_size` count n blocks of sum bytes, modulo 2^64. */
  predicate Tally(s: Stats, n: int, sum: int)
  {
    s.nactive == Wrap(n) && s.activeSize == Wrap(sum)
  }

  /**
   * The highest address `heap_max` must reach for a block of sz bytes at
   * ptr: its last byte, or ptr itself when sz is 0 so that the pointer
   * passes `m61_free`'s range test.
   */
  function Top(ptr: int, sz: int): (r: int)
    ensures sz >= 0 ==> r >= ptr && r >= ptr + sz - 1
  {
    if sz == 0 then ptr else ptr + sz - 1
  }

  /** [heap_min, heap_max] covers the pointer and payload of every listed block. */
  ghost predicate Covers(h: Heap, order: seq<int>)
  {
    forall i :: 0 <= i < |order| ==>
      order[i] in h.mem &&
      h.stats.heapMin <= order[i] + HDR && Top(order[i] + HDR, h.mem[order[i]].size) <= h.stats.heapMax
  }

  /**
   * The statistics agree with the active list: counts and sizes modulo 2^64,
   * every active block lies within [heap_min, heap_max] as `m61_malloc`
   * records it, and every field is an unsigned 64-bit value.
   */
  ghost predicate Counted(h: Heap, order: seq<int>)
  {
    InRange(h.stats) && Tally(h.stats, |order|, SizeSum(h.mem, order)) && Covers(h, order)
  }

  ghost predicate Valid(h: Heap, order: seq<int>)
  {
    Linked(h, order) && Counted(h, order)
  }

  /** [a, a + la) and [b, b + lb) do not overlap. */
  predicate Disjoint(a: int, la: int, b: int, lb: int)
  {
    a + la <= b || b + lb <= a
  }

  /**
   * What `base_malloc` promises: a non-null region of `len` bytes inside
   * the address space that overlaps no active block (header, data and
   * terminator).
   */
  ghost predicate Fresh(h: Heap, base: int, len: int)
  {
    base > 0 && base + len <= WORD &&
    forall m :: Live(h.mem, m) ==> Disjoint(m, HDR + h.mem[m].size + TERMSIZE, base, len)
  }

  /** Headers of freed blocks that the new region [base, base + len) overwrites are gone. */
  function Reclaim(mem: map<int, Header>, base: int, len: int): (r: map<int, Header>)
    ensures forall m :: m in r <==> m in mem && Disjoint(m, HDR, base, len)
    ensures forall m :: m in r ==> r[m] == mem[m]
  {
    map m | m in mem && Disjoint(m, HDR, base, len) :: mem[m]
  }

  /** The active blocks' headers have their distinct neighbours in memory. */
  lemma {:induction false} Neighbours(h: Heap, order: seq<int>, m: int)
    requires Linked(h, order) && Live(h.mem, m)
    ensures h.mem[m].next == 0 || Live(h.mem, h.mem[m].next)
    ensures h.mem[m].prev == 0 || Live(h.mem, h.mem[m].prev)
    ensures h.mem[m].next != m && h.mem[m].prev != m
    ensures h.mem[m].prev == 0 || h.mem[m].prev != h.mem[m].next
    ensures h.mem[m].prev == 0 <==> h.front == m
  {
    var i :| 0 <= i < |order| && order[i] == m;
    assert h.mem[order[i]].next == NextOf(order, i);
    assert h.mem[order[i]].prev == PrevOf(order, i);
    if i + 1 < |order| {
      assert Live(h.mem, order[i + 1]);
    }
    if i > 0 {
      assert Live(h.mem, order[i - 1]);
      assert order[0] != m;
    }
  }

  lemma {:induction false} FrontLive(h: Heap, order: seq<int>)
    requires Linked(h, order)
    ensures h.front == 0 || Live(h.mem, h.front)
  {
    if |order| > 0 {
      assert Live(h.mem, order[0]);
    }
  }

  /** `m61_malloc`'s result: the allocator afterwards and the returned pointer. */
  datatype Step = Step(after: Heap, ptr: int)

  /** The request `m61_malloc` passes on to `base_malloc` does not overflow. */
  predicate Fits(sz: int)
  {
    sz <= SIZE_MAX - HDR - TERMSIZE
  }

  /**
   * The statistics updates of a successful `m61_malloc` of sz bytes at ptr
   * (m61.cc:65-76): one more block in `ntotal` and `nactive`, sz more bytes
   * in both sizes, and [heap_min, heap_max] widened to cover ptr and
   * [ptr, ptr + sz - 1]. The source widens `heap_max` to `addr + sz - 1`
   * only, which for sz == 0 leaves ptr itself outside the range
   * (`RecordAllocAsWritten`); this is the corrected update.
   */
  function RecordAlloc(s: Stats, ptr: int, sz: int): (t: Stats)
    ensures t.ntotal == Wrap(s.ntotal + 1) && t.totalSize == Wrap(s.totalSize + sz)
    ensures t.nactive == Wrap(s.nactive + 1) && t.activeSize == Wrap(s.activeSize + sz)
    ensures t.nfail == s.nfail && t.failSize == s.failSize
    ensures t.heapMin <= s.heapMin && t.heapMin <= ptr && (t.heapMin == s.heapMin || t.heapMin == ptr)
    ensures t.heapMax >= s.heapMax && t.heapMax >= Top(ptr, sz) &&
            (t.heapMax == s.heapMax || t.heapMax == Top(ptr, sz))
  {
    var s1 := s.(ntotal := Wrap(s.ntotal + 1), totalSize := Wrap(s.totalSize + sz),
                 nactive := Wrap(s.nactive + 1), activeSize := Wrap(s.activeSize + sz));
    var s2 := s1.(heapMin := if ptr < s1.heapMin then ptr else s1.heapMin);
    s2.(heapMax := if Top(ptr, sz) > s2.heapMax then Top(ptr, sz) else s2.heapMax)
  }

  /** The statistics updates of m61.cc:65-76 exactly as written. */
  function RecordAllocAsWritten(s: Stats, ptr: int, sz: int): (t: Stats)
    ensures sz > 0 ==> t == RecordAlloc(s, ptr, sz)
    ensures sz == 0 && s.heapMax < ptr ==> t.heapMax < ptr
  {
    var s1 := s.(ntotal := Wrap(s.ntotal + 1), totalSize := Wrap(s.totalSize + sz),
                 nactive := Wrap(s.nactive + 1), activeSize := Wrap(s.activeSize + sz));
    var s2 := s1.(heapMin := if ptr < s1.heapMin then ptr else s1.heapMin);
    s2.(heapMax := if ptr + sz - 1 > s2.heapMax then ptr + sz - 1 else s2.heapMax)
  }

  /**
   * The list updates of `m61_malloc` (m61.cc:53-58): the old front's `prev`
   * becomes the new header, which is stored with `next` = old front and
   * `prev` = null.
   */
  function LinkFront(mem: map<int, Header>, front: int, m: int, b: Header): (r: map<int, Header>)
    requires front == 0 || front in mem
    ensures m in r && r[m] == b.(next := front, prev := 0)
    ensures forall k :: k in r <==> k in mem || k == m
    ensures forall k :: k in mem && k != m && k != front ==> r[k] == mem[k]
    ensures front != 0 && front != m ==> r[front] == mem[front].(prev := m)
  {
    var mem1 := if front != 0 then mem[front := mem[front].(prev := m)] else mem;
    mem1[m := b.(next := front, prev := 0)]
  }

  /**
   * `m61_malloc(sz, file, line)`, where `base_malloc` returned `base` (0 for
   * null) and the new block's bytes hold `junk`.
   */
  function Malloc(h: Heap, order: seq<int>, sz: int, site: Site, base: int, junk: seq<byte>): (s: Step)
    requires Linked(h, order) && 0 <= sz <= SIZE_MAX && |junk| == sz
    requires base == 0 || Fresh(h, base, HDR + sz + TERMSIZE)
  {
    if Fits(sz) && base != 0 then
      var mem1 := Reclaim(h.mem, base, HDR + sz + TERMSIZE);
      FrontLive(h, order);
      assert h.front != 0 ==> Disjoint(h.front, HDR + h.mem[h.front].size + TERMSIZE, base, HDR + sz + TERMSIZE);
      var mem2 := LinkFront(mem1, h.front, base, Header(base, sz, site, 0, 0, false, junk, Terminator));
      Step(Heap(RecordAlloc(h.stats, base + HDR, sz), base, mem2), base + HDR)
    else
      Step(h.(stats := h.stats.(nfail := Wrap(h.stats.nfail + 1),
                                failSize := Wrap(h.stats.failSize + sz))), 0)
  }

  /**
   * `m61_malloc` exactly as written: the statistics are those of
   * `RecordAllocAsWritten`, which differ from `Malloc`'s only in
   * `heap_max` after a zero-size allocation.
   */
  function MallocAsWritten(h: Heap, order: seq<int>, sz: int, site: Site, base: int, junk: seq<byte>): (s: Step)
    requires Linked(h, order) && 0 <= sz <= SIZE_MAX && |junk| == sz
    requires base == 0 || Fresh(h, base, HDR + sz + TERMSIZE)
    ensures sz > 0 || s.ptr == 0 ==> s == Malloc(h, order, sz, site, base, junk)
    ensures s.ptr == Malloc(h, order, sz, site, base, junk).ptr
    ensures s.after.front == Malloc(h, order, sz, site, base, junk).after.front
    ensures s.after.mem == Malloc(h, order, sz, site, base, junk).after.mem
  {
    var m := Malloc(h, order, sz, site, base, junk);
    if m.ptr != 0 then Step(m.after.(stats := RecordAllocAsWritten(h.stats, m.ptr, sz)), m.ptr) else m
  }

  /** How `m61_free` ends: done, or the memory bug it reports before `abort()`. */
  datatype Outcome = Freed | NotInHeap | NotAllocated | DoubleFree | WildWrite

  datatype FreeStep = FreeStep(after: Heap, outcome: Outcome)

  /**
   * `m61_free(ptr, file, line)`. The checks run in the source's order,
   * and a failing one leaves everything as it was (the process aborts).
   * Memory at `ptr - HDR` that holds no header fails the checksum test.
   */
  function Free(h: Heap, order: seq<int>, ptr: int): (s: FreeStep)
    requires Linked(h, order) && 0 <= ptr < WORD
  {
    var m := ptr - HDR;
    if ptr == 0 then FreeStep(h, Freed)
    else if ptr < h.stats.heapMin || ptr > h.stats.heapMax then FreeStep(h, NotInHeap)
    else if !(m in h.mem && h.mem[m].checksum == m) then FreeStep(h, NotAllocated)
    else if h.mem[m].freed then FreeStep(h, DoubleFree)
    else if h.mem[m].tail != Terminator then FreeStep(h, WildWrite)
    else
      Neighbours(h, order, m);
      var b := h.mem[m];
      FreeStep(Heap(RecordFree(h.stats, b.size), if b.prev != 0 then h.front else b.next,
                    Unlink(h.mem, m)), Freed)
  }

  /** The statistics updates of `m61_free` (m61.cc:148-149). */
  function RecordFree(s: Stats, size: int): (t: Stats)
    ensures t.nactive == Wrap(s.nactive - 1) && t.activeSize == Wrap(s.activeSize - size)
    ensures t.ntotal == s.ntotal && t.totalSize == s.totalSize && t.nfail == s.nfail
    ensures t.failSize == s.failSize && t.heapMin == s.heapMin && t.heapMax == s.heapMax
  {
    s.(nactive := Wrap(s.nactive - 1), activeSize := Wrap(s.activeSize - size))
  }

  /**
   * The list updates of `m61_free` (m61.cc:137-145): the header at m is
   * marked freed, its predecessor's `next` skips it and its successor's
   * `prev` points back past it.
   */
  function Unlink(mem: map<int, Header>, m: int): (r: map<int, Header>)
    requires m in mem
    requires mem[m].prev == 0 || mem[m].prev in mem
    requires mem[m].next == 0 || mem[m].next in mem
    requires mem[m].next != m && mem[m].prev != m
    requires mem[m].prev == 0 || mem[m].prev != mem[m].next
    ensures forall k :: k in r <==> k in mem
    ensures r[m] == mem[m].(freed := true)
    ensures mem[m].prev != 0 ==> r[mem[m].prev] == mem[mem[m].prev].(next := mem[m].next)
    ensures mem[m].next != 0 ==> r[mem[m].next] == mem[mem[m].next].(prev := mem[m].prev)
    ensures forall k :: k in mem && k != m && k != mem[m].prev && k != mem[m].next ==> r[k] == mem[k]
    ensures forall k :: k in mem ==> SameBlock(r[k], mem[k]) && (k != m ==> r[k].freed == mem[k].freed)
  {
    var b := mem[m];
    var mem1 := mem[m := b.(freed := true)];
    var mem2 := if b.prev != 0 then mem1[b.prev := mem1[b.prev].(next := b.next)] else mem1;
    if b.next != 0 then mem2[b.next := mem2[b.next].(prev := b.prev)] else mem2
  }

  /** `m61_calloc` as written: `SIZE_MAX / sz` with sz == 0 is a division by zero. */
  datatype CallocStep = Calloced(step: Step) | DivideByZero

  /** m61.cc:167's overflow test, with the zero-size case the source leaves out. */
  predicate CallocFits(nmemb: int, sz: int)
  {
    sz == 0 || nmemb <= SIZE_MAX / sz
  }

  /** What `m61_calloc` asks of `base_malloc` when it calls `m61_malloc`. */
  ghost predicate CallocOracle(h: Heap, nmemb: int, sz: int, base: int, junk: seq<byte>)
  {
    CallocFits(nmemb, sz) ==>
      |junk| == nmemb * sz && (base == 0 || Fresh(h, base, HDR + nmemb * sz + TERMSIZE))
  }

  lemma {:induction false} MulBound(n: int, sz: int)
    requires 0 <= n && 0 <= sz && CallocFits(n, sz)
    ensures 0 <= n * sz <= SIZE_MAX
  {
    if sz > 0 {
      assert n * sz <= (SIZE_MAX / sz) * sz by {
        assert (SIZE_MAX / sz - n) * sz >= 0;
      }
    }
  }

  /** n zero bytes. */
  function Zeros(n: nat): (r: seq<byte>)
    ensures |r| == n && forall k :: 0 <= k < n ==> r[k] == 0
  {
    seq(n, _ => 0)
  }

  /**
   * `m61_calloc(nmemb, sz, file, line)` with the overflow test admitting
   * sz == 0: `m61_malloc` of nmemb * sz bytes, zero-filled when it
   * succeeds; an overflowing request counts one failure and no bytes.
   */
  function Calloc(h: Heap, order: seq<int>, nmemb: int, sz: int, site: Site,
                  base: int, junk: seq<byte>): (s: Step)
    requires Linked(h, order) && 0 <= nmemb <= SIZE_MAX && 0 <= sz <= SIZE_MAX
    requires CallocOracle(h, nmemb, sz, base, junk)
  {
    if CallocFits(nmemb, sz) then
      MulBound(nmemb, sz);
      var s := Malloc(h, order, nmemb * sz, site, base, junk);
      if s.ptr != 0 then
        assert base in s.after.mem;
        Step(s.after.(mem := s.after.mem[base := s.after.mem[base].(data := Zeros(nmemb * sz))]), s.ptr)
      else s
    else Step(h.(stats := h.stats.(nfail := Wrap(h.stats.nfail + 1))), 0)
  }

  /** `m61_calloc` exactly as written (m61.cc:162-179): sz == 0 divides by zero. */
  function CallocAsWritten(h: Heap, order: seq<int>, nmemb: int, sz: int, site: Site,
                           base: int, junk: seq<byte>): (s: CallocStep)
    requires Linked(h, order) && 0 <= nmemb <= SIZE_MAX && 0 <= sz <= SIZE_MAX
    requires CallocOracle(h, nmemb, sz, base, junk)
    ensures sz != 0 ==> s == Calloced(Calloc(h, order, nmemb, sz, site, base, junk))
  {
    if sz == 0 then DivideByZero
    else Calloced(Calloc(h, order, nmemb, sz, site, base, junk))
  }

  /** One line of `m61_print_leak_report`: the block's pointer, size and allocation site. */
  datatype Leak = Leak(ptr: int, size: int, site: Site)

  /** The leak report: the active blocks from `front` on. */
  function Report(mem: map<int, Header>, order: seq<int>): (r: seq<Leak>)
    requires forall i :: 0 <= i < |order| ==> order[i] in mem
  {
    if order == [] then []
    else [Leak(order[0] + HDR, mem[order[0]].size, mem[order[0]].site)] + Report(mem, order[1..])
  }

  /** `ptr > iterator + 1 && ptr < (char*) (iterator + 1) + iterator->size`. */
  predicate StrictlyInside(m: int, b: Header, ptr: int)
  {
    m + HDR < ptr < m + HDR + b.size
  }

  /** The active blocks an invalid free's pointer lies strictly inside, in list order. */
  function Inside(mem: map<int, Header>, order: seq<int>, ptr: int): (r: seq<int>)
    requires forall i :: 0 <= i < |order| ==> order[i] in mem
  {
    if order == [] then []
    else (if StrictlyInside(order[0], mem[order[0]], ptr) then [order[0]] else []) +
         Inside(mem, order[1..], ptr)
  }
}

/** What the allocator's operations mean for the active list and the statistics. */
module M61Properties {
  import opened M61

  /** Unsigned addition commutes with reduction modulo 2^64. */
  lemma {:induction false} WrapStep(x: int, a: int, b: int)
    requires x == Wrap(a)
    ensures Wrap(x + b) == Wrap(a + b)
  {
    ModAdd(a, b);
  }

  /** `RecordFree` takes one block of `size` bytes off the tally. */
  lemma {:induction false} RecordFreeTally(s: Stats, size: int, n: int, sum: int, n': int, sum': int)
    requires InRange(s) && Tally(s, n, sum)
    requires n' == n - 1 && sum' == sum - size
    ensures InRange(RecordFree(s, size)) && Tally(RecordFree(s, size), n', sum')
  {
    var t := RecordFree(s, size);
    ModAdd(n, -1);
    ModAdd(sum, -size);
  }

  /** `RecordAlloc` adds one block of sz bytes to the tally. */
  lemma {:induction false} RecordAllocTally(s: Stats, ptr: int, sz: int, n: int, sum: int, n': int, sum': int)
    requires InRange(s) && Tally(s, n, sum) && 0 <= sz && 0 < ptr && ptr + sz < WORD
    requires n' == n + 1 && sum' == sum + sz
    ensures InRange(RecordAlloc(s, ptr, sz)) && Tally(RecordAlloc(s, ptr, sz), n', sum')
  {
    var t := RecordAlloc(s, ptr, sz);
    WrapStepTo(s.nactive, t.nactive, n, 1, n');
    WrapStepTo(s.activeSize, t.activeSize, sum, sz, sum');
  }

  /** A count kept modulo 2^64 stays the wrapped count after adding d to both. */
  lemma {:induction false} WrapStepTo(x: int, y: int, a: int, d: int, a': int)
    requires x == Wrap(a) && y == Wrap(x + d) && a' == a + d
    ensures y == Wrap(a')
  {
    ModAdd(a, d);
  }

  lemma {:induction false} ModAdd(a: int, b: int)
    ensures Wrap(Wrap(a) + b) == Wrap(a + b)
  {
    var q := a / WORD;
    var x := a % WORD + b;
    var qx := x / WORD;
    assert a + b == x + WORD * q;
    assert a + b == WORD * (qx + q) + x % WORD;
  }

  /** The size sum only reads the sizes of the listed blocks. */
  lemma {:induction false} SizeSumFrame(mem: map<int, Header>, mem': map<int, Header>, order: seq<int>)
    requires forall i :: 0 <= i < |order| ==> order[i] in mem && order[i] in mem'
    requires forall i :: 0 <= i < |order| ==> mem'[order[i]].size == mem[order[i]].size
    ensures SizeSum(mem', order) == SizeSum(mem, order)
  {
    if order != [] {
      SizeSumFrame(mem, mem', order[1..]);
    }
  }

  /** Removing the block at position i takes its size off the sum. */
  lemma {:induction false} SizeSumRemove(mem: map<int, Header>, order: seq<int>, i: int)
    requires 0 <= i < |order|
    ensures SizeSum(mem, order) == SizeOf(mem, order[i]) + SizeSum(mem, order[..i] + order[i + 1..])
  {
    if i > 0 {
      var rest := order[1..];
      SizeSumRemove(mem, rest, i - 1);
      assert order[..i] + order[i + 1..] == [order[0]] + (rest[..i - 1] + rest[i..]);
    } else {
      assert order[..i] + order[i + 1..] == order[1..];
    }
  }

  /**
   * A failed `m61_malloc` (the request overflows, or `base_malloc` returns
   * null) returns null, counts one failure of sz bytes, and changes nothing
   * else; the invariants still hold.
   */
  lemma {:induction false} MallocFails(h: Heap, order: seq<int>, sz: int, site: Site, base: int, junk: seq<byte>)
    requires Valid(h, order) && 0 <= sz <= SIZE_MAX && |junk| == sz
    requires base == 0 || Fresh(h, base, HDR + sz + TERMSIZE)
    requires !Fits(sz) || base == 0
    ensures var s := Malloc(h, order, sz, site, base, junk);
      s.ptr == 0 && s.after.front == h.front && s.after.mem == h.mem &&
      s.after.stats == h.stats.(nfail := (h.stats.nfail + 1) % WORD,
                                failSize := (h.stats.failSize + sz) % WORD) &&
      Valid(s.after, order)
  {
  }

  /** The headers after a successful `m61_malloc`. */
  lemma {:induction false} MallocMem(h: Heap, order: seq<int>, sz: int, site: Site, base: int, junk: seq<byte>)
    requires Linked(h, order) && 0 <= sz <= SIZE_MAX && |junk| == sz
    requires Fits(sz) && Fresh(h, base, HDR + sz + TERMSIZE)
    ensures var mem := Malloc(h, order, sz, site, base, junk).after.mem;
      base in mem && mem[base] == Header(base, sz, site, h.front, 0, false, junk, Terminator) &&
      (forall m :: Live(mem, m) ==> m == base || m in order) &&
      (forall m :: m in mem ==> HeaderOk(m, mem[m])) &&
      forall i :: 0 <= i < |order| ==>
        order[i] != base && order[i] in mem &&
        mem[order[i]] == h.mem[order[i]].(prev := if i == 0 then base else h.mem[order[i]].prev)
  {
    var len := HDR + sz + TERMSIZE;
    var mem := Malloc(h, order, sz, site, base, junk).after.mem;
    forall i | 0 <= i < |order|
      ensures order[i] != base && order[i] in mem
      ensures mem[order[i]] == h.mem[order[i]].(prev := if i == 0 then base else h.mem[order[i]].prev)
    {
      assert Live(h.mem, order[i]);
      assert Disjoint(order[i], HDR + h.mem[order[i]].size + TERMSIZE, base, len);
    }
    forall m | Live(mem, m)
      ensures m == base || m in order
    {
      if m != base {
        assert m in h.mem && (m == h.front || !h.mem[m].freed);
        if m == h.front {
          assert m == order[0];
        }
      }
    }
    forall m | m in mem
      ensures HeaderOk(m, mem[m])
    {
      if m != base {
        assert m in h.mem && HeaderOk(m, h.mem[m]);
      }
    }
  }

  /** After a successful `m61_malloc` the links follow the new list. */
  lemma {:induction false} MallocChain(h: Heap, order: seq<int>, sz: int, site: Site, base: int, junk: seq<byte>)
    requires Linked(h, order) && 0 <= sz <= SIZE_MAX && |junk| == sz
    requires Fits(sz) && Fresh(h, base, HDR + sz + TERMSIZE)
    ensures var a := Malloc(h, order, sz, site, base, junk).after;
      var n := [base] + order;
      forall i :: 0 <= i < |n| ==>
        n[i] in a.mem && a.mem[n[i]].next == NextOf(n, i) && a.mem[n[i]].prev == PrevOf(n, i)
  {
    var a := Malloc(h, order, sz, site, base, junk).after;
    var n := [base] + order;
    MallocMem(h, order, sz, site, base, junk);
    forall i | 0 <= i < |n|
      ensures n[i] in a.mem
      ensures a.mem[n[i]].next == NextOf(n, i)
      ensures a.mem[n[i]].prev == PrevOf(n, i)
    {
      if i > 0 {
        assert n[i] == order[i - 1];
        assert h.mem[order[i - 1]].next == NextOf(order, i - 1);
        assert h.mem[order[i - 1]].prev == PrevOf(order, i - 1);
      }
    }
  }

  /** After a successful `m61_malloc` the new list holds exactly the active blocks, once each. */
  lemma {:induction false} MallocListed(h: Heap, order: seq<int>, sz: int, site: Site, base: int, junk: seq<byte>)
    requires Linked(h, order) && 0 <= sz <= SIZE_MAX && |junk| == sz
    requires Fits(sz) && Fresh(h, base, HDR + sz + TERMSIZE)
    ensures var a := Malloc(h, order, sz, site, base, junk).after;
      var n := [base] + order;
      (forall i, j :: 0 <= i < j < |n| ==> n[i] != n[j]) &&
      (forall i :: 0 <= i < |n| ==> Live(a.mem, n[i])) &&
      (forall m :: Live(a.mem, m) ==> m in n)
  {
    var a := Malloc(h, order, sz, site, base, junk).after;
    var n := [base] + order;
    MallocMem(h, order, sz, site, base, junk);
    forall i | 0 <= i < |n|
      ensures Live(a.mem, n[i])
    {
      if i > 0 {
        assert Live(h.mem, order[i - 1]);
      }
    }
    forall i | 0 <= i < |order|
      ensures order[i] != base
    {
      assert Live(h.mem, order[i]);
    }
    ConsDistinct(base, order);
  }

  /** Putting a new element in front of a list without repeats keeps it without repeats. */
  lemma {:induction false} ConsDistinct(x: int, s: seq<int>)
    requires forall i, j :: 0 <= i < j < |s| ==> s[i] != s[j]
    requires forall i :: 0 <= i < |s| ==> s[i] != x
    ensures var n := [x] + s; forall i, j :: 0 <= i < j < |n| ==> n[i] != n[j]
  {
    var n := [x] + s;
    forall i, j | 0 <= i < j < |n|
      ensures n[i] != n[j]
    {
      assert n[j] == s[j - 1];
      if i > 0 {
        assert n[i] == s[i - 1];
      }
    }
  }

  /** After a successful `m61_malloc` the new block heads the active list. */
  lemma {:induction false} MallocLinks(h: Heap, order: seq<int>, sz: int, site: Site, base: int, junk: seq<byte>)
    requires Linked(h, order) && 0 <= sz <= SIZE_MAX && |junk| == sz
    requires Fits(sz) && Fresh(h, base, HDR + sz + TERMSIZE)
    ensures Linked(Malloc(h, order, sz, site, base, junk).after, [base] + order)
  {
    MallocMem(h, order, sz, site, base, junk);
    MallocStats(h, order, sz, site, base, junk);
    MallocChain(h, order, sz, site, base, junk);
    MallocListed(h, order, sz, site, base, junk);
  }

  /** The statistics after a successful `m61_malloc`. */
  lemma {:induction false} MallocStats(h: Heap, order: seq<int>, sz: int, site: Site, base: int, junk: seq<byte>)
    requires Linked(h, order) && 0 <= sz <= SIZE_MAX && |junk| == sz
    requires Fits(sz) && Fresh(h, base, HDR + sz + TERMSIZE)
    ensures var s := Malloc(h, order, sz, site, base, junk);
      var t := s.after.stats;
      s.ptr == base + HDR && s.after.front == base &&
      t.ntotal == (h.stats.ntotal + 1) % WORD && t.totalSize == (h.stats.totalSize + sz) % WORD &&
      t.nactive == (h.stats.nactive + 1) % WORD && t.activeSize == (h.stats.activeSize + sz) % WORD &&
      t.nfail == h.stats.nfail && t.failSize == h.stats.failSize &&
      t.heapMin == (if s.ptr < h.stats.heapMin then s.ptr else h.stats.heapMin) &&
      t.heapMax == (if Top(s.ptr, sz) > h.stats.heapMax then Top(s.ptr, sz) else h.stats.heapMax)
  {
  }

  /** The active count and size after a successful `m61_malloc`. */
  lemma {:induction false} MallocTally(h: Heap, order: seq<int>, sz: int, site: Site, base: int, junk: seq<byte>)
    requires Linked(h, order) && 0 <= sz <= SIZE_MAX && |junk| == sz
    requires Fits(sz) && Fresh(h, base, HDR + sz + TERMSIZE)
    requires InRange(h.stats) && Tally(h.stats, |order|, SizeSum(h.mem, order))
    ensures var a := Malloc(h, order, sz, site, base, junk).after;
      InRange(a.stats) && Tally(a.stats, |[base] + order|, SizeSum(a.mem, [base] + order))
  {
    var a := Malloc(h, order, sz, site, base, junk).after;
    var n := [base] + order;
    MallocMem(h, order, sz, site, base, junk);
    SizeSumFrame(h.mem, a.mem, order);
    assert SizeSum(a.mem, n) == sz + SizeSum(a.mem, order) by {
      assert n[1..] == order;
    }
    assert a.stats == RecordAlloc(h.stats, base + HDR, sz);
    RecordAllocTally(h.stats, base + HDR, sz, |order|, SizeSum(h.mem, order), |n|, SizeSum(a.mem, n));
  }

  /** [heap_min, heap_max] still covers every active block after `m61_malloc`. */
  lemma {:induction false} MallocCovers(h: Heap, order: seq<int>, sz: int, site: Site, base: int, junk: seq<byte>)
    requires Linked(h, order) && 0 <= sz <= SIZE_MAX && |junk| == sz
    requires Fits(sz) && Fresh(h, base, HDR + sz + TERMSIZE)
    requires Covers(h, order)
    ensures Covers(Malloc(h, order, sz, site, base, junk).after, [base] + order)
  {
    var a := Malloc(h, order, sz, site, base, junk).after;
    var n := [base] + order;
    MallocMem(h, order, sz, site, base, junk);
    forall i | 0 <= i < |n|
      ensures n[i] in a.mem
      ensures a.stats.heapMin <= n[i] + HDR && Top(n[i] + HDR, a.mem[n[i]].size) <= a.stats.heapMax
    {
      if i > 0 {
        assert n[i] == order[i - 1];
      }
    }
  }

  lemma {:induction false} MallocCounted(h: Heap, order: seq<int>, sz: int, site: Site, base: int, junk: seq<byte>)
    requires Valid(h, order) && 0 <= sz <= SIZE_MAX && |junk| == sz
    requires Fits(sz) && Fresh(h, base, HDR + sz + TERMSIZE)
    ensures Valid(Malloc(h, order, sz, site, base, junk).after, [base] + order)
  {
    MallocLinks(h, order, sz, site, base, junk);
    MallocTally(h, order, sz, site, base, junk);
    MallocCovers(h, order, sz, site, base, junk);
  }

  /**
   * A successful `m61_malloc` returns the address just past the new header,
   * puts the block at the front of the active list with its links
   * consistent, counts it in `ntotal`/`nactive` and both sizes, widens
   * [heap_min, heap_max] to cover its bytes, and leaves the other active
   * blocks as they were.
   */
  lemma {:induction false} MallocSucceeds(h: Heap, order: seq<int>, sz: int, site: Site, base: int, junk: seq<byte>)
    requires Valid(h, order) && 0 <= sz <= SIZE_MAX && |junk| == sz
    requires Fits(sz) && Fresh(h, base, HDR + sz + TERMSIZE)
    ensures var s := Malloc(h, order, sz, site, base, junk);
      var t := s.after.stats;
      s.ptr == base + HDR && Valid(s.after, [base] + order) &&
      t.ntotal == (h.stats.ntotal + 1) % WORD && t.totalSize == (h.stats.totalSize + sz) % WORD &&
      t.nactive == (h.stats.nactive + 1) % WORD && t.activeSize == (h.stats.activeSize + sz) % WORD &&
      t.nfail == h.stats.nfail && t.failSize == h.stats.failSize &&
      t.heapMin <= h.stats.heapMin && t.heapMax >= h.stats.heapMax &&
      t.heapMin <= s.ptr && s.ptr <= t.heapMax && s.ptr + sz - 1 <= t.heapMax &&
      s.after.mem[base].data == junk && s.after.mem[base].tail == Terminator &&
      s.after.mem[base].site == site &&
      forall i :: 0 <= i < |order| ==>
        s.after.mem[order[i]].size == h.mem[order[i]].size &&
        s.after.mem[order[i]].data == h.mem[order[i]].data &&
        s.after.mem[order[i]].tail == h.mem[order[i]].tail
  {
    MallocMem(h, order, sz, site, base, junk);
    MallocStats(h, order, sz, site, base, junk);
    MallocCounted(h, order, sz, site, base, junk);
  }

  /**
   * The checks `m61_free` makes before it unlinks the block at position i
   * of the active list: its pointer lies in [heap_min, heap_max] and its
   * terminator is intact.
   */
  ghost predicate Releasable(h: Heap, order: seq<int>, i: int)
  {
    0 <= i < |order| && order[i] in h.mem && 0 < order[i] + HDR < WORD &&
    h.stats.heapMin <= order[i] + HDR <= h.stats.heapMax && h.mem[order[i]].tail == Terminator
  }

  /** The active list with position i taken out. */
  function Without(order: seq<int>, i: int): (r: seq<int>)
    requires 0 <= i < |order|
    ensures |r| == |order| - 1
    ensures forall k :: 0 <= k < i ==> r[k] == order[k]
    ensures forall k :: i <= k < |r| ==> r[k] == order[k + 1]
  {
    order[..i] + order[i + 1..]
  }

  lemma {:induction false} LiveHeader(h: Heap, order: seq<int>, i: int)
    requires Linked(h, order) && 0 <= i < |order|
    ensures order[i] in h.mem && HeaderOk(order[i], h.mem[order[i]]) && !h.mem[order[i]].freed
    ensures 0 < order[i] + HDR < WORD
  {
    assert Live(h.mem, order[i]);
  }

  /** The headers in `order` are distinct, non-null and linked in that order. */
  ghost predicate Chained(mem: map<int, Header>, order: seq<int>)
  {
    (forall j, l :: 0 <= j < l < |order| ==> order[j] != order[l]) &&
    (forall j :: 0 <= j < |order| ==> order[j] != 0 && order[j] in mem) &&
    (forall j {:trigger mem[order[j]].next} :: 0 <= j < |order| ==> mem[order[j]].next == NextOf(order, j)) &&
    (forall j {:trigger mem[order[j]].prev} :: 0 <= j < |order| ==> mem[order[j]].prev == PrevOf(order, j))
  }

  lemma {:induction false} LinkedChained(h: Heap, order: seq<int>)
    requires Linked(h, order)
    ensures Chained(h.mem, order)
  {
    forall j | 0 <= j < |order|
      ensures order[j] != 0 && order[j] in h.mem
    {
      assert Live(h.mem, order[j]) && HeaderOk(order[j], h.mem[order[j]]);
    }
  }

  /** In a chained list the header at position i meets everything `Unlink` asks of it. */
  lemma {:induction false} UnlinkReady(mem: map<int, Header>, order: seq<int>, i: int)
    requires Chained(mem, order) && 0 <= i < |order|
    ensures var m := order[i];
      mem[m].prev == PrevOf(order, i) && mem[m].next == NextOf(order, i) &&
      (mem[m].prev == 0 || mem[m].prev in mem) && (mem[m].next == 0 || mem[m].next in mem) &&
      mem[m].next != m && mem[m].prev != m && (mem[m].prev == 0 || mem[m].prev != mem[m].next)
  {
  }

  /** The neighbours of position k once position i is taken out of a list. */
  lemma {:induction false} WithoutNeighbours(order: seq<int>, i: int, k: int)
    requires 0 <= i < |order| && 0 <= k < |order| - 1
    ensures var o := Without(order, i); var j := if k < i then k else k + 1;
      o[k] == order[j] && j != i &&
      NextOf(o, k) == (if j + 1 == i then NextOf(order, i) else NextOf(order, j)) &&
      PrevOf(o, k) == (if j == i + 1 then PrevOf(order, i) else PrevOf(order, j))
  {
    var o := Without(order, i);
    var j := if k < i then k else k + 1;
    if k + 1 < |o| {
      assert o[k + 1] == (if k + 1 < i then order[k + 1] else order[k + 2]);
    }
    if k > 0 {
      assert o[k - 1] == (if k - 1 < i then order[k - 1] else order[k]);
    }
  }

  /** Unlinking position i leaves position k of the shorter list linked to its new neighbours. */
  lemma {:induction false} UnlinkAt(mem: map<int, Header>, order: seq<int>, i: int, k: int)
    requires Chained(mem, order) && 0 <= i < |order| && 0 <= k < |order| - 1
    requires var m := order[i];
      mem[m].prev == PrevOf(order, i) && mem[m].next == NextOf(order, i) &&
      (mem[m].prev == 0 || mem[m].prev in mem) && (mem[m].next == 0 || mem[m].next in mem) &&
      mem[m].next != m && mem[m].prev != m && (mem[m].prev == 0 || mem[m].prev != mem[m].next)
    ensures var r := Unlink(mem, order[i]); var o := Without(order, i);
      o[k] in r && r[o[k]].next == NextOf(o, k) && r[o[k]].prev == PrevOf(o, k)
  {
    var m := order[i];
    var b := mem[m];
    var j := if k < i then k else k + 1;
    WithoutNeighbours(order, i, k);
    var x := order[j];
    assert x in mem && x != m && mem[x].next == NextOf(order, j) && mem[x].prev == PrevOf(order, j);
    if j == i - 1 {
      assert x == b.prev && x != b.next;
    } else if j == i + 1 {
      assert x == b.next && x != b.prev;
    } else {
      assert x != b.prev && x != b.next;
    }
  }

  /** After `m61_free` of an active block its neighbours are linked to each other. */
  lemma {:induction false} FreeChain(h: Heap, order: seq<int>, i: int)
    requires Linked(h, order) && Releasable(h, order, i)
    ensures var a := Free(h, order, order[i] + HDR).after;
      var o := Without(order, i);
      forall k :: 0 <= k < |o| ==>
        o[k] in a.mem && a.mem[o[k]].next == NextOf(o, k) && a.mem[o[k]].prev == PrevOf(o, k)
  {
    LiveHeader(h, order, i);
    LinkedChained(h, order);
    var a := Free(h, order, order[i] + HDR).after;
    UnlinkReady(h.mem, order, i);
    assert a.mem == Unlink(h.mem, order[i]);
    forall k | 0 <= k < |order| - 1
      ensures var o := Without(order, i);
        o[k] in a.mem && a.mem[o[k]].next == NextOf(o, k) && a.mem[o[k]].prev == PrevOf(o, k)
    {
      UnlinkAt(h.mem, order, i, k);
    }
  }

  /** Taking position i out of a list without repeats: the others remain, and only they. */
  lemma {:induction false} WithoutMembers(order: seq<int>, i: int)
    requires 0 <= i < |order| && forall j, l :: 0 <= j < l < |order| ==> order[j] != order[l]
    ensures var o := Without(order, i);
      (forall j, l :: 0 <= j < l < |o| ==> o[j] != o[l]) &&
      (forall x :: x in o <==> x in order && x != order[i])
  {
    var o := Without(order, i);
    forall j, l | 0 <= j < l < |o|
      ensures o[j] != o[l]
    {
      var j' := if j < i then j else j + 1;
      var l' := if l < i then l else l + 1;
      assert o[j] == order[j'] && o[l] == order[l'] && j' < l';
    }
    forall x
      ensures x in o <==> x in order && x != order[i]
    {
      if x in order && x != order[i] {
        var j :| 0 <= j < |order| && order[j] == x;
        assert o[if j < i then j else j - 1] == x;
      }
      if x in o {
        var k :| 0 <= k < |o| && o[k] == x;
        assert order[if k < i then k else k + 1] == x;
      }
    }
  }

  /** The pieces of `m61_free`'s result for the block at position i. */
  lemma {:induction false} FreeParts(h: Heap, order: seq<int>, i: int)
    requires Linked(h, order) && Releasable(h, order, i)
    ensures var m := order[i]; var s := Free(h, order, m + HDR);
      m in h.mem && s.outcome == Freed &&
      s.after.stats == RecordFree(h.stats, h.mem[m].size) &&
      s.after.front == (if i == 0 then NextOf(order, 0) else order[0]) &&
      (forall k :: k in s.after.mem ==> k in h.mem) &&
      (forall k :: k in h.mem ==> k in s.after.mem && SameBlock(s.after.mem[k], h.mem[k]) &&
                                  (k != m ==> s.after.mem[k].freed == h.mem[k].freed)) &&
      m in s.after.mem && s.after.mem[m].freed
  {
    LiveHeader(h, order, i);
    var m := order[i];
    Neighbours(h, order, m);
    assert h.mem[m].prev == PrevOf(order, i) && h.mem[m].next == NextOf(order, i);
    if i > 0 {
      assert Live(h.mem, order[i - 1]);
    }
  }

  /** After `m61_free` of an active block the shorter list holds exactly the active blocks. */
  lemma {:induction false} FreeListed(h: Heap, order: seq<int>, i: int)
    requires Linked(h, order) && Releasable(h, order, i)
    ensures var a := Free(h, order, order[i] + HDR).after;
      var o := Without(order, i);
      (forall j, l :: 0 <= j < l < |o| ==> o[j] != o[l]) &&
      (forall x :: Live(a.mem, x) <==> x in o) &&
      !Live(a.mem, order[i])
  {
    FreeParts(h, order, i);
    WithoutMembers(order, i);
    var a := Free(h, order, order[i] + HDR).after;
    var o := Without(order, i);
    forall x
      ensures Live(a.mem, x) <==> x in o
    {
      if x in o {
        assert Live(h.mem, x);
      }
    }
  }

  /** After `m61_free` the front is the list's new head and every header is still well formed. */
  lemma {:induction false} FreeFront(h: Heap, order: seq<int>, i: int)
    requires Linked(h, order) && Releasable(h, order, i)
    ensures var a := Free(h, order, order[i] + HDR).after;
      var o := Without(order, i);
      a.front == (if |o| == 0 then 0 else o[0]) &&
      (forall x :: x in a.mem ==> HeaderOk(x, a.mem[x]))
  {
    FreeParts(h, order, i);
    var a := Free(h, order, order[i] + HDR).after;
    forall x | x in a.mem
      ensures HeaderOk(x, a.mem[x])
    {
      assert HeaderOk(x, h.mem[x]);
    }
  }

  /** After `m61_free` the active count and size drop by one block of its size. */
  lemma {:induction false} FreeTally(h: Heap, order: seq<int>, i: int)
    requires Linked(h, order) && Releasable(h, order, i)
    requires InRange(h.stats) && Tally(h.stats, |order|, SizeSum(h.mem, order))
    ensures var a := Free(h, order, order[i] + HDR).after;
      InRange(a.stats) && Tally(a.stats, |Without(order, i)|, SizeSum(a.mem, Without(order, i)))
  {
    FreeParts(h, order, i);
    var m := order[i];
    var a := Free(h, order, m + HDR).after;
    var o := Without(order, i);
    var size := h.mem[m].size;
    SizeSumRemove(h.mem, order, i);
    forall j | 0 <= j < |o|
      ensures o[j] in h.mem && o[j] in a.mem && a.mem[o[j]].size == h.mem[o[j]].size
    {
      assert o[j] == order[if j < i then j else j + 1];
    }
    SizeSumFrame(h.mem, a.mem, o);
    RecordFreeTally(h.stats, size, |order|, SizeSum(h.mem, order), |o|, SizeSum(a.mem, o));
  }

  /** `m61_free` leaves [heap_min, heap_max] and every remaining block's size alone. */
  lemma {:induction false} FreeCovers(h: Heap, order: seq<int>, i: int)
    requires Linked(h, order) && Releasable(h, order, i) && Covers(h, order)
    ensures Covers(Free(h, order, order[i] + HDR).after, Without(order, i))
  {
    FreeParts(h, order, i);
    var a := Free(h, order, order[i] + HDR).after;
    var o := Without(order, i);
    forall j | 0 <= j < |o|
      ensures o[j] in a.mem
      ensures a.stats.heapMin <= o[j] + HDR && Top(o[j] + HDR, a.mem[o[j]].size) <= a.stats.heapMax
    {
      assert o[j] == order[if j < i then j else j + 1];
    }
  }

  /** After `m61_free` of an active block the rest of the list is linked as before. */
  lemma {:induction false} FreeLinks(h: Heap, order: seq<int>, i: int)
    requires Linked(h, order) && Releasable(h, order, i)
    ensures Linked(Free(h, order, order[i] + HDR).after, Without(order, i))
  {
    FreeChain(h, order, i);
    FreeListed(h, order, i);
    FreeFront(h, order, i);
    var a := Free(h, order, order[i] + HDR).after;
    var o := Without(order, i);
    forall j | 0 <= j < |o|
      ensures Live(a.mem, o[j])
    {
      assert o[j] in o;
    }
  }

  lemma {:induction false} FreeCounted(h: Heap, order: seq<int>, i: int)
    requires Valid(h, order) && Releasable(h, order, i)
    ensures Valid(Free(h, order, order[i] + HDR).after, Without(order, i))
  {
    FreeLinks(h, order, i);
    FreeTally(h, order, i);
    FreeCovers(h, order, i);
  }

  /** Every block on a valid list passes `m61_free`'s range and checksum tests. */
  lemma {:induction false} ActiveReleasable(h: Heap, order: seq<int>, i: int)
    requires Valid(h, order) && 0 <= i < |order| && order[i] in h.mem
    requires h.mem[order[i]].tail == Terminator
    ensures Releasable(h, order, i)
  {
    LiveHeader(h, order, i);
  }

  /**
   * `m61_free` of an active block with an intact terminator takes it off
   * the active list, marks its header freed, subtracts one block and its
   * size from `nactive` and `active_size`, and changes no other statistic
   * and no block's contents; the invariants still hold.
   */
  lemma {:induction false} FreeSucceeds(h: Heap, order: seq<int>, i: int)
    requires Valid(h, order) && 0 <= i < |order| && order[i] in h.mem
    requires h.mem[order[i]].tail == Terminator
    ensures var m := order[i];
      var s := Free(h, order, m + HDR);
      var t := s.after.stats;
      s.outcome == Freed && Valid(s.after, Without(order, i)) && !Live(s.after.mem, m) &&
      t.nactive == Wrap(h.stats.nactive - 1) && t.activeSize == Wrap(h.stats.activeSize - h.mem[m].size) &&
      t.ntotal == h.stats.ntotal && t.totalSize == h.stats.totalSize &&
      t.nfail == h.stats.nfail && t.failSize == h.stats.failSize &&
      t.heapMin == h.stats.heapMin && t.heapMax == h.stats.heapMax &&
      forall x :: x in h.mem ==> x in s.after.mem && SameBlock(s.after.mem[x], h.mem[x])
  {
    ActiveReleasable(h, order, i);
    FreeStats(h, order, i);
    FreeCounted(h, order, i);
    FreeListed(h, order, i);
  }

  /** The statistics and block contents after `m61_free` of an active block. */
  lemma {:induction false} FreeStats(h: Heap, order: seq<int>, i: int)
    requires Linked(h, order) && Releasable(h, order, i)
    ensures var m := order[i];
      var s := Free(h, order, m + HDR);
      var t := s.after.stats;
      s.outcome == Freed &&
      t.nactive == Wrap(h.stats.nactive - 1) && t.activeSize == Wrap(h.stats.activeSize - h.mem[m].size) &&
      t.ntotal == h.stats.ntotal && t.totalSize == h.stats.totalSize &&
      t.nfail == h.stats.nfail && t.failSize == h.stats.failSize &&
      t.heapMin == h.stats.heapMin && t.heapMax == h.stats.heapMax &&
      forall x :: x in h.mem ==> x in s.after.mem && SameBlock(s.after.mem[x], h.mem[x])
  {
    FreeParts(h, order, i);
  }

  /** Freeing the same block a second time is reported as a double free. */
  lemma {:induction false} FreeTwice(h: Heap, order: seq<int>, i: int)
    requires Valid(h, order) && 0 <= i < |order| && order[i] in h.mem
    requires h.mem[order[i]].tail == Terminator
    ensures var s := Free(h, order, order[i] + HDR);
      Linked(s.after, Without(order, i)) &&
      Free(s.after, Without(order, i), order[i] + HDR) == FreeStep(s.after, DoubleFree)
  {
    FreeSucceeds(h, order, i);
    FreeParts(h, order, i);
  }

  /** A pointer with no header before it never frees anything: `m61_free` aborts. */
  lemma {:induction false} FreeUnknown(h: Heap, order: seq<int>, ptr: int)
    requires Linked(h, order) && 0 < ptr < WORD && ptr - HDR !in h.mem
    ensures var s := Free(h, order, ptr);
      s.after == h && (s.outcome == NotInHeap || s.outcome == NotAllocated)
  {
  }

  /** Every outcome but a completed free leaves the allocator untouched, and so does `m61_free(nullptr)`. */
  lemma {:induction false} FreeAborts(h: Heap, order: seq<int>, ptr: int)
    requires Linked(h, order) && 0 <= ptr < WORD
    ensures var s := Free(h, order, ptr);
      (s.outcome != Freed ==> s.after == h) && (ptr == 0 ==> s == FreeStep(h, Freed))
  {
  }

  /** `RecordFree` undoes `RecordAlloc`'s counts and leaves its totals. */
  lemma {:induction false} RecordRoundTrip(s: Stats, ptr: int, sz: int)
    requires InRange(s)
    ensures var t := RecordFree(RecordAlloc(s, ptr, sz), sz);
      t.nactive == s.nactive && t.activeSize == s.activeSize &&
      t.ntotal == RecordAlloc(s, ptr, sz).ntotal && t.totalSize == RecordAlloc(s, ptr, sz).totalSize
  {
    ModAdd(s.nactive + 1, -1);
    ModAdd(s.activeSize + sz, -sz);
  }

  /**
   * `m61_free(m61_malloc(sz))` succeeds, restores `nactive`,
   * `active_size` and the front of the active list, and keeps the totals.
   */
  lemma {:induction false} MallocThenFree(h: Heap, order: seq<int>, sz: int, site: Site, base: int, junk: seq<byte>)
    requires Valid(h, order) && 0 <= sz <= SIZE_MAX && |junk| == sz
    requires Fits(sz) && Fresh(h, base, HDR + sz + TERMSIZE)
    ensures var s := Malloc(h, order, sz, site, base, junk);
      Linked(s.after, [base] + order) &&
      var f := Free(s.after, [base] + order, s.ptr);
      f.outcome == Freed && f.after.front == h.front &&
      f.after.stats.nactive == h.stats.nactive && f.after.stats.activeSize == h.stats.activeSize &&
      f.after.stats.ntotal == s.after.stats.ntotal && f.after.stats.totalSize == s.after.stats.totalSize
  {
    var s := Malloc(h, order, sz, site, base, junk);
    var n := [base] + order;
    MallocCounted(h, order, sz, site, base, junk);
    MallocStats(h, order, sz, site, base, junk);
    assert s.after.stats == RecordAlloc(h.stats, base + HDR, sz);
    assert n[0] == base && Without(n, 0) == order;
    assert base in s.after.mem && s.after.mem[base].tail == Terminator;
    ActiveReleasable(s.after, n, 0);
    FreeParts(s.after, n, 0);
    RecordRoundTrip(h.stats, base + HDR, sz);
  }

  /**
   * As written, `m61_malloc(0)` as the highest block sets `heap_max` to
   * one below the pointer it returns, so freeing that pointer reports
   * "not in heap" and aborts.
   */
  lemma {:induction false} ZeroSizeFreeAborts(site: Site, base: int)
    requires 0 < base && base + HDR + TERMSIZE <= WORD
    ensures var s := MallocAsWritten(Empty, [], 0, site, base, []);
      s.ptr == base + HDR && Linked(s.after, [base]) && Free(s.after, [base], s.ptr).outcome == NotInHeap
    ensures var s := Malloc(Empty, [], 0, site, base, []);
      Free(s.after, [base], s.ptr).outcome == Freed
  {
    MallocLinks(Empty, [], 0, site, base, []);
    var s := Malloc(Empty, [], 0, site, base, []);
    assert s.after.mem[base].tail == Terminator && !s.after.mem[base].freed;
    assert s.after.stats.heapMin == base + HDR == s.after.stats.heapMax;
  }

  /**
   * The program storing byte v at offset off of the block at m's pointer:
   * inside its sz bytes, or past them over the terminator (`m61_malloc`
   * wrote the terminator at m61.cc:62).
   */
  function Poke(h: Heap, m: int, off: int, v: byte): (r: Heap)
    requires m in h.mem && HeaderOk(m, h.mem[m]) && 0 <= off < h.mem[m].size + TERMSIZE
    ensures r.stats == h.stats && r.front == h.front
    ensures forall k :: k in r.mem <==> k in h.mem
    ensures forall k :: k in h.mem ==> SameLinks(r.mem[k], h.mem[k])
    ensures forall k :: k in h.mem && k != m ==> r.mem[k] == h.mem[k]
    ensures HeaderOk(m, r.mem[m])
    ensures off < h.mem[m].size ==> r.mem[m].data == h.mem[m].data[off := v] && r.mem[m].tail == h.mem[m].tail
    ensures off >= h.mem[m].size ==> r.mem[m].tail[off - h.mem[m].size] == v
  {
    var b := h.mem[m];
    var b' := if off < b.size then b.(data := b.data[off := v]) else b.(tail := b.tail[off - b.size := v]);
    h.(mem := h.mem[m := b'])
  }

  /** Two headers with the same address check, size, links and freed flag. */
  predicate SameLinks(x: Header, y: Header)
  {
    x.checksum == y.checksum && x.size == y.size && x.next == y.next && x.prev == y.prev &&
    x.freed == y.freed
  }

  /** The invariants only read the statistics, the front, and each header's links, size and shape. */
  lemma {:induction false} Relabel(h: Heap, h': Heap, order: seq<int>)
    requires Valid(h, order) && h'.stats == h.stats && h'.front == h.front
    requires forall k :: k in h'.mem <==> k in h.mem
    requires forall k :: k in h.mem ==> SameLinks(h'.mem[k], h.mem[k]) && HeaderOk(k, h'.mem[k])
    ensures Valid(h', order)
  {
    assert forall k :: Live(h'.mem, k) <==> Live(h.mem, k);
    forall j | 0 <= j < |order|
      ensures order[j] in h.mem && order[j] in h'.mem && h'.mem[order[j]].size == h.mem[order[j]].size
    {
      assert Live(h.mem, order[j]);
    }
    SizeSumFrame(h.mem, h'.mem, order);
  }

  /** Stores into an active block keep the list and the statistics valid. */
  lemma {:induction false} PokeValid(h: Heap, order: seq<int>, m: int, off: int, v: byte)
    requires Valid(h, order) && m in h.mem && 0 <= off < h.mem[m].size + TERMSIZE
    ensures HeaderOk(m, h.mem[m]) && Valid(Poke(h, m, off, v), order)
  {
    assert HeaderOk(m, h.mem[m]);
    var r := Poke(h, m, off, v);
    forall k | k in h.mem
      ensures HeaderOk(k, r.mem[k])
    {
      assert HeaderOk(k, h.mem[k]);
    }
    Relabel(h, r, order);
  }

  /**
   * A store past the end of an active block that changes a terminator byte
   * is caught when the block is freed: `m61_free` reports a wild write and
   * aborts, leaving everything as it was. A store inside the block is not:
   * freeing it still succeeds.
   */
  lemma {:induction false} WildWriteDetected(h: Heap, order: seq<int>, i: int, off: int, v: byte)
    requires Valid(h, order) && 0 <= i < |order| && order[i] in h.mem
    requires h.mem[order[i]].tail == Terminator
    requires 0 <= off < h.mem[order[i]].size + TERMSIZE
    ensures var m := order[i];
      HeaderOk(m, h.mem[m]) &&
      var p := Poke(h, m, off, v);
      Valid(p, order) &&
      var s := Free(p, order, m + HDR);
      (off >= h.mem[m].size && v != Terminator[off - h.mem[m].size] ==> s == FreeStep(p, WildWrite)) &&
      (off < h.mem[m].size ==> s.outcome == Freed)
  {
    var m := order[i];
    PokeValid(h, order, m, off, v);
    var p := Poke(h, m, off, v);
    if off < h.mem[m].size {
      FreeSucceeds(p, order, i);
    } else {
      LiveHeader(h, order, i);
      ActiveReleasable(h, order, i);
      assert p.mem[m].tail[off - h.mem[m].size] == v;
    }
  }

  /** m61.cc:167's test is exact: for sz > 0 it admits nmemb just when nmemb * sz fits in size_t. */
  lemma {:induction false} CallocTestExact(nmemb: int, sz: int)
    requires 0 <= nmemb && 0 < sz
    ensures nmemb <= SIZE_MAX / sz <==> nmemb * sz <= SIZE_MAX
  {
    var q := SIZE_MAX / sz;
    var r := SIZE_MAX % sz;
    assert SIZE_MAX == q * sz + r && 0 <= r < sz;
    if nmemb <= q {
      MulMono(nmemb, q, sz);
    } else {
      MulMono(q + 1, nmemb, sz);
      assert (q + 1) * sz == q * sz + sz;
    }
  }

  lemma {:induction false} MulMono(a: int, b: int, c: int)
    requires a <= b && 0 <= c
    ensures a * c <= b * c
  {
    assert b * c - a * c == (b - a) * c;
  }

  /**
   * A successful `m61_calloc` is a successful `m61_malloc` of nmemb * sz
   * bytes whose data are all zero.
   */
  lemma {:induction false} CallocZeroes(h: Heap, order: seq<int>, nmemb: int, sz: int, site: Site, base: int, junk: seq<byte>)
    requires Valid(h, order) && 0 <= nmemb <= SIZE_MAX && 0 <= sz <= SIZE_MAX
    requires CallocOracle(h, nmemb, sz, base, junk) && CallocFits(nmemb, sz)
    requires Fits(nmemb * sz) && base != 0
    ensures var s := Calloc(h, order, nmemb, sz, site, base, junk);
      s.ptr == base + HDR && Valid(s.after, [base] + order) &&
      s.after.stats == Malloc(h, order, nmemb * sz, site, base, junk).after.stats &&
      base in s.after.mem && s.after.mem[base].data == Zeros(nmemb * sz)
  {
    MulBound(nmemb, sz);
    var n := nmemb * sz;
    var m := Malloc(h, order, n, site, base, junk).after;
    MallocCounted(h, order, n, site, base, junk);
    CallocShape(h, order, nmemb, sz, site, base, junk);
    ReplaceData(m, [base] + order, base, Zeros(n));
  }

  /** Replacing the data of a block by as many other bytes keeps the invariants. */
  lemma {:induction false} ReplaceData(h: Heap, order: seq<int>, m: int, data: seq<byte>)
    requires Valid(h, order) && m in h.mem && |data| == h.mem[m].size
    ensures Valid(h.(mem := h.mem[m := h.mem[m].(data := data)]), order)
  {
    var h' := h.(mem := h.mem[m := h.mem[m].(data := data)]);
    forall k | k in h.mem
      ensures SameLinks(h'.mem[k], h.mem[k]) && HeaderOk(k, h'.mem[k])
    {
      assert HeaderOk(k, h.mem[k]);
    }
    Relabel(h, h', order);
  }

  /** `m61_calloc` returns `m61_malloc`'s pointer and only overwrites the new block's data. */
  lemma {:induction false} CallocShape(h: Heap, order: seq<int>, nmemb: int, sz: int, site: Site, base: int, junk: seq<byte>)
    requires Linked(h, order) && 0 <= nmemb <= SIZE_MAX && 0 <= sz <= SIZE_MAX
    requires CallocOracle(h, nmemb, sz, base, junk) && CallocFits(nmemb, sz)
    requires Fits(nmemb * sz) && base != 0
    ensures 0 <= nmemb * sz <= SIZE_MAX
    ensures var m := Malloc(h, order, nmemb * sz, site, base, junk);
      var s := Calloc(h, order, nmemb, sz, site, base, junk);
      m.ptr == base + HDR && s.ptr == m.ptr &&
      base in m.after.mem && m.after.mem[base].size == nmemb * sz &&
      s.after == m.after.(mem := m.after.mem[base := m.after.mem[base].(data := Zeros(nmemb * sz))])
  {
    MulBound(nmemb, sz);
  }

  /** `m61_calloc(nmemb, 0)` returns a fresh non-null pointer when `base_malloc` supplies memory. */
  lemma {:induction false} CallocZeroSize(h: Heap, order: seq<int>, nmemb: int, site: Site, base: int, junk: seq<byte>)
    requires Valid(h, order) && 0 <= nmemb <= SIZE_MAX
    requires CallocOracle(h, nmemb, 0, base, junk) && base != 0
    ensures var s := Calloc(h, order, nmemb, 0, site, base, junk);
      s.ptr == base + HDR && s.ptr != 0 && Valid(s.after, [base] + order)
  {
    CallocZeroes(h, order, nmemb, 0, site, base, junk);
  }

  /**
   * An overflowing `m61_calloc` returns null and counts one failure in
   * `nfail` but nothing in `fail_size`; nothing else changes.
   */
  lemma {:induction false} CallocOverflow(h: Heap, order: seq<int>, nmemb: int, sz: int, site: Site, base: int, junk: seq<byte>)
    requires Valid(h, order) && 0 <= nmemb <= SIZE_MAX && 0 < sz <= SIZE_MAX
    requires nmemb * sz > SIZE_MAX
    ensures CallocOracle(h, nmemb, sz, base, junk)
    ensures var s := Calloc(h, order, nmemb, sz, site, base, junk);
      s.ptr == 0 && s.after == h.(stats := h.stats.(nfail := (h.stats.nfail + 1) % WORD)) &&
      Valid(s.after, order)
  {
    CallocTestExact(nmemb, sz);
  }

  /** As written, `m61_calloc` with sz == 0 divides by zero whatever nmemb is. */
  lemma {:induction false} CallocDividesByZero(h: Heap, order: seq<int>, nmemb: int, site: Site, base: int, junk: seq<byte>)
    requires Linked(h, order) && 0 <= nmemb <= SIZE_MAX && CallocOracle(h, nmemb, 0, base, junk)
    ensures CallocAsWritten(h, order, nmemb, 0, site, base, junk) == DivideByZero
    ensures Calloc(h, order, nmemb, 0, site, base, junk).ptr == (if base == 0 then 0 else base + HDR)
  {
  }

  /** The leak report lists every active block once, front first, with its pointer, size and site. */
  lemma {:induction false} ReportLists(mem: map<int, Header>, order: seq<int>)
    requires forall i :: 0 <= i < |order| ==> order[i] in mem
    ensures var r := Report(mem, order);
      |r| == |order| &&
      forall k :: 0 <= k < |order| ==> r[k] == Leak(order[k] + HDR, mem[order[k]].size, mem[order[k]].site)
  {
    if order != [] {
      ReportLists(mem, order[1..]);
      var r := Report(mem, order);
      forall k | 0 < k < |order|
        ensures r[k] == Leak(order[k] + HDR, mem[order[k]].size, mem[order[k]].site)
      {
        assert order[k] == order[1..][k - 1];
      }
    }
  }

  /**
   * On a valid heap the report names exactly the pointers of the active
   * blocks, and `nactive` is its length modulo 2^64.
   */
  lemma {:induction false} ReportIsActive(h: Heap, order: seq<int>)
    requires Valid(h, order)
    ensures forall i :: 0 <= i < |order| ==> order[i] in h.mem
    ensures var r := Report(h.mem, order);
      h.stats.nactive == Wrap(|r|) &&
      (forall k :: 0 <= k < |r| ==> Live(h.mem, r[k].ptr - HDR)) &&
      (forall m :: Live(h.mem, m) ==> exists k :: 0 <= k < |r| && r[k].ptr == m + HDR)
  {
    forall i | 0 <= i < |order|
      ensures order[i] in h.mem
    {
      assert Live(h.mem, order[i]);
    }
    ReportLists(h.mem, order);
    var r := Report(h.mem, order);
    forall k | 0 <= k < |r|
      ensures Live(h.mem, r[k].ptr - HDR)
    {
      assert r[k].ptr - HDR == order[k] && Live(h.mem, order[k]);
    }
    forall m | Live(h.mem, m)
      ensures exists k :: 0 <= k < |r| && r[k].ptr == m + HDR
    {
      var k :| 0 <= k < |order| && order[k] == m;
      assert r[k].ptr == m + HDR;
    }
  }

  /** The blocks the invalid-free diagnostic names are exactly the listed blocks strictly containing ptr. */
  lemma {:induction false} InsideIff(mem: map<int, Header>, order: seq<int>, ptr: int)
    requires forall i :: 0 <= i < |order| ==> order[i] in mem
    ensures forall x :: x in Inside(mem, order, ptr) <==> x in order && x in mem && StrictlyInside(x, mem[x], ptr)
  {
    if order != [] {
      InsideIff(mem, order[1..], ptr);
      forall x
        ensures x in Inside(mem, order, ptr) <==> x in order && x in mem && StrictlyInside(x, mem[x], ptr)
      {
        assert x in order <==> x == order[0] || x in order[1..];
      }
    }
  }
}
