/** The psets/pset3 WeensyOS kernel: a round-robin zeroing page allocator,
    per-process page tables, page allocation, eager-copy fork with rollback,
    exit, a round-robin scheduler and a page-fault classifier.

    Global state (`pages[]`, `ptable[]`, `current`, `ticks`, kalloc's static
    `start`, physical memory and the kernel page table) is the state of one
    `Kernel` object. */
module Pset3Kernel {
  import opened WeensyCommon

  // system call numbers (lib.hh, which is not part of this model)
  const SYSCALL_GETPID: nat := 1
  const SYSCALL_YIELD: nat := 2
  const SYSCALL_PANIC: nat := 3
  const SYSCALL_PAGE_ALLOC: nat := 4
  const SYSCALL_FORK: nat := 5
  const SYSCALL_EXIT: nat := 6

  /** kalloc's first probe: the page just after the most recently granted
      one (`start` may equal MEMSIZE_PHYSICAL, which wraps to page 0). */
  function StartPage(start: nat): (pn: nat)
    ensures pn < NPAGES
  {
    (start / PAGESIZE) % NPAGES
  }

  /** kfree's effect on the refcount table: nothing for null, misaligned or
      already-free pages, otherwise one decrement of that page. */
  function KFreed(refc: seq<nat>, pa: nat): (r: seq<nat>)
    requires |refc| == NPAGES && pa < MEMSIZE_PHYSICAL
    ensures |r| == NPAGES
    ensures forall pn :: 0 <= pn < NPAGES ==> r[pn] == Sat(refc[pn], Hits(pa, pn))
  {
    if pa == 0 || pa % PAGESIZE != 0 || refc[pa / PAGESIZE] == 0 then refc
    else refc[pa / PAGESIZE := refc[pa / PAGESIZE] - 1]
  }

  /** `x` decremented `k` times, never below 0. */
  function Sat(x: nat, k: nat): nat {
    if x >= k then x - k else 0
  }

  /** 1 when `pa` is the non-null address of physical page `pn`. */
  function Hits(pa: nat, pn: nat): nat {
    if pa != 0 && pa == pn * PAGESIZE then 1 else 0
  }

  /** 1 when `va` is a user mapping of page `pn` in `pt`. */
  function UserHits(pt: PageTable, pn: nat, va: nat): nat {
    if IsUser(pt, va) then Hits(Entry(pt, va).pa, pn) else 0
  }

  /** How many user mappings of page `pn` lie at page-aligned addresses in `[lo, hi)`. */
  function UserCount(pt: PageTable, pn: nat, lo: nat, hi: nat): nat
    decreases hi
  {
    if hi < lo + PAGESIZE then 0
    else UserCount(pt, pn, lo, hi - PAGESIZE) + UserHits(pt, pn, hi - PAGESIZE)
  }

  /** How many of the first `n` leaf table pages of `pt` are page `pn`. */
  function TableCount(pt: PageTable, pn: nat, n: nat): nat
    requires n <= |pt.tables|
  {
    if n == 0 then 0 else TableCount(pt, pn, n - 1) + Hits(pt.tables[n - 1], pn)
  }

  /** The references to page `pn` that exit gives back for an address space:
      its user pages at or above PROC_START_ADDR, its leaf tables and its root. */
  function Held(pt: PageTable, pn: nat): nat
    requires |pt.tables| == NTABLES
  {
    UserCount(pt, pn, PROC_START_ADDR, MEMSIZE_VIRTUAL) + TableCount(pt, pn, NTABLES) + Hits(pt.root, pn)
  }

  /** Memory `ma` is `mb` with the page at `pa` zeroed. */
  predicate ZeroedPage(mb: seq<byte>, ma: seq<byte>, pa: nat)
    requires |mb| == MEMSIZE_PHYSICAL && |ma| == MEMSIZE_PHYSICAL
  {
    forall i :: 0 <= i < MEMSIZE_PHYSICAL ==> ma[i] == (if pa <= i < pa + PAGESIZE then 0 else mb[i])
  }

  /** UserCount depends only on the entries in its range. */
  lemma {:induction false} UserCountFrame(pt: PageTable, pt': PageTable, pn: nat, lo: nat, hi: nat)
    requires forall va :: lo <= va < hi ==> Entry(pt, va) == Entry(pt', va)
    ensures UserCount(pt, pn, lo, hi) == UserCount(pt', pn, lo, hi)
    decreases hi
  {
    if hi >= lo + PAGESIZE {
      UserCountFrame(pt, pt', pn, lo, hi - PAGESIZE);
      assert Entry(pt, hi - PAGESIZE) == Entry(pt', hi - PAGESIZE);
    }
  }

  /** Changing the one entry at `va` changes UserCount by the change at `va`. */
  lemma {:induction false} UserCountUpdate(pt: PageTable, pt': PageTable, pn: nat, lo: nat, hi: nat, va: nat)
    requires PageAligned(lo) && PageAligned(hi) && PageAligned(va)
    requires forall v :: v != va ==> Entry(pt, v) == Entry(pt', v)
    ensures UserCount(pt', pn, lo, hi) ==
      UserCount(pt, pn, lo, hi) + (if lo <= va < hi then UserHits(pt', pn, va) - UserHits(pt, pn, va) else 0)
    decreases hi
  {
    if hi >= lo + PAGESIZE {
      UserCountUpdate(pt, pt', pn, lo, hi - PAGESIZE, va);
    }
  }

  /** TableCount depends only on the table pointers it counts. */
  lemma {:induction false} TableCountUpdate(pt: PageTable, pt': PageTable, pn: nat, n: nat, r: nat)
    requires n <= |pt.tables| == |pt'.tables| && r < |pt.tables|
    requires forall i :: 0 <= i < |pt.tables| && i != r ==> pt.tables[i] == pt'.tables[i]
    ensures TableCount(pt', pn, n) ==
      TableCount(pt, pn, n) + (if r < n then Hits(pt'.tables[r], pn) - Hits(pt.tables[r], pn) else 0)
  {
    if n > 0 {
      TableCountUpdate(pt, pt', pn, n - 1, r);
    }
  }

  /** An address space with no user mappings holds no user pages. */
  lemma {:induction false} UserCountNone(pt: PageTable, pn: nat, lo: nat, hi: nat)
    requires pt.entries == map[]
    ensures UserCount(pt, pn, lo, hi) == 0
    decreases hi
  {
    if hi >= lo + PAGESIZE {
      UserCountNone(pt, pn, lo, hi - PAGESIZE);
    }
  }

  /** UserCount is at least 1 when one counted address maps page `pn`. */
  lemma {:induction false} UserCountHit(pt: PageTable, pn: nat, lo: nat, hi: nat, v: nat)
    requires PageAligned(lo) && PageAligned(hi) && PageAligned(v) && lo <= v < hi
    requires UserHits(pt, pn, v) == 1
    ensures UserCount(pt, pn, lo, hi) >= 1
    decreases hi
  {
    if v < hi - PAGESIZE {
      UserCountHit(pt, pn, lo, hi - PAGESIZE, v);
    }
  }

  /** Held after changing the entry at `va` and possibly that region's leaf pointer. */
  lemma {:induction false} HeldUpdate(pt: PageTable, pt': PageTable, va: nat, pn: nat)
    requires |pt.tables| == NTABLES && |pt'.tables| == NTABLES && pt'.root == pt.root
    requires PageAligned(va) && va < MEMSIZE_VIRTUAL
    requires forall v :: v != va ==> Entry(pt, v) == Entry(pt', v)
    requires forall r :: 0 <= r < NTABLES && r != Region(va) ==> pt.tables[r] == pt'.tables[r]
    ensures Held(pt', pn) + Hits(pt.tables[Region(va)], pn) + (if va >= PROC_START_ADDR then UserHits(pt, pn, va) else 0)
         == Held(pt, pn) + Hits(pt'.tables[Region(va)], pn) + (if va >= PROC_START_ADDR then UserHits(pt', pn, va) else 0)
  {
    UserCountUpdate(pt, pt', pn, PROC_START_ADDR, MEMSIZE_VIRTUAL, va);
    TableCountUpdate(pt, pt', pn, NTABLES, Region(va));
  }

  lemma {:induction false} SamePage(i: nat, pa: nat)
    requires PageAligned(pa)
    ensures pa <= i < pa + PAGESIZE ==> i / PAGESIZE == pa / PAGESIZE
  {
  }

  /** No refcount in `r'` is below its value in `r`. */
  predicate Grows(r: seq<nat>, r': seq<nat>)
    requires |r| == NPAGES && |r'| == NPAGES
  {
    forall pn :: 0 <= pn < NPAGES ==> r'[pn] >= r[pn]
  }

  /** From `r` to `r'` every page but page 0 gained exactly the references
      the address space gained from `pt` to `pt'`. */
  predicate TracksHeld(r: seq<nat>, r': seq<nat>, pt: PageTable, pt': PageTable)
    requires |r| == NPAGES && |r'| == NPAGES && |pt.tables| == NTABLES && |pt'.tables| == NTABLES
  {
    forall pn :: 1 <= pn < NPAGES ==> r'[pn] + Held(pt, pn) == r[pn] + Held(pt', pn)
  }

  /** For a page-aligned address, Hits is "is page `pn`, and not null". */
  lemma {:induction false} HitsPage(pa: nat, pn: nat)
    requires PageAligned(pa)
    ensures Hits(pa, pn) == if pa != 0 && pa / PAGESIZE == pn then 1 else 0
  {
  }

  /** Which slots syscall_fork may take: FREE ones. */
  function FreeSlotMask<P>(procs: seq<Proc<P>>): (m: seq<bool>)
    requires |procs| == NPROC
    ensures |m| == NPROC - 1
    ensures forall i :: 0 <= i < NPROC - 1 ==> (m[i] <==> procs[i + 1].state == Free)
  {
    seq(NPROC - 1, i requires 0 <= i < NPROC - 1 => procs[i + 1].state == Free)
  }

  /** The slot syscall_fork takes: the lowest FREE pid among 1..NPROC-1. */
  function ForkSlot<P>(procs: seq<Proc<P>>): (r: Option<nat>)
    requires |procs| == NPROC
    ensures r.Some? ==> 1 <= r.value < NPROC && procs[r.value].state == Free
  {
    var first := CyclicFirst(FreeSlotMask(procs), 0, NPROC - 1);
    if first.Some? then Some(first.value + 1) else None
  }

  /** ForkSlot is the lowest FREE pid other than 0, and is None iff every
      slot 1..NPROC-1 is in use. */
  lemma {:induction false} ForkSlotLowest<P>(procs: seq<Proc<P>>)
    requires |procs| == NPROC
    ensures ForkSlot(procs).Some? ==>
      var pid := ForkSlot(procs).value;
      1 <= pid < NPROC && procs[pid].state == Free
      && forall i :: 1 <= i < pid ==> procs[i].state != Free
    ensures ForkSlot(procs).None? <==> forall i :: 1 <= i < NPROC ==> procs[i].state != Free
  {
    var m := FreeSlotMask(procs);
    CyclicFirstSpec(m, 0, NPROC - 1);
    CyclicFirstFullCycle(m, 0);
    if ForkSlot(procs).Some? {
      var j :| 0 <= j < NPROC - 1 && CyclicFirst(m, 0, NPROC - 1).value == Cyc(NPROC - 1, 0, j) && m[j];
      forall i | 1 <= i < j + 1 ensures procs[i].state != Free {
        assert !m[Cyc(NPROC - 1, 0, i - 1)];
      }
    } else {
      forall i | 1 <= i < NPROC ensures procs[i].state != Free {
        assert !m[i - 1];
      }
    }
    if forall i :: 1 <= i < NPROC ==> procs[i].state != Free {
      forall p | 0 <= p < NPROC - 1 ensures !m[p] {
        assert procs[p + 1].state != Free;
      }
    }
  }

  /** What syscall_fork leaves in the child's page table at `va`: below
      PROC_START_ADDR the parent's entry; for a read-only user page the
      parent's entry (shared); for a writable user page an entry with the
      parent's permissions (on a fresh copy); nothing for other addresses. */
  predicate ForkedEntry(ppt: PageTable, cpt: PageTable, va: nat) {
    if va < PROC_START_ADDR || (IsUser(ppt, va) && !IsWritable(ppt, va)) then Entry(cpt, va) == Entry(ppt, va)
    else if !IsUser(ppt, va) then Entry(cpt, va) == UNMAPPED
    else Entry(cpt, va).perm == Entry(ppt, va).perm
  }

  /** Memory `ma` holds at `[dst, dst + PAGESIZE)` what `mb` holds at `[src, src + PAGESIZE)`. */
  predicate CopiedPage(mb: seq<byte>, ma: seq<byte>, src: nat, dst: nat)
    requires |mb| == MEMSIZE_PHYSICAL && |ma| == MEMSIZE_PHYSICAL
    requires src + PAGESIZE <= MEMSIZE_PHYSICAL && dst + PAGESIZE <= MEMSIZE_PHYSICAL
  {
    forall j :: dst <= j < dst + PAGESIZE ==> ma[j] == mb[src + (j - dst)]
  }

  /** How one iteration of syscall_fork's copy loop ends: the child entry is
      in place; a try_map failed (or kalloc did) with nothing allocated; a
      try_map failed after the copy page `ptr` was allocated; or the copy
      read through a null kernel pointer, a kernel page fault. */
  datatype ForkStatus = Mapped | MapFailed | Orphan(ptr: nat) | KernelFault

  /** kalloc's do/while scan exactly as written, for at most `fuel` rounds
      from address `pa`: each round wraps `pa` back into physical memory,
      takes that page if it is free (`free` is FreeMask), and otherwise
      steps to the next page, stopping when the step lands on `start`.
      `None` means the loop is still running when the fuel is spent. */
  function KallocScanAsWritten(free: seq<bool>, start: nat, pa: nat, fuel: nat): (r: Option<Option<nat>>)
    requires |free| == NPAGES && pa <= MEMSIZE_PHYSICAL && PageAligned(pa)
    ensures r.Some? && r.value.Some? ==> r.value.value < MEMSIZE_PHYSICAL && free[r.value.value / PAGESIZE]
    decreases fuel
  {
    if fuel == 0 then None
    else
      var p := if pa < MEMSIZE_PHYSICAL then pa else pa - MEMSIZE_PHYSICAL;
      if free[p / PAGESIZE] then Some(Some(p))
      else if p + PAGESIZE != start then KallocScanAsWritten(free, start, p + PAGESIZE, fuel - 1)
      else Some(None)
  }

  /** The first kalloc call, with kalloc's `start` still 0, never returns
      when no page is free: the loop's exit test compares `pa`, which is
      at least PAGESIZE after every step, with 0. */
  lemma {:induction false} KallocAsWrittenHangs(free: seq<bool>, pa: nat, fuel: nat)
    requires |free| == NPAGES && pa <= MEMSIZE_PHYSICAL && PageAligned(pa)
    requires forall pn :: 0 <= pn < NPAGES ==> !free[pn]
    ensures KallocScanAsWritten(free, 0, pa, fuel) == None
    decreases fuel
  {
    if fuel > 0 {
      var p := if pa < MEMSIZE_PHYSICAL then pa else pa - MEMSIZE_PHYSICAL;
      assert !free[p / PAGESIZE];
      KallocAsWrittenHangs(free, p + PAGESIZE, fuel - 1);
    }
  }

  /** The value of kalloc's `pa` at the top of round k of its loop from
      `start`: `start` itself, then one page past the page the previous
      round looked at. */
  function ScanPa(start: nat, k: nat): (pa: nat)
    requires 0 <= k < NPAGES
  {
    if k == 0 then start else Cyc(NPAGES, StartPage(start), k - 1) * PAGESIZE + PAGESIZE
  }

  /** The page the loop as written looks at in round k is the k-th of the
      cyclic order from StartPage(start). */
  lemma {:induction false} ScanPaPage(start: nat, k: nat)
    requires PageAligned(start) && start <= MEMSIZE_PHYSICAL && 0 <= k < NPAGES
    ensures var pa := ScanPa(start, k);
      pa <= MEMSIZE_PHYSICAL && PageAligned(pa) &&
      (if pa < MEMSIZE_PHYSICAL then pa else pa - MEMSIZE_PHYSICAL) == Cyc(NPAGES, StartPage(start), k) * PAGESIZE
  {
  }

  /** The loop's exit test after round k, `pa + PAGESIZE == start`, holds
      only after the last of NPAGES rounds, and never when start is 0. */
  lemma {:induction false} ScanExit(start: nat, k: nat)
    requires PageAligned(start) && start <= MEMSIZE_PHYSICAL && 0 <= k < NPAGES
    ensures Cyc(NPAGES, StartPage(start), k) * PAGESIZE + PAGESIZE == start <==> start != 0 && k == NPAGES - 1
  {
  }

  /** One round of kalloc's loop as written, at an address that wraps to
      page c. */
  lemma {:induction false} ScanRound(free: seq<bool>, start: nat, pa: nat, fuel: nat, c: nat)
    requires |free| == NPAGES && pa <= MEMSIZE_PHYSICAL && PageAligned(pa) && fuel > 0 && c < NPAGES
    requires (if pa < MEMSIZE_PHYSICAL then pa else pa - MEMSIZE_PHYSICAL) == c * PAGESIZE
    ensures KallocScanAsWritten(free, start, pa, fuel) ==
      if free[c] then Some(Some(c * PAGESIZE))
      else if c * PAGESIZE + PAGESIZE != start then KallocScanAsWritten(free, start, c * PAGESIZE + PAGESIZE, fuel - 1)
      else Some(None)
  {
    assert c * PAGESIZE / PAGESIZE == c;
  }

  /** From round k on, with no free page in the rounds before it, the loop
      as written ends within the remaining rounds with the corrected
      scan's answer. */
  lemma {:induction false} KallocScanRest(free: seq<bool>, start: nat, k: nat)
    requires |free| == NPAGES && PageAligned(start) && start <= MEMSIZE_PHYSICAL && 0 <= k < NPAGES
    requires CyclicFirst(free, StartPage(start), k).None?
    requires start != 0 || CyclicFirst(free, StartPage(start), NPAGES).Some?
    ensures ScanPa(start, k) <= MEMSIZE_PHYSICAL && PageAligned(ScanPa(start, k))
    ensures var found := CyclicFirst(free, StartPage(start), NPAGES);
      KallocScanAsWritten(free, start, ScanPa(start, k), NPAGES - k) ==
      Some(if found.Some? then Some(found.value * PAGESIZE) else None)
    decreases NPAGES - k
  {
    var s0 := StartPage(start);
    ScanPaPage(start, k);
    ScanExit(start, k);
    var c := Cyc(NPAGES, s0, k);
    ScanRound(free, start, ScanPa(start, k), NPAGES - k, c);
    assert CyclicFirst(free, s0, k + 1) == if free[c] then Some(c) else None;
    if free[c] {
      CyclicFirstStable(free, s0, k + 1, NPAGES);
    } else if c * PAGESIZE + PAGESIZE == start {
    } else {
      assert ScanPa(start, k + 1) == c * PAGESIZE + PAGESIZE;
      KallocScanRest(free, start, k + 1);
    }
  }

  /** Wherever kalloc's loop as written ends (`start != 0`, or some page is
      free), it ends within NPAGES rounds with what the corrected scan of
      KAlloc returns: the first free page in cyclic order from `start`, or
      null. The hang of KallocAsWrittenHangs is the only difference. */
  lemma {:induction false} KallocScanAsWrittenAgrees(free: seq<bool>, start: nat)
    requires |free| == NPAGES && PageAligned(start) && start <= MEMSIZE_PHYSICAL
    requires start != 0 || exists pn :: 0 <= pn < NPAGES && free[pn]
    ensures var found := CyclicFirst(free, StartPage(start), NPAGES);
      KallocScanAsWritten(free, start, start, NPAGES) == Some(if found.Some? then Some(found.value * PAGESIZE) else None)
  {
    CyclicFirstFullCycle(free, StartPage(start));
    KallocScanRest(free, start, 0);
  }

  /** The refcounts after a try_map on `va` that took `pt` to `pt'`: the
      leaf table page, when one was allocated, has gone 0 -> 1. */
  function TableGrant(r: seq<nat>, pt: PageTable, pt': PageTable, va: nat): seq<nat>
    requires |r| == NPAGES && WellFormed(pt) && WellFormed(pt') && va < MEMSIZE_VIRTUAL
  {
    if pt'.tables == pt.tables then r else r[pt'.tables[Region(va)] / PAGESIZE := 1]
  }

  /** The flags process_setup gives a segment's pages: PTE_P | PTE_U, and
      PTE_W for a writable segment. */
  function SegPerm(seg: Segment): Perm {
    Perm(true, seg.writable, true)
  }

  /** The entries process_setup's first two loops leave at every
      page-aligned `va`: the flags of the last segment mapping it, else the
      kernel's own entry below PROC_START_ADDR, else nothing. */
  ghost predicate SegmentsMapped(kpt: PageTable, segs: seq<Segment>, pt: PageTable) {
    forall va: nat :: PageAligned(va) && va < MEMSIZE_VIRTUAL ==> SegMappedAt(kpt, segs, pt, va)
  }

  /** SegmentsMapped at one address. */
  ghost predicate SegMappedAt(kpt: PageTable, segs: seq<Segment>, pt: PageTable, va: nat) {
    match LastCover(segs, va)
    case Some(i) => Entry(pt, va).perm == SegPerm(segs[i])
    case None => Entry(pt, va) == (if va < PROC_START_ADDR then Entry(kpt, va) else UNMAPPED)
  }

  /** Every segment page is referenced in the refcount table `r`, or is the
      null page kalloc returned on failure (process_setup does not check). */
  ghost predicate SegmentPagesHeld(segs: seq<Segment>, pt: PageTable, r: seq<nat>)
    requires WellFormed(pt) && |r| == NPAGES
  {
    forall va: nat :: PageAligned(va) && va < MEMSIZE_VIRTUAL ==> SegHeldAt(segs, pt, r, va)
  }

  /** SegmentPagesHeld at one address. */
  ghost predicate SegHeldAt(segs: seq<Segment>, pt: PageTable, r: seq<nat>, va: nat)
    requires WellFormed(pt) && |r| == NPAGES
  {
    LastCover(segs, va).Some? ==> Entry(pt, va).pa == 0 || r[Entry(pt, va).pa / PAGESIZE] >= 1
  }

  /** `vmiter::find(va).kptr()`: the kernel pointer to `va`'s byte. */
  function Kptr(pt: PageTable, va: nat): nat {
    Entry(pt, RoundDown(va)).pa + va % PAGESIZE
  }

  /** Every segment's memset/memcpy through its first page's kernel pointer
      stays in kernel-accessible memory. */
  predicate SegmentsLoadable(pt: PageTable, segs: seq<Segment>) {
    forall i :: 0 <= i < |segs| ==> |segs[i].data| <= segs[i].size && KernelAccessible(Kptr(pt, segs[i].va), segs[i].size)
  }

  /** process_setup's copy loop: each segment in turn written, as
      `SegImage`, at the kernel pointer of its first byte and on through
      physically consecutive memory. */
  function LoadImage(m: seq<byte>, pt: PageTable, segs: seq<Segment>): (r: seq<byte>)
    requires |m| == MEMSIZE_PHYSICAL && SegmentsLoadable(pt, segs)
    ensures |r| == MEMSIZE_PHYSICAL
  {
    if |segs| == 0 then m
    else
      var seg := segs[|segs| - 1];
      var pre := segs[..|segs| - 1];
      assert SegmentsLoadable(pt, pre) by {
        forall i | 0 <= i < |pre| ensures pre[i] == segs[i] { }
      }
      var before := LoadImage(m, pt, pre);
      if seg.size == 0 then before else Splice(before, Kptr(pt, seg.va), SegImage(seg))
  }

  /** The last segment's image is in place after the copy loop. A segment
      within one page is then what a user read of `va + j` finds. */
  lemma {:induction false} LastSegmentLoaded(m: seq<byte>, pt: PageTable, segs: seq<Segment>, j: nat)
    requires |m| == MEMSIZE_PHYSICAL && SegmentsLoadable(pt, segs) && |segs| > 0
    requires j < segs[|segs| - 1].size
    ensures Kptr(pt, segs[|segs| - 1].va) + j < MEMSIZE_PHYSICAL
    ensures LoadImage(m, pt, segs)[Kptr(pt, segs[|segs| - 1].va) + j] == SegImage(segs[|segs| - 1])[j]
  {
    assert |segs[|segs| - 1].data| <= segs[|segs| - 1].size;
  }

  lemma {:induction false} KernelPartDone(kpt: PageTable, pt: PageTable)
    requires KernelPartMapped(kpt, pt, PROC_START_ADDR)
    ensures SegmentsMapped(kpt, [], pt)
  {
    forall va: nat | PageAligned(va) && va < MEMSIZE_VIRTUAL ensures SegMappedAt(kpt, [], pt, va) {
      if va < PROC_START_ADDR {
        assert KernelPartAt(kpt, pt, va);
      } else {
        assert va !in pt.entries;
      }
    }
  }

  /** One segment's page loop has mapped its pages below `a` (relative to
      the table `pt0` it started from), each referenced in `r`. */
  ghost predicate SegPartMapped(pt0: PageTable, pt: PageTable, seg: Segment, a: nat, r: seq<nat>)
    requires WellFormed(pt) && |r| == NPAGES
  {
    forall va: nat :: PageAligned(va) && va < MEMSIZE_VIRTUAL ==> SegPartAt(pt0, pt, seg, a, r, va)
  }

  /** SegPartMapped at one address. */
  ghost predicate SegPartAt(pt0: PageTable, pt: PageTable, seg: Segment, a: nat, r: seq<nat>, va: nat)
    requires WellFormed(pt) && |r| == NPAGES
  {
    if Covers(seg, va) && va < a then
      Entry(pt, va).perm == SegPerm(seg) && (Entry(pt, va).pa == 0 || r[Entry(pt, va).pa / PAGESIZE] >= 1)
    else Entry(pt, va) == Entry(pt0, va)
  }

  lemma {:induction false} SegPartStart(pt0: PageTable, seg: Segment, r: seq<nat>)
    requires WellFormed(pt0) && |r| == NPAGES
    ensures SegPartMapped(pt0, pt0, seg, RoundDown(seg.va), r)
  {
    forall va: nat | PageAligned(va) && va < MEMSIZE_VIRTUAL ensures SegPartAt(pt0, pt0, seg, RoundDown(seg.va), r, va) {
    }
  }

  lemma {:induction false} SegPartStep(pt0: PageTable, pt: PageTable, pt': PageTable, seg: Segment, a: nat,
                    r: seq<nat>, r': seq<nat>, ptr: nat)
    requires WellFormed(pt) && WellFormed(pt') && |r| == NPAGES && |r'| == NPAGES
    requires SegPartMapped(pt0, pt, seg, a, r) && Grows(r, r')
    requires PageAligned(a) && RoundDown(seg.va) <= a < seg.va + seg.size
    requires pt'.entries == pt.entries[a := Pte(ptr, SegPerm(seg))] && (ptr == 0 || r'[ptr / PAGESIZE] >= 1)
    ensures SegPartMapped(pt0, pt', seg, a + PAGESIZE, r')
  {
    forall va: nat | PageAligned(va) && va < MEMSIZE_VIRTUAL ensures SegPartAt(pt0, pt', seg, a + PAGESIZE, r', va) {
      SegPartPoint(pt0, pt, pt', seg, a, r, r', ptr, va);
    }
  }

  lemma {:induction false} SegPartPoint(pt0: PageTable, pt: PageTable, pt': PageTable, seg: Segment, a: nat,
                     r: seq<nat>, r': seq<nat>, ptr: nat, va: nat)
    requires WellFormed(pt) && WellFormed(pt') && |r| == NPAGES && |r'| == NPAGES
    requires SegPartAt(pt0, pt, seg, a, r, va) && Grows(r, r')
    requires PageAligned(a) && PageAligned(va) && RoundDown(seg.va) <= a < seg.va + seg.size
    requires pt'.entries == pt.entries[a := Pte(ptr, SegPerm(seg))] && (ptr == 0 || r'[ptr / PAGESIZE] >= 1)
    ensures SegPartAt(pt0, pt', seg, a + PAGESIZE, r', va)
  {
    if va == a {
      assert Entry(pt', va) == Pte(ptr, SegPerm(seg));
    } else {
      assert Entry(pt', va) == Entry(pt, va);
      if a < va {
        AlignedGap(a, va);
      }
    }
  }

  lemma {:induction false} SegmentPagesHeldGrows(segs: seq<Segment>, pt: PageTable, r: seq<nat>, r': seq<nat>)
    requires WellFormed(pt) && |r| == NPAGES && |r'| == NPAGES && Grows(r, r')
    requires SegmentPagesHeld(segs, pt, r)
    ensures SegmentPagesHeld(segs, pt, r')
  {
    forall va: nat | PageAligned(va) && va < MEMSIZE_VIRTUAL ensures SegHeldAt(segs, pt, r', va) {
      assert SegHeldAt(segs, pt, r, va);
    }
  }

  lemma {:induction false} SegPartDone(kpt: PageTable, done: seq<Segment>, pt0: PageTable, pt: PageTable, seg: Segment, a: nat, r: seq<nat>)
    requires WellFormed(pt0) && WellFormed(pt) && |r| == NPAGES
    requires SegmentsMapped(kpt, done, pt0) && SegmentPagesHeld(done, pt0, r)
    requires SegPartMapped(pt0, pt, seg, a, r) && a >= seg.va + seg.size
    ensures SegmentsMapped(kpt, done + [seg], pt) && SegmentPagesHeld(done + [seg], pt, r)
  {
    forall va: nat | PageAligned(va) && va < MEMSIZE_VIRTUAL
      ensures SegMappedAt(kpt, done + [seg], pt, va) && SegHeldAt(done + [seg], pt, r, va)
    {
      LastCoverSnoc(done, seg, va);
      assert SegPartAt(pt0, pt, seg, a, r, va);
      assert SegMappedAt(kpt, done, pt0, va) && SegHeldAt(done, pt0, r, va);
    }
  }


  class Kernel {
    /** `allocatable_physical_address(pa)` per page: the reserved regions
        (page 0, the kernel image, the kernel stack, device memory) come
        from the unseen memory layout, so they are a parameter. */
    const allocatable: seq<bool>
    var pages: array<nat>                 // pages[pn].refcount
    var mem: array<byte>                  // physical memory, byte-addressed
    var ptable: array<Proc<PageTable>>
    var current: nat                      // current->pid
    var ticks: nat
    var kallocStart: nat                  // kalloc's static `start`
    var kernelPagetable: PageTable

    ghost predicate Valid()
      reads this, ptable
    {
      && |allocatable| == NPAGES && !allocatable[0]
      && pages.Length == NPAGES && mem.Length == MEMSIZE_PHYSICAL && ptable.Length == NPROC
      && current < NPROC
      && kallocStart <= MEMSIZE_PHYSICAL && PageAligned(kallocStart)
      && EntriesWellFormed(kernelPagetable)
      && forall i :: 0 <= i < NPROC ==> ptable[i].pid == i && WellFormed(ptable[i].pagetable)
    }

    /** The state a trap finds: the trapping process is the one `run` last
        resumed, which `run` asserted to be RUNNABLE. */
    ghost predicate Trappable()
      reads this, ptable
    {
      Valid() && ptable[current].state == Runnable
    }

    /** `pn` was granted by kalloc between the two snapshots: it was free,
        its refcount went 0 -> 1, and its bytes were zeroed. */
    ghost predicate Granted(rb: seq<nat>, ra: seq<nat>, mb: seq<byte>, ma: seq<byte>, pa: nat)
      requires |rb| == NPAGES && |mb| == MEMSIZE_PHYSICAL && |ma| == MEMSIZE_PHYSICAL
      requires |allocatable| == NPAGES
    {
      && pa != 0 && PhysPage(pa) && allocatable[pa / PAGESIZE] && rb[pa / PAGESIZE] == 0
      && ra == rb[pa / PAGESIZE := 1]
      && ZeroedPage(mb, ma, pa)
    }

    /** Page `pn` is in use in the refcount snapshot `rb`: referenced, or
        never allocatable. kalloc never hands such a page out. */
    ghost predicate InUse(rb: seq<nat>, pn: nat)
      requires |rb| == NPAGES && |allocatable| == NPAGES && pn < NPAGES
    {
      rb[pn] >= 1 || !allocatable[pn]
    }

    /** Between `mb` and `ma` only bytes of pages not InUse in `rb` changed. */
    ghost predicate Preserves(rb: seq<nat>, mb: seq<byte>, ma: seq<byte>)
      requires |rb| == NPAGES && |allocatable| == NPAGES
      requires |mb| == MEMSIZE_PHYSICAL && |ma| == MEMSIZE_PHYSICAL
    {
      forall i :: 0 <= i < MEMSIZE_PHYSICAL && InUse(rb, i / PAGESIZE) ==> ma[i] == mb[i]
    }

    lemma {:induction false} GrantedPreserves(rb: seq<nat>, ra: seq<nat>, mb: seq<byte>, ma: seq<byte>, pa: nat)
      requires |rb| == NPAGES && |allocatable| == NPAGES
      requires |mb| == MEMSIZE_PHYSICAL && |ma| == MEMSIZE_PHYSICAL
      requires Granted(rb, ra, mb, ma, pa)
      ensures Preserves(rb, mb, ma)
    {
      assert forall i :: pa <= i < pa + PAGESIZE ==> i / PAGESIZE == pa / PAGESIZE;
    }

    lemma {:induction false} PreservesTrans(r0: seq<nat>, r1: seq<nat>, m0: seq<byte>, m1: seq<byte>, m2: seq<byte>)
      requires |r0| == NPAGES && |r1| == NPAGES && |allocatable| == NPAGES
      requires |m0| == MEMSIZE_PHYSICAL && |m1| == MEMSIZE_PHYSICAL && |m2| == MEMSIZE_PHYSICAL
      requires forall pn :: 0 <= pn < NPAGES ==> r1[pn] >= r0[pn]
      requires Preserves(r0, m0, m1) && Preserves(r1, m1, m2)
      ensures Preserves(r0, m0, m2)
    {
      forall i | 0 <= i < MEMSIZE_PHYSICAL && InUse(r0, i / PAGESIZE) ensures m2[i] == m0[i] {
        assert InUse(r1, i / PAGESIZE);
      }
    }

    /** Zeroing a page that was free keeps in-use memory and leaves the page zero. */
    lemma {:induction false} ZeroedFreePage(r0: seq<nat>, mb: seq<byte>, ma: seq<byte>, ptr: nat)
      requires |r0| == NPAGES && |allocatable| == NPAGES && |mb| == MEMSIZE_PHYSICAL && |ma| == MEMSIZE_PHYSICAL
      requires PhysPage(ptr) && r0[ptr / PAGESIZE] == 0 && allocatable[ptr / PAGESIZE]
      requires ZeroedPage(mb, ma, ptr)
      ensures Preserves(r0, mb, ma)
      ensures forall i :: ptr <= i < ptr + PAGESIZE ==> ma[i] == 0
    {
      forall i | 0 <= i < MEMSIZE_PHYSICAL && ptr <= i < ptr + PAGESIZE ensures i / PAGESIZE == ptr / PAGESIZE {
      }
    }

    /** Two steps that each only grow references and keep in-use memory make one such step. */
    lemma {:induction false} StepsCompose(r0: seq<nat>, r1: seq<nat>, r2: seq<nat>, m0: seq<byte>, m1: seq<byte>, m2: seq<byte>)
      requires |r0| == NPAGES && |r1| == NPAGES && |r2| == NPAGES && |allocatable| == NPAGES
      requires |m0| == MEMSIZE_PHYSICAL && |m1| == MEMSIZE_PHYSICAL && |m2| == MEMSIZE_PHYSICAL
      requires Grows(r0, r1) && Grows(r1, r2) && Preserves(r0, m0, m1) && Preserves(r1, m1, m2)
      ensures Grows(r0, r2) && Preserves(r0, m0, m2)
    {
      PreservesTrans(r0, r1, m0, m1, m2);
    }

    /** A copied page stays copied while its source and destination are in use. */
    lemma {:induction false} CopiedPageKept(r1: seq<nat>, m0: seq<byte>, m1: seq<byte>, m2: seq<byte>, src: nat, dst: nat)
      requires |r1| == NPAGES && |allocatable| == NPAGES
      requires |m0| == MEMSIZE_PHYSICAL && |m1| == MEMSIZE_PHYSICAL && |m2| == MEMSIZE_PHYSICAL
      requires PhysPage(src) && PhysPage(dst)
      requires CopiedPage(m0, m1, src, dst) && Preserves(r1, m1, m2) && InUse(r1, dst / PAGESIZE)
      ensures CopiedPage(m0, m2, src, dst)
    {
      forall j | dst <= j < dst + PAGESIZE ensures m2[j] == m0[src + (j - dst)] {
        assert j / PAGESIZE == dst / PAGESIZE;
      }
    }

    /** Every writable user page of the parent below `hi` has, in the
        child, a page that was free in `rb` and (if the parent's page was
        in use in `rb`) holds in `ma` the parent page's bytes from `mb`. */
    ghost predicate FreshCopies(rb: seq<nat>, mb: seq<byte>, ma: seq<byte>, ppt: PageTable, cpt: PageTable, hi: nat)
      requires |rb| == NPAGES && |allocatable| == NPAGES
      requires |mb| == MEMSIZE_PHYSICAL && |ma| == MEMSIZE_PHYSICAL
      requires WellFormed(ppt) && WellFormed(cpt)
    {
      forall va :: PROC_START_ADDR <= va < hi && PageAligned(va) && IsUser(ppt, va) && IsWritable(ppt, va) ==>
        CopyOf(rb, mb, ma, ppt, cpt, va)
    }

    /** The child's page at `va` is a fresh copy of the parent's. */
    ghost predicate CopyOf(rb: seq<nat>, mb: seq<byte>, ma: seq<byte>, ppt: PageTable, cpt: PageTable, va: nat)
      requires |rb| == NPAGES && |allocatable| == NPAGES
      requires |mb| == MEMSIZE_PHYSICAL && |ma| == MEMSIZE_PHYSICAL
      requires WellFormed(ppt) && WellFormed(cpt)
    {
      var cpa := Entry(cpt, va).pa;
      var ppa := Entry(ppt, va).pa;
      && PhysPage(cpa) && PhysPage(ppa) && Entry(cpt, va).perm == Entry(ppt, va).perm
      && cpa != 0 && rb[cpa / PAGESIZE] == 0 && allocatable[cpa / PAGESIZE]
      && (InUse(rb, ppa / PAGESIZE) ==> CopiedPage(mb, ma, ppa, cpa))
    }

    /** The invariant of syscall_fork's copy loop after the addresses below
        `va`: the child's entries there are the forked ones and none lie
        above; each page's refcount is its value before fork plus the
        references the child holds; only free pages were written; the
        writable pages are fresh copies. */
    ghost predicate ForkInv(p0: seq<nat>, m0: seq<byte>, ppt: PageTable, cpt: PageTable, va: nat, r: seq<nat>, m: seq<byte>)
      requires |p0| == NPAGES && |r| == NPAGES && |allocatable| == NPAGES
      requires |m0| == MEMSIZE_PHYSICAL && |m| == MEMSIZE_PHYSICAL
    {
      && WellFormed(ppt) && WellFormed(cpt) && va <= MEMSIZE_VIRTUAL && PageAligned(va)
      && (forall v :: v in cpt.entries ==> v < va)
      && (forall v: nat :: PageAligned(v) && v < va ==> ForkedEntry(ppt, cpt, v))
      && (forall pn :: 1 <= pn < NPAGES ==> r[pn] == p0[pn] + Held(cpt, pn))
      && (forall pn :: 0 <= pn < NPAGES ==> r[pn] >= p0[pn])
      && Preserves(p0, m0, m)
      && FreshCopies(p0, m0, m, ppt, cpt, va)
    }

    /** The refcounts of one kernel-region or read-only fork step: try_map
        took `r0` to `r1` (and maybe granted a leaf table); a read-only user
        page then gained one reference, giving `r2`. */
    lemma {:induction false} ShareRefs(r0: seq<nat>, r1: seq<nat>, r2: seq<nat>, m0: seq<byte>, m1: seq<byte>,
                    cpt: PageTable, cpt': PageTable, va: nat)
      requires |r0| == NPAGES && |r1| == NPAGES && |r2| == NPAGES && |allocatable| == NPAGES
      requires |m0| == MEMSIZE_PHYSICAL && |m1| == MEMSIZE_PHYSICAL
      requires WellFormed(cpt) && WellFormed(cpt') && cpt'.root == cpt.root
      requires PageAligned(va) && va < MEMSIZE_VIRTUAL && va !in cpt.entries
      requires forall v :: v != va ==> Entry(cpt', v) == Entry(cpt, v)
      requires cpt'.tables == cpt.tables ==> r1 == r0
      requires cpt'.tables != cpt.tables ==>
        cpt.tables[Region(va)] == 0 && cpt'.tables == cpt.tables[Region(va) := cpt'.tables[Region(va)]]
        && Granted(r0, r1, m0, m1, cpt'.tables[Region(va)])
      requires va >= PROC_START_ADDR ==>
        IsUser(cpt', va) && r2 == r1[Entry(cpt', va).pa / PAGESIZE := r1[Entry(cpt', va).pa / PAGESIZE] + 1]
      requires va < PROC_START_ADDR ==> r2 == r1
      ensures Grows(r0, r2) && TracksHeld(r0, r2, cpt, cpt')
    {
      var t := cpt'.tables[Region(va)];
      forall pn | 1 <= pn < NPAGES ensures r2[pn] + Held(cpt, pn) == r0[pn] + Held(cpt', pn) {
        HeldUpdate(cpt, cpt', va, pn);
        HitsPage(t, pn);
        HitsPage(cpt.tables[Region(va)], pn);
        HitsPage(Entry(cpt', va).pa, pn);
      }
    }

    /** The refcounts of one writable fork step: kalloc granted the copy
        page `Entry(cpt', va).pa` (`r0` to `r1`), then try_map took `r1` to
        `r2`. */
    lemma {:induction false} CopyRefs(r0: seq<nat>, r1: seq<nat>, r2: seq<nat>, m1: seq<byte>, m2: seq<byte>,
                   cpt: PageTable, cpt': PageTable, va: nat)
      requires |r0| == NPAGES && |r1| == NPAGES && |r2| == NPAGES && |allocatable| == NPAGES
      requires |m1| == MEMSIZE_PHYSICAL && |m2| == MEMSIZE_PHYSICAL
      requires WellFormed(cpt) && WellFormed(cpt') && cpt'.root == cpt.root
      requires PageAligned(va) && PROC_START_ADDR <= va < MEMSIZE_VIRTUAL && va !in cpt.entries
      requires forall v :: v != va ==> Entry(cpt', v) == Entry(cpt, v)
      requires IsUser(cpt', va) && Entry(cpt', va).pa != 0
      requires r0[Entry(cpt', va).pa / PAGESIZE] == 0 && r1 == r0[Entry(cpt', va).pa / PAGESIZE := 1]
      requires cpt'.tables == cpt.tables ==> r2 == r1
      requires cpt'.tables != cpt.tables ==>
        cpt.tables[Region(va)] == 0 && cpt'.tables == cpt.tables[Region(va) := cpt'.tables[Region(va)]]
        && Granted(r1, r2, m1, m2, cpt'.tables[Region(va)])
      ensures Grows(r0, r2) && TracksHeld(r0, r2, cpt, cpt')
    {
      var t := cpt'.tables[Region(va)];
      forall pn | 1 <= pn < NPAGES ensures r2[pn] + Held(cpt, pn) == r0[pn] + Held(cpt', pn) {
        HeldUpdate(cpt, cpt', va, pn);
        HitsPage(t, pn);
        HitsPage(cpt.tables[Region(va)], pn);
        HitsPage(Entry(cpt', va).pa, pn);
      }
    }

    /** A source page that was in use keeps its bytes, so a copy of its
        later contents is a copy of its original ones. */
    lemma {:induction false} CopiedPageRebase(p0: seq<nat>, m0: seq<byte>, m1: seq<byte>, m2: seq<byte>, src: nat, dst: nat)
      requires |p0| == NPAGES && |allocatable| == NPAGES
      requires |m0| == MEMSIZE_PHYSICAL && |m1| == MEMSIZE_PHYSICAL && |m2| == MEMSIZE_PHYSICAL
      requires PhysPage(src) && PhysPage(dst)
      requires Preserves(p0, m0, m1) && InUse(p0, src / PAGESIZE) && CopiedPage(m1, m2, src, dst)
      ensures CopiedPage(m0, m2, src, dst)
    {
      forall j | dst <= j < dst + PAGESIZE ensures m2[j] == m0[src + (j - dst)] {
        SamePage(src + (j - dst), src);
      }
    }

    /** Refcounts after an iteration that left an orphan copy page `ptr`. */
    lemma {:induction false} OrphanRefs(p0: seq<nat>, r: seq<nat>, r': seq<nat>, cpt: PageTable, ptr: nat)
      requires |p0| == NPAGES && |r| == NPAGES && |r'| == NPAGES
      requires WellFormed(cpt) && PhysPage(ptr) && ptr != 0 && r[ptr / PAGESIZE] == 0
      requires r' == r[ptr / PAGESIZE := 1]
      requires Grows(p0, r) && forall pn :: 1 <= pn < NPAGES ==> r[pn] == p0[pn] + Held(cpt, pn)
      ensures Grows(p0, r')
      ensures forall pn :: 1 <= pn < NPAGES ==> r'[pn] == p0[pn] + Held(cpt, pn) + Hits(ptr, pn)
    {
      forall pn | 1 <= pn < NPAGES ensures r'[pn] == p0[pn] + Held(cpt, pn) + Hits(ptr, pn) {
        HitsPage(ptr, pn);
      }
    }

    /** The copy loop stopping early: what a failed step leaves, measured from the start of the fork. */
    lemma {:induction false} ForkStopped(p0: seq<nat>, m0: seq<byte>, ppt: PageTable, cpt: PageTable, va: nat,
                      r: seq<nat>, m: seq<byte>, r': seq<nat>, m': seq<byte>, status: ForkStatus)
      requires |p0| == NPAGES && |r| == NPAGES && |r'| == NPAGES && |allocatable| == NPAGES
      requires |m0| == MEMSIZE_PHYSICAL && |m| == MEMSIZE_PHYSICAL && |m'| == MEMSIZE_PHYSICAL
      requires ForkInv(p0, m0, ppt, cpt, va, r, m) && Grows(r, r') && Preserves(r, m, m')
      requires status.MapFailed? ==> r' == r
      requires status.Orphan? ==>
        PhysPage(status.ptr) && status.ptr != 0 && r[status.ptr / PAGESIZE] == 0 && r' == r[status.ptr / PAGESIZE := 1]
      ensures Preserves(p0, m0, m') && Grows(p0, r')
      ensures status.MapFailed? ==> forall pn :: 1 <= pn < NPAGES ==> r'[pn] == p0[pn] + Held(cpt, pn)
      ensures status.Orphan? ==> forall pn :: 1 <= pn < NPAGES ==> r'[pn] == p0[pn] + Held(cpt, pn) + Hits(status.ptr, pn)
    {
      PreservesTrans(p0, r, m0, m, m');
      if status.Orphan? {
        OrphanRefs(p0, r, r', cpt, status.ptr);
      }
    }

    /** What a completed syscall_fork leaves: every child entry is the
        forked one, each page's refcount grew by the references the child
        table holds, and each writable user page has a fresh copy. */
    ghost predicate ForkedSpace(p0: seq<nat>, m0: seq<byte>, ppt: PageTable, cpt: PageTable, r: seq<nat>, m: seq<byte>)
      requires |p0| == NPAGES && |r| == NPAGES && |allocatable| == NPAGES
      requires |m0| == MEMSIZE_PHYSICAL && |m| == MEMSIZE_PHYSICAL
    {
      && WellFormed(ppt) && WellFormed(cpt)
      && (forall va: nat :: PageAligned(va) && va < MEMSIZE_VIRTUAL ==> ForkedEntry(ppt, cpt, va))
      && (forall pn :: 1 <= pn < NPAGES ==> r[pn] == p0[pn] + Held(cpt, pn))
      && FreshCopies(p0, m0, m, ppt, cpt, MEMSIZE_VIRTUAL)
    }

    /** The copy loop starts from a child table holding only the root page
        that kalloc just granted. */
    lemma {:induction false} ForkInvInit(p0: seq<nat>, m0: seq<byte>, ppt: PageTable, root: nat, r: seq<nat>, m: seq<byte>)
      requires |p0| == NPAGES && |r| == NPAGES && |allocatable| == NPAGES
      requires |m0| == MEMSIZE_PHYSICAL && |m| == MEMSIZE_PHYSICAL
      requires WellFormed(ppt) && Granted(p0, r, m0, m, root) && Preserves(p0, m0, m)
      ensures ForkInv(p0, m0, ppt, PageTable(root, [0, 0], map[]), 0, r, m)
    {
      var cpt := PageTable(root, [0, 0], map[]);
      forall pn | 1 <= pn < NPAGES ensures r[pn] == p0[pn] + Held(cpt, pn) {
        UserCountNone(cpt, pn, PROC_START_ADDR, MEMSIZE_VIRTUAL);
        assert TableCount(cpt, pn, 1) == 0;
        assert TableCount(cpt, pn, NTABLES) == 0;
        HitsPage(root, pn);
      }
    }

    /** A copy loop that reached MEMSIZE_VIRTUAL forked the whole space. */
    lemma {:induction false} ForkInvDone(p0: seq<nat>, m0: seq<byte>, ppt: PageTable, cpt: PageTable, r: seq<nat>, m: seq<byte>)
      requires |p0| == NPAGES && |r| == NPAGES && |allocatable| == NPAGES
      requires |m0| == MEMSIZE_PHYSICAL && |m| == MEMSIZE_PHYSICAL
      requires ForkInv(p0, m0, ppt, cpt, MEMSIZE_VIRTUAL, r, m)
      ensures ForkedSpace(p0, m0, ppt, cpt, r, m)
    {
    }

    /** One successful iteration of the copy loop keeps ForkInv. */
    lemma {:induction false} ForkInvStep(p0: seq<nat>, m0: seq<byte>, ppt: PageTable, cpt: PageTable, cpt': PageTable, va: nat,
                      r: seq<nat>, m: seq<byte>, r': seq<nat>, m': seq<byte>)
      requires |p0| == NPAGES && |r| == NPAGES && |r'| == NPAGES && |allocatable| == NPAGES
      requires |m0| == MEMSIZE_PHYSICAL && |m| == MEMSIZE_PHYSICAL && |m'| == MEMSIZE_PHYSICAL
      requires ForkInv(p0, m0, ppt, cpt, va, r, m) && va < MEMSIZE_VIRTUAL
      requires WellFormed(cpt') && cpt'.root == cpt.root
      requires Grows(r, r')
      requires Preserves(r, m, m')
      requires forall v :: v != va ==> Entry(cpt', v) == Entry(cpt, v)
      requires ForkedEntry(ppt, cpt', va)
      requires TracksHeld(r, r', cpt, cpt')
      requires va >= PROC_START_ADDR && IsUser(ppt, va) && IsWritable(ppt, va) ==>
        var cpa := Entry(cpt', va).pa;
        cpa != 0 && r[cpa / PAGESIZE] == 0 && allocatable[cpa / PAGESIZE]
        && (InUse(r, Entry(ppt, va).pa / PAGESIZE) ==> CopiedPage(m, m', Entry(ppt, va).pa, cpa))
      ensures ForkInv(p0, m0, ppt, cpt', va + PAGESIZE, r', m')
    {
      PreservesTrans(p0, r, m0, m, m');
      ForkEntriesStep(ppt, cpt, cpt', va);
      ForkCopiesStep(p0, m0, ppt, cpt, cpt', va, r, m, m');
      forall pn | 1 <= pn < NPAGES ensures r'[pn] == p0[pn] + Held(cpt', pn) {
      }
    }

    /** The child entries stay the forked ones when one more address is added. */
    lemma {:induction false} ForkEntriesStep(ppt: PageTable, cpt: PageTable, cpt': PageTable, va: nat)
      requires WellFormed(cpt) && WellFormed(cpt') && PageAligned(va)
      requires forall v :: v in cpt.entries ==> v < va
      requires forall v: nat :: PageAligned(v) && v < va ==> ForkedEntry(ppt, cpt, v)
      requires forall v :: v != va ==> Entry(cpt', v) == Entry(cpt, v)
      requires ForkedEntry(ppt, cpt', va)
      ensures forall v :: v in cpt'.entries ==> v < va + PAGESIZE
      ensures forall v: nat :: PageAligned(v) && v < va + PAGESIZE ==> ForkedEntry(ppt, cpt', v)
    {
      forall v | v in cpt'.entries ensures v < va + PAGESIZE {
        if v != va {
          assert Entry(cpt, v) == Entry(cpt', v);
        }
      }
      forall v: nat | PageAligned(v) && v < va + PAGESIZE ensures ForkedEntry(ppt, cpt', v) {
        if v != va {
          assert ForkedEntry(ppt, cpt, v);
        }
      }
    }

    /** The copies made so far stay intact through one more iteration, which
        writes only pages that were free, and the new one is added. */
    lemma {:induction false} ForkCopiesStep(p0: seq<nat>, m0: seq<byte>, ppt: PageTable, cpt: PageTable, cpt': PageTable, va: nat,
                         r: seq<nat>, m: seq<byte>, m': seq<byte>)
      requires |p0| == NPAGES && |r| == NPAGES && |allocatable| == NPAGES
      requires |m0| == MEMSIZE_PHYSICAL && |m| == MEMSIZE_PHYSICAL && |m'| == MEMSIZE_PHYSICAL
      requires WellFormed(ppt) && WellFormed(cpt) && WellFormed(cpt') && PageAligned(va)
      requires FreshCopies(p0, m0, m, ppt, cpt, va)
      requires Grows(p0, r) && forall pn :: 1 <= pn < NPAGES ==> r[pn] == p0[pn] + Held(cpt, pn)
      requires Preserves(p0, m0, m) && Preserves(r, m, m')
      requires forall v :: v != va ==> Entry(cpt', v) == Entry(cpt, v)
      requires ForkedEntry(ppt, cpt', va)
      requires va >= PROC_START_ADDR && IsUser(ppt, va) && IsWritable(ppt, va) ==>
        var cpa := Entry(cpt', va).pa;
        cpa != 0 && r[cpa / PAGESIZE] == 0 && allocatable[cpa / PAGESIZE]
        && (InUse(r, Entry(ppt, va).pa / PAGESIZE) ==> CopiedPage(m, m', Entry(ppt, va).pa, cpa))
      ensures FreshCopies(p0, m0, m', ppt, cpt', va + PAGESIZE)
    {
      forall v | PROC_START_ADDR <= v < va + PAGESIZE && PageAligned(v) && IsUser(ppt, v) && IsWritable(ppt, v)
        ensures CopyOf(p0, m0, m', ppt, cpt', v)
      {
        var ppa := Entry(ppt, v).pa;
        var cpa := Entry(cpt', v).pa;
        if v == va {
          if InUse(p0, ppa / PAGESIZE) {
            CopiedPageRebase(p0, m0, m, m', ppa, cpa);
          }
        } else {
          assert CopyOf(p0, m0, m, ppt, cpt, v);
          assert UserHits(cpt, cpa / PAGESIZE, v) == 1;
          UserCountHit(cpt, cpa / PAGESIZE, PROC_START_ADDR, MEMSIZE_VIRTUAL, v);
          if InUse(p0, ppa / PAGESIZE) {
            CopiedPageKept(r, m0, m, m', ppa, cpa);
          }
        }
      }
    }

    /** Boot state: zero refcounts and memory, every slot FREE with pid = index. */
    constructor (allocatable: seq<bool>)
      requires |allocatable| == NPAGES && !allocatable[0]
      ensures Valid() && fresh(pages) && fresh(mem) && fresh(ptable)
      ensures this.allocatable == allocatable
      ensures forall pn :: 0 <= pn < NPAGES ==> pages[pn] == 0
      ensures forall i :: 0 <= i < NPROC ==> ptable[i] == Proc(i, Free, INIT_REGS, NULL_PAGETABLE)
      ensures current == 0 && kallocStart == 0 && ticks == 0
    {
      this.allocatable := allocatable;
      pages := new nat[NPAGES](_ => 0);
      mem := new byte[MEMSIZE_PHYSICAL](_ => 0);
      ptable := new Proc<PageTable>[NPROC](i => Proc(i, Free, INIT_REGS, NULL_PAGETABLE));
      current := 0;
      ticks := 0;
      kallocStart := 0;
      kernelPagetable := PageTable(0, [0, 0], map[]);
    }

    /** kalloc(sz): the first free page in cyclic order from `start`, granted
        and zeroed, with `start` moved just past it; null when `sz >
        PAGESIZE` or a full cycle finds no free page. (The loop as written
        never ends when `start == 0` and nothing is free; see
        KallocAsWrittenHangs. This is the corrected scan of NPAGES pages,
        which agrees with the loop as written wherever that loop ends; see
        KallocScanAsWrittenAgrees.) */
    method KAlloc(sz: nat) returns (pa: nat)
      requires Valid()
      modifies this`kallocStart, pages, mem
      ensures Valid()
      ensures var found := CyclicFirst(FreeMask(old(pages[..]), allocatable), StartPage(old(kallocStart)), NPAGES);
        if sz > PAGESIZE || found.None? then
          pa == 0 && pages[..] == old(pages[..]) && mem[..] == old(mem[..]) && kallocStart == old(kallocStart)
        else
          pa == found.value * PAGESIZE && kallocStart == pa + PAGESIZE
          && Granted(old(pages[..]), pages[..], old(mem[..]), mem[..], pa)
      ensures Preserves(old(pages[..]), old(mem[..]), mem[..])
    {
      if sz > PAGESIZE {
        return 0;
      }
      var pn := FindFreePage();
      if pn == -1 {
        return 0;
      }
      pa := pn * PAGESIZE;
      GrantPage(pa);
      GrantedPreserves(old(pages[..]), pages[..], old(mem[..]), mem[..], pa);
    }

    /** kalloc's scan: the first page, cyclically from the page after the
        last one handed out, that is allocatable and unreferenced. */
    method FindFreePage() returns (pn: int)
      requires Valid()
      ensures var found := CyclicFirst(FreeMask(pages[..], allocatable), StartPage(kallocStart), NPAGES);
        (pn == -1 <==> found.None?) && (pn != -1 ==> pn == found.value)
    {
      ghost var free := FreeMask(pages[..], allocatable);
      var first := StartPage(kallocStart);
      var k := 0;
      while k < NPAGES
        invariant 0 <= k <= NPAGES
        invariant CyclicFirst(free, first, k).None?
      {
        var p := Cyc(NPAGES, first, k);
        if allocatable[p] && pages[p] == 0 {
          assert CyclicFirst(free, first, k + 1) == Some(p);
          CyclicFirstStable(free, first, k + 1, NPAGES);
          return p;
        }
        k := k + 1;
      }
      return -1;
    }

    /** kalloc's hand-out of the free page at `pa`: refcount 0 -> 1, the
        bytes zeroed, and the next scan starting after it. */
    method GrantPage(pa: nat)
      requires Valid() && PhysPage(pa) && allocatable[pa / PAGESIZE] && pages[pa / PAGESIZE] == 0
      modifies this`kallocStart, pages, mem
      ensures Valid() && kallocStart == pa + PAGESIZE
      ensures Granted(old(pages[..]), pages[..], old(mem[..]), mem[..], pa)
    {
      pages[pa / PAGESIZE] := 1;
      forall i | pa <= i < pa + PAGESIZE {
        mem[i] := 0;
      }
      kallocStart := pa + PAGESIZE;
    }

    /** kfree(pa): one saturating decrement of page `pa`'s refcount, nothing
        for null, misaligned or free pages; the bytes are not cleared. */
    method KFree(pa: nat)
      requires Valid() && pa < MEMSIZE_PHYSICAL
      modifies pages
      ensures Valid()
      ensures pages[..] == KFreed(old(pages[..]), pa)
    {
      if pa == 0 || pa % PAGESIZE != 0 || pages[pa / PAGESIZE] == 0 {
        return;
      }
      pages[pa / PAGESIZE] := pages[pa / PAGESIZE] - 1;
    }

    /** vmiter::try_map: install (or, for a non-present `perm`, clear) the
        entry for `va`. A missing leaf table is allocated with kalloc, and
        the call fails with -1, changing nothing, when that allocation fails. */
    method TryMap(pt: PageTable, va: nat, pa: nat, perm: Perm) returns (r: int, pt': PageTable)
      requires Valid() && WellFormed(pt) && PageAligned(va) && va < MEMSIZE_VIRTUAL
      requires perm.present ==> PhysPage(pa)
      modifies this`kallocStart, pages, mem
      ensures Valid() && WellFormed(pt') && pt'.root == pt.root
      ensures r == 0 || r == -1
      ensures r == 0 ==> pt'.entries == if perm.present then pt.entries[va := Pte(pa, perm)] else pt.entries - {va}
      ensures r == -1 ==> pt' == pt && perm.present && pt.tables[Region(va)] == 0
      ensures r == -1 || pt'.tables == pt.tables ==>
        pages[..] == old(pages[..]) && mem[..] == old(mem[..])
      ensures pt'.tables != pt.tables ==>
        r == 0 && pt.tables[Region(va)] == 0 && pt'.tables == pt.tables[Region(va) := pt'.tables[Region(va)]]
        && Granted(old(pages[..]), pages[..], old(mem[..]), mem[..], pt'.tables[Region(va)])
      ensures Preserves(old(pages[..]), old(mem[..]), mem[..])
    {
      var reg := Region(va);
      if !perm.present {
        return 0, pt.(entries := pt.entries - {va});
      }
      pt' := pt;
      if pt.tables[reg] == 0 {
        var t := KAlloc(PAGESIZE);
        if t == 0 {
          return -1, pt;
        }
        pt' := pt'.(tables := pt.tables[reg := t]);
      }
      pt' := pt'.(entries := pt.entries[va := Pte(pa, perm)]);
      r := 0;
    }

    /** syscall_fork's slot search: the lowest FREE pid in 1..NPROC-1, or -1. */
    method FindFreeSlot() returns (pid: int)
      requires Valid()
      ensures pid == -1 <==> ForkSlot(ptable[..]).None?
      ensures pid != -1 ==> ForkSlot(ptable[..]).Some? && pid == ForkSlot(ptable[..]).value
    {
      ghost var m := FreeSlotMask(ptable[..]);
      var i := 1;
      while i < NPROC
        invariant 1 <= i <= NPROC
        invariant CyclicFirst(m, 0, i - 1).None?
      {
        if ptable[i].state == Free {
          assert CyclicFirst(m, 0, i) == Some(i - 1);
          CyclicFirstStable(m, 0, i, NPROC - 1);
          return i;
        }
        i := i + 1;
      }
      return -1;
    }

    /** syscall_fork(): copy the current process into the lowest FREE slot.
        On success the child has the parent's kernel-region mappings, shares
        its read-only user pages (one more reference each), owns fresh copies
        of its writable user pages, and has the parent's registers with
        `rax = 0`; the parent gets the child's pid. Every failure returns -1
        after syscall_exit has given back what the child held, so no page a
        process could use changes its refcount. */
    method Fork() returns (o: Outcome)
      requires Trappable()
      modifies this`kallocStart, pages, mem, ptable
      ensures Valid() && current == old(current)
      ensures o.Return? || o == Halt
      ensures Preserves(old(pages[..]), old(mem[..]), mem[..])
      ensures ForkSlot(old(ptable[..])).None? ==>
        o == Return(-1) && ptable[..] == old(ptable[..]) && pages[..] == old(pages[..])
      ensures o.Return? && o.value != -1 ==>
        && ForkSlot(old(ptable[..])).Some? && o.value == ForkSlot(old(ptable[..])).value
        && var pid := ForkSlot(old(ptable[..])).value;
           var cpt := ptable[pid].pagetable;
           && ptable[..] == old(ptable[..])[pid := Proc(pid, Runnable, old(ptable[current].regs).(rax := 0), cpt)]
           && ForkedSpace(old(pages[..]), old(mem[..]), old(ptable[current].pagetable), cpt, pages[..], mem[..])
      ensures o == Return(-1) && ForkSlot(old(ptable[..])).Some? ==>
        var pid := ForkSlot(old(ptable[..])).value;
        && ptable[..] == old(ptable[..])[pid := old(ptable[pid]).(pagetable := ptable[pid].pagetable)]
        && forall pn :: 1 <= pn < NPAGES ==> pages[pn] == old(pages[pn])
    {
      var slot := FindFreeSlot();
      if slot == -1 {
        return Return(-1);
      }
      o := ForkInto(slot);
    }

    /** syscall_fork once the free slot `pid` is chosen. */
    method ForkInto(pid: nat) returns (o: Outcome)
      requires Trappable() && 1 <= pid < NPROC && ptable[pid].state == Free
      modifies this`kallocStart, pages, mem, ptable
      ensures Valid()
      ensures o == Return(pid) || o == Return(-1) || o == Halt
      ensures Preserves(old(pages[..]), old(mem[..]), mem[..])
      ensures o == Return(pid) ==>
        var cpt := ptable[pid].pagetable;
        && ptable[..] == old(ptable[..])[pid := Proc(pid, Runnable, old(ptable[current].regs).(rax := 0), cpt)]
        && ForkedSpace(old(pages[..]), old(mem[..]), old(ptable[current].pagetable), cpt, pages[..], mem[..])
      ensures o == Return(-1) ==>
        && ptable[..] == old(ptable[..])[pid := old(ptable[pid]).(pagetable := ptable[pid].pagetable)]
        && forall pn :: 1 <= pn < NPAGES ==> pages[pn] == old(pages[pn])
    {
      ghost var p0, m0, t0 := pages[..], mem[..], ptable[..];
      var parent := ptable[current];
      var root := KAlloc(PAGESIZE);
      assert ptable[..] == t0;
      if root == 0 {
        SetProc(pid, ptable[pid].(pagetable := NULL_PAGETABLE));
        return Return(-1);
      }
      o := ForkChild(pid, parent, root, p0, m0);
    }

    /** syscall_fork once the child's root table `root` is granted: copy the
        parent's address space, then install the child or unwind. */
    method ForkChild(pid: nat, parent: Proc<PageTable>, root: nat, ghost p0: seq<nat>, ghost m0: seq<byte>) returns (o: Outcome)
      requires Valid() && 1 <= pid < NPROC && WellFormed(parent.pagetable)
      requires |p0| == NPAGES && |m0| == MEMSIZE_PHYSICAL
      requires Granted(p0, pages[..], m0, mem[..], root) && Preserves(p0, m0, mem[..])
      modifies this`kallocStart, pages, mem, ptable
      ensures Valid()
      ensures o == Return(pid) || o == Return(-1) || o == Halt
      ensures Preserves(p0, m0, mem[..])
      ensures o == Return(pid) ==>
        var cpt := ptable[pid].pagetable;
        && ptable[..] == old(ptable[..])[pid := Proc(pid, Runnable, parent.regs.(rax := 0), cpt)]
        && ForkedSpace(p0, m0, parent.pagetable, cpt, pages[..], mem[..])
      ensures o == Return(-1) ==>
        && ptable[..] == old(ptable[..])[pid := old(ptable[pid]).(pagetable := ptable[pid].pagetable, state := Free)]
        && forall pn :: 1 <= pn < NPAGES ==> pages[pn] == p0[pn]
    {
      ForkInvInit(p0, m0, parent.pagetable, root, pages[..], mem[..]);
      ghost var t0 := ptable[..];
      var status, cpt := CopyAddressSpace(parent.pagetable, root, p0, m0);
      assert ptable[..] == t0;
      match status {
        case Mapped =>
          ForkInvDone(p0, m0, parent.pagetable, cpt, pages[..], mem[..]);
        case MapFailed =>
          ForkUnwind(pid, cpt, 0, p0);
          return Return(-1);
        case Orphan(ptr) =>
          ForkUnwind(pid, cpt, ptr, p0);
          return Return(-1);
        case KernelFault =>
          return Halt;
      }
      SetProc(pid, Proc(pid, Runnable, parent.regs.(rax := 0), cpt));
      return Return(pid);
    }

    /** Stores `p` in process slot `pid`. */
    method SetProc(pid: nat, p: Proc<PageTable>)
      requires Valid() && pid < NPROC && p.pid == pid && WellFormed(p.pagetable)
      modifies ptable
      ensures Valid()
      ensures ptable[..] == old(ptable[..])[pid := p]
    {
      ptable[pid] := p;
    }

    /** The failure path of syscall_fork once the copy loop has stopped:
        the partial child table is installed in slot `pid` and torn down by
        syscall_exit, and an orphan copy page `ptr` (0 for none) is freed,
        which returns every refcount the fork took. */
    method ForkUnwind(pid: nat, cpt: PageTable, ptr: nat, ghost p0: seq<nat>)
      requires Valid() && pid < NPROC && WellFormed(cpt) && |p0| == NPAGES
      requires PhysPage(ptr)
      requires forall pn :: 1 <= pn < NPAGES ==> pages[pn] == p0[pn] + Held(cpt, pn) + Hits(ptr, pn)
      modifies pages, ptable
      ensures Valid()
      ensures ptable[..] == old(ptable[..])[pid := old(ptable[pid]).(pagetable := cpt, state := Free)]
      ensures forall pn :: 1 <= pn < NPAGES ==> pages[pn] == p0[pn]
    {
      SetProc(pid, ptable[pid].(pagetable := cpt));
      Exit(pid);
      if ptr != 0 {
        KFree(ptr);
      }
    }

    /** The copy loop of syscall_fork: every page-aligned `va` below
        MEMSIZE_VIRTUAL in turn, starting from a child table holding only
        the root page `root`. A `Mapped` result means the whole address
        space was copied; on any other result the loop stopped early, with
        the partial child table `cpt` holding the references counted by
        `Held` (plus the orphan copy page for `Orphan`). */
    method CopyAddressSpace(ppt: PageTable, root: nat, ghost p0: seq<nat>, ghost m0: seq<byte>)
      returns (status: ForkStatus, cpt: PageTable)
      requires Valid() && |p0| == NPAGES && |m0| == MEMSIZE_PHYSICAL
      requires ForkInv(p0, m0, ppt, PageTable(root, [0, 0], map[]), 0, pages[..], mem[..])
      modifies this`kallocStart, pages, mem
      ensures Valid() && cpt.root == root && WellFormed(cpt)
      ensures Preserves(p0, m0, mem[..]) && Grows(p0, pages[..])
      ensures status.Mapped? ==> ForkInv(p0, m0, ppt, cpt, MEMSIZE_VIRTUAL, pages[..], mem[..])
      ensures status.MapFailed? ==> forall pn :: 1 <= pn < NPAGES ==> pages[pn] == p0[pn] + Held(cpt, pn)
      ensures status.Orphan? ==>
        && PhysPage(status.ptr) && status.ptr != 0
        && forall pn :: 1 <= pn < NPAGES ==> pages[pn] == p0[pn] + Held(cpt, pn) + Hits(status.ptr, pn)
    {
      cpt := PageTable(root, [0, 0], map[]);
      var va := 0;
      while va < MEMSIZE_VIRTUAL
        invariant Valid() && cpt.root == root
        invariant ForkInv(p0, m0, ppt, cpt, va, pages[..], mem[..])
      {
        var cpt';
        status, cpt' := ForkRound(ppt, cpt, va, p0, m0);
        if !status.Mapped? {
          return;
        }
        cpt := cpt';
        va := va + PAGESIZE;
      }
      status := Mapped;
    }

    /** One round of the copy loop at `va`, with the loop invariant carried
        over to `va + PAGESIZE` when it maps, and the references counted
        when it stops. */
    method ForkRound(ppt: PageTable, cpt: PageTable, va: nat, ghost p0: seq<nat>, ghost m0: seq<byte>)
      returns (status: ForkStatus, cpt': PageTable)
      requires Valid() && |p0| == NPAGES && |m0| == MEMSIZE_PHYSICAL && va < MEMSIZE_VIRTUAL
      requires ForkInv(p0, m0, ppt, cpt, va, pages[..], mem[..])
      modifies this`kallocStart, pages, mem
      ensures Valid() && cpt'.root == cpt.root
      ensures status.Mapped? ==> ForkInv(p0, m0, ppt, cpt', va + PAGESIZE, pages[..], mem[..])
      ensures !status.Mapped? ==> Preserves(p0, m0, mem[..]) && Grows(p0, pages[..])
      ensures status.MapFailed? ==> forall pn :: 1 <= pn < NPAGES ==> pages[pn] == p0[pn] + Held(cpt, pn)
      ensures status.Orphan? ==>
        && PhysPage(status.ptr) && status.ptr != 0
        && forall pn :: 1 <= pn < NPAGES ==> pages[pn] == p0[pn] + Held(cpt, pn) + Hits(status.ptr, pn)
    {
      ghost var r, m := pages[..], mem[..];
      status, cpt' := ForkStep(ppt, cpt, va);
      if status.Mapped? {
        ForkInvStep(p0, m0, ppt, cpt, cpt', va, r, m, pages[..], mem[..]);
      } else {
        ForkStopped(p0, m0, ppt, cpt, va, r, m, pages[..], mem[..], status);
      }
    }

    /** One iteration of syscall_fork's copy loop, at child address `va`:
        below PROC_START_ADDR map the parent's entry; for a writable user
        page allocate a page, copy the parent's page into it and map it;
        for a read-only user page map the parent's page and take a
        reference to it; skip everything else. */
    method ForkStep(ppt: PageTable, cpt: PageTable, va: nat) returns (status: ForkStatus, cpt': PageTable)
      requires Valid() && WellFormed(ppt) && WellFormed(cpt) && PageAligned(va) && va < MEMSIZE_VIRTUAL
      requires va !in cpt.entries
      modifies this`kallocStart, pages, mem
      ensures Valid() && WellFormed(cpt') && cpt'.root == cpt.root
      ensures Grows(old(pages[..]), pages[..])
      ensures Preserves(old(pages[..]), old(mem[..]), mem[..])
      ensures status.Mapped? ==>
        && (forall v :: v != va ==> Entry(cpt', v) == Entry(cpt, v))
        && ForkedEntry(ppt, cpt', va)
        && TracksHeld(old(pages[..]), pages[..], cpt, cpt')
        && (va >= PROC_START_ADDR && IsUser(ppt, va) && IsWritable(ppt, va) ==>
              var cpa := Entry(cpt', va).pa;
              cpa != 0 && old(pages[cpa / PAGESIZE]) == 0 && allocatable[cpa / PAGESIZE]
              && (InUse(old(pages[..]), Entry(ppt, va).pa / PAGESIZE) ==>
                    CopiedPage(old(mem[..]), mem[..], Entry(ppt, va).pa, cpa)))
      ensures status.MapFailed? ==> cpt' == cpt && pages[..] == old(pages[..])
      ensures status.Orphan? ==>
        && cpt' == cpt && PhysPage(status.ptr) && status.ptr != 0
        && old(pages[status.ptr / PAGESIZE]) == 0
        && pages[..] == old(pages[..])[status.ptr / PAGESIZE := 1]
    {
      var e := Entry(ppt, va);
      if va >= PROC_START_ADDR && !IsUser(ppt, va) {
        return Mapped, cpt;
      }
      if va >= PROC_START_ADDR && IsWritable(ppt, va) {
        status, cpt' := ForkCopy(ppt, cpt, va);
      } else {
        status, cpt' := ForkShare(ppt, cpt, va);
      }
    }

    /** Map the parent's entry at `va` into the child: the kernel-region
        case, and the read-only user case, which also takes a reference. */
    method ForkShare(ppt: PageTable, cpt: PageTable, va: nat) returns (status: ForkStatus, cpt': PageTable)
      requires Valid() && WellFormed(ppt) && WellFormed(cpt) && PageAligned(va) && va < MEMSIZE_VIRTUAL
      requires va !in cpt.entries
      requires va >= PROC_START_ADDR ==> IsUser(ppt, va) && !IsWritable(ppt, va)
      modifies this`kallocStart, pages, mem
      ensures Valid() && WellFormed(cpt') && cpt'.root == cpt.root
      ensures status.Mapped? || status.MapFailed?
      ensures Grows(old(pages[..]), pages[..])
      ensures Preserves(old(pages[..]), old(mem[..]), mem[..])
      ensures status.Mapped? ==>
        && (forall v :: v != va ==> Entry(cpt', v) == Entry(cpt, v))
        && Entry(cpt', va) == Entry(ppt, va)
        && TracksHeld(old(pages[..]), pages[..], cpt, cpt')
      ensures status.MapFailed? ==> cpt' == cpt && pages[..] == old(pages[..])
    {
      var e := Entry(ppt, va);
      ghost var r0, m0 := pages[..], mem[..];
      var r;
      r, cpt' := TryMap(cpt, va, e.pa, e.perm);
      if r != 0 {
        return MapFailed, cpt;
      }
      ghost var r1, m1 := pages[..], mem[..];
      assert Preserves(r0, m0, m1);
      if va >= PROC_START_ADDR {
        pages[e.pa / PAGESIZE] := pages[e.pa / PAGESIZE] + 1;
      }
      assert mem[..] == m1;
      ShareRefs(r0, r1, pages[..], m0, m1, cpt, cpt', va);
      return Mapped, cpt';
    }

    /** The writable user case: allocate a page, copy the parent's page
        into it through the kernel mapping, and map it with the parent's
        permissions. */
    method ForkCopy(ppt: PageTable, cpt: PageTable, va: nat) returns (status: ForkStatus, cpt': PageTable)
      requires Valid() && WellFormed(ppt) && WellFormed(cpt) && PageAligned(va)
      requires PROC_START_ADDR <= va < MEMSIZE_VIRTUAL && IsUser(ppt, va) && IsWritable(ppt, va)
      requires va !in cpt.entries
      modifies this`kallocStart, pages, mem
      ensures Valid() && WellFormed(cpt') && cpt'.root == cpt.root
      ensures Grows(old(pages[..]), pages[..])
      ensures Preserves(old(pages[..]), old(mem[..]), mem[..])
      ensures status.Mapped? ==>
        && (forall v :: v != va ==> Entry(cpt', v) == Entry(cpt, v))
        && Entry(cpt', va).perm == Entry(ppt, va).perm
        && TracksHeld(old(pages[..]), pages[..], cpt, cpt')
        && var cpa := Entry(cpt', va).pa;
           cpa != 0 && old(pages[cpa / PAGESIZE]) == 0 && allocatable[cpa / PAGESIZE]
           && (InUse(old(pages[..]), Entry(ppt, va).pa / PAGESIZE) ==>
                 CopiedPage(old(mem[..]), mem[..], Entry(ppt, va).pa, cpa))
      ensures status.MapFailed? ==> cpt' == cpt && pages[..] == old(pages[..])
      ensures status.Orphan? ==>
        && cpt' == cpt && PhysPage(status.ptr) && status.ptr != 0
        && old(pages[status.ptr / PAGESIZE]) == 0
        && pages[..] == old(pages[..])[status.ptr / PAGESIZE := 1]
    {
      var e := Entry(ppt, va);
      ghost var r0, m0 := pages[..], mem[..];
      var ptr, fault := AllocCopy(e.pa);
      cpt' := cpt;
      if ptr == 0 {
        return MapFailed, cpt;
      }
      if fault {
        return KernelFault, cpt;
      }
      ghost var r1, m1 := pages[..], mem[..];
      var r;
      r, cpt' := TryMap(cpt, va, ptr, e.perm);
      if r != 0 {
        return Orphan(ptr), cpt;
      }
      ghost var m2 := mem[..];
      assert Preserves(r1, m1, m2);
      PreservesTrans(r0, r1, m0, m1, m2);
      if InUse(r0, e.pa / PAGESIZE) {
        CopiedPageKept(r1, m0, m1, m2, e.pa, ptr);
      }
      CopyRefs(r0, r1, pages[..], m1, m2, cpt, cpt', va);
      return Mapped, cpt';
    }

    /** `ptr = kalloc(PAGESIZE)` then `memcpy(ptr, src, PAGESIZE)`; `fault`
        when `src` is the null page, which the kernel cannot read. */
    method AllocCopy(src: nat) returns (ptr: nat, fault: bool)
      requires Valid() && PhysPage(src)
      modifies this`kallocStart, pages, mem
      ensures Valid()
      ensures ptr == 0 ==> !fault && pages[..] == old(pages[..])
      ensures ptr != 0 ==>
        && PhysPage(ptr) && allocatable[ptr / PAGESIZE] && old(pages[ptr / PAGESIZE]) == 0
        && pages[..] == old(pages[..])[ptr / PAGESIZE := 1]
      ensures Preserves(old(pages[..]), old(mem[..]), mem[..])
      ensures ptr != 0 && !fault && InUse(old(pages[..]), src / PAGESIZE) ==>
        CopiedPage(old(mem[..]), mem[..], src, ptr)
      ensures fault <==> ptr != 0 && !KernelAccessible(src, PAGESIZE)
    {
      ghost var r0, m0 := pages[..], mem[..];
      ptr := KAlloc(PAGESIZE);
      fault := false;
      if ptr == 0 {
        return;
      }
      ghost var m1 := mem[..];
      assert Preserves(r0, m0, m1);
      if !KernelAccessible(src, PAGESIZE) {
        fault := true;
        return;
      }
      CopyPage(ptr, src);
      CopyFacts(r0, m0, m1, mem[..], src, ptr);
    }

    /** What the copy into the freshly granted page `dst` keeps and makes:
        pages in use are untouched, and `dst` holds the source page's bytes
        whenever the source page was in use (so kalloc did not clear it). */
    lemma {:induction false} CopyFacts(r0: seq<nat>, m0: seq<byte>, m1: seq<byte>, m2: seq<byte>, src: nat, dst: nat)
      requires |r0| == NPAGES && |allocatable| == NPAGES
      requires |m0| == MEMSIZE_PHYSICAL && |m1| == MEMSIZE_PHYSICAL && |m2| == MEMSIZE_PHYSICAL
      requires PhysPage(src) && PhysPage(dst) && !InUse(r0, dst / PAGESIZE)
      requires Preserves(r0, m0, m1)
      requires forall i {:trigger m2[i]} :: 0 <= i < MEMSIZE_PHYSICAL ==>
        m2[i] == if dst <= i < dst + PAGESIZE then m1[src + (i - dst)] else m1[i]
      ensures Preserves(r0, m0, m2)
      ensures InUse(r0, src / PAGESIZE) ==> CopiedPage(m0, m2, src, dst)
    {
      forall i | 0 <= i < MEMSIZE_PHYSICAL && InUse(r0, i / PAGESIZE) ensures m2[i] == m0[i] {
        SamePage(i, dst);
        assert i / PAGESIZE != dst / PAGESIZE;
      }
      if InUse(r0, src / PAGESIZE) {
        forall j | dst <= j < dst + PAGESIZE ensures m2[j] == m0[src + (j - dst)] {
          SamePage(src + (j - dst), src);
        }
      }
    }

    /** memcpy(dst, src, PAGESIZE) through the kernel's identity mapping. */
    method CopyPage(dst: nat, src: nat)
      requires Valid() && PhysPage(dst) && PhysPage(src)
      modifies mem
      ensures Valid()
      ensures forall i {:trigger mem[i]} :: 0 <= i < MEMSIZE_PHYSICAL ==>
        mem[i] == if dst <= i < dst + PAGESIZE then old(mem[src + (i - dst)]) else old(mem[i])
    {
      forall j | dst <= j < dst + PAGESIZE {
        mem[j] := mem[src + (j - dst)];
      }
    }

    /** syscall_exit(pid): kfree every user page at or above PROC_START_ADDR,
        every leaf table page and the root, then mark the slot FREE. Each
        page's refcount drops by the number of references the address space
        held, never below 0; the page table itself is left as it was. */
    method Exit(pid: nat)
      requires Valid() && pid < NPROC
      modifies pages, ptable
      ensures Valid()
      ensures forall pn :: 0 <= pn < NPAGES ==>
        pages[pn] == Sat(old(pages[pn]), Held(old(ptable[pid].pagetable), pn))
      ensures ptable[..] == old(ptable[..])[pid := old(ptable[pid]).(state := Free)]
    {
      var pt := ptable[pid].pagetable;
      FreeUserPages(pt);
      ghost var mid := pages[..];
      FreeTables(pt);
      forall pn | 0 <= pn < NPAGES ensures pages[pn] == Sat(old(pages[pn]), Held(pt, pn)) {
        assert mid[pn] == Sat(old(pages[pn]), UserCount(pt, pn, PROC_START_ADDR, MEMSIZE_VIRTUAL));
      }
      ptable[pid] := ptable[pid].(state := Free);
    }

    /** The first loop of syscall_exit: kfree each user page at or above
        PROC_START_ADDR. */
    method FreeUserPages(pt: PageTable)
      requires Valid() && WellFormed(pt)
      modifies pages
      ensures Valid()
      ensures forall pn :: 0 <= pn < NPAGES ==>
        pages[pn] == Sat(old(pages[pn]), UserCount(pt, pn, PROC_START_ADDR, MEMSIZE_VIRTUAL))
    {
      var va := PROC_START_ADDR;
      while va < MEMSIZE_VIRTUAL
        invariant PROC_START_ADDR <= va <= MEMSIZE_VIRTUAL && PageAligned(va)
        invariant forall pn :: 0 <= pn < NPAGES ==>
          pages[pn] == Sat(old(pages[pn]), UserCount(pt, pn, PROC_START_ADDR, va))
      {
        ghost var before := pages[..];
        if IsUser(pt, va) {
          KFree(Entry(pt, va).pa);
        }
        forall pn | 0 <= pn < NPAGES
          ensures pages[pn] == Sat(old(pages[pn]), UserCount(pt, pn, PROC_START_ADDR, va + PAGESIZE))
        {
          assert pages[pn] == Sat(before[pn], UserHits(pt, pn, va));
        }
        va := va + PAGESIZE;
      }
    }

    /** The rest of syscall_exit's release: kfree each leaf table page, then the root. */
    method FreeTables(pt: PageTable)
      requires Valid() && WellFormed(pt)
      modifies pages
      ensures Valid()
      ensures forall pn :: 0 <= pn < NPAGES ==>
        pages[pn] == Sat(old(pages[pn]), TableCount(pt, pn, NTABLES) + Hits(pt.root, pn))
    {
      var t := 0;
      while t < NTABLES
        invariant 0 <= t <= NTABLES
        invariant forall pn :: 0 <= pn < NPAGES ==> pages[pn] == Sat(old(pages[pn]), TableCount(pt, pn, t))
      {
        ghost var before := pages[..];
        KFree(pt.tables[t]);
        forall pn | 0 <= pn < NPAGES ensures pages[pn] == Sat(old(pages[pn]), TableCount(pt, pn, t + 1)) {
          assert pages[pn] == Sat(before[pn], Hits(pt.tables[t], pn));
        }
        t := t + 1;
      }
      ghost var before := pages[..];
      KFree(pt.root);
      forall pn | 0 <= pn < NPAGES
        ensures pages[pn] == Sat(old(pages[pn]), TableCount(pt, pn, NTABLES) + Hits(pt.root, pn))
      {
        assert pages[pn] == Sat(before[pn], Hits(pt.root, pn));
      }
    }

    /** memset(pa, 0, PAGESIZE) through the kernel's identity mapping. */
    method ZeroPage(pa: nat)
      requires Valid() && PhysPage(pa)
      modifies mem
      ensures ZeroedPage(old(mem[..]), mem[..], pa)
    {
      forall i | pa <= i < pa + PAGESIZE {
        mem[i] := 0;
      }
    }

    /** syscall_page_alloc(addr): map a fresh zeroed page at `addr` in the
        current process with PTE_PWU, releasing the page mapped there
        before. -1 for a misaligned address or one outside
        [PROC_START_ADDR, MEMSIZE_VIRTUAL), when kalloc fails, and when
        try_map fails (its new page is then freed again). */
    method PageAlloc(addr: nat) returns (r: int)
      requires Valid()
      modifies this`kallocStart, pages, mem, ptable
      ensures Valid()
      ensures r == 0 || r == -1
      ensures !PageAligned(addr) || addr < PROC_START_ADDR || addr >= MEMSIZE_VIRTUAL ==>
        r == -1 && pages[..] == old(pages[..]) && mem[..] == old(mem[..]) && kallocStart == old(kallocStart)
      ensures r == -1 ==> pages[..] == old(pages[..]) && ptable[..] == old(ptable[..])
      ensures Preserves(old(pages[..]), old(mem[..]), mem[..])
      ensures r == 0 ==>
        var pt := old(ptable[current].pagetable);
        var pt' := ptable[current].pagetable;
        var pa := Entry(pt', addr).pa;
        && ptable[..] == old(ptable[..])[current := old(ptable[current]).(pagetable := pt')]
        && PageAligned(addr) && PROC_START_ADDR <= addr < MEMSIZE_VIRTUAL
        && pt'.root == pt.root && pt'.entries == pt.entries[addr := Pte(pa, PTE_PWU)]
        && pa != 0 && PhysPage(pa) && allocatable[pa / PAGESIZE] && old(pages[pa / PAGESIZE]) == 0
        && (forall i :: pa <= i < pa + PAGESIZE ==> mem[i] == 0)
        && pages[..] == TableGrant(KFreed(old(pages[..])[pa / PAGESIZE := 1], Entry(pt, addr).pa), pt, pt', addr)
    {
      if !PageAligned(addr) || addr < PROC_START_ADDR || addr >= MEMSIZE_VIRTUAL {
        return -1;
      }
      var ptr := KAlloc(PAGESIZE);
      if ptr == 0 {
        return -1;
      }
      r := PageAllocMap(addr, ptr, old(pages[..]), old(mem[..]));
    }

    /** The rest of syscall_page_alloc once kalloc granted `ptr`. The old
        page is released before try_map, which can only fail when no leaf
        table covers `addr`, in which case nothing was mapped there. */
    method PageAllocMap(addr: nat, ptr: nat, ghost r0: seq<nat>, ghost m0: seq<byte>) returns (r: int)
      requires Valid() && PageAligned(addr) && PROC_START_ADDR <= addr < MEMSIZE_VIRTUAL
      requires |r0| == NPAGES && |m0| == MEMSIZE_PHYSICAL
      requires Granted(r0, pages[..], m0, mem[..], ptr) && Preserves(r0, m0, mem[..])
      modifies this`kallocStart, pages, mem, ptable
      ensures Valid()
      ensures r == 0 || r == -1
      ensures r == -1 ==> pages[..] == r0 && ptable[..] == old(ptable[..])
      ensures Preserves(r0, m0, mem[..])
      ensures r == 0 ==>
        var pt := old(ptable[current].pagetable);
        var pt' := ptable[current].pagetable;
        && ptable[..] == old(ptable[..])[current := old(ptable[current]).(pagetable := pt')]
        && pt'.root == pt.root && pt'.entries == pt.entries[addr := Pte(ptr, PTE_PWU)]
        && (forall i :: ptr <= i < ptr + PAGESIZE ==> mem[i] == 0)
        && pages[..] == TableGrant(KFreed(r0[ptr / PAGESIZE := 1], Entry(pt, addr).pa), pt, pt', addr)
    {
      var pt := ptable[current].pagetable;
      KFree(Entry(pt, addr).pa);
      r := PageAllocRemap(addr, ptr, r0, m0);
    }

    /** syscall_page_alloc after the old page at `addr` was freed: map
        `ptr` there, undoing the grant if the mapping fails, and zero it. */
    method PageAllocRemap(addr: nat, ptr: nat, ghost r0: seq<nat>, ghost m0: seq<byte>) returns (r: int)
      requires Valid() && PageAligned(addr) && PROC_START_ADDR <= addr < MEMSIZE_VIRTUAL
      requires |r0| == NPAGES && |m0| == MEMSIZE_PHYSICAL && PhysPage(ptr) && ptr != 0
      requires r0[ptr / PAGESIZE] == 0 && allocatable[ptr / PAGESIZE]
      requires pages[..] == KFreed(r0[ptr / PAGESIZE := 1], Entry(ptable[current].pagetable, addr).pa)
      requires Preserves(r0, m0, mem[..])
      modifies this`kallocStart, pages, mem, ptable
      ensures Valid()
      ensures r == 0 || r == -1
      ensures r == -1 ==> pages[..] == r0 && ptable[..] == old(ptable[..])
      ensures Preserves(r0, m0, mem[..])
      ensures r == 0 ==>
        var pt := old(ptable[current].pagetable);
        var pt' := ptable[current].pagetable;
        && ptable[..] == old(ptable[..])[current := old(ptable[current]).(pagetable := pt')]
        && pt'.root == pt.root && pt'.entries == pt.entries[addr := Pte(ptr, PTE_PWU)]
        && (forall i :: ptr <= i < ptr + PAGESIZE ==> mem[i] == 0)
        && pages[..] == TableGrant(old(pages[..]), pt, pt', addr)
    {
      var pt := ptable[current].pagetable;
      ghost var r2, m2 := pages[..], mem[..];
      var res, pt' := TryMap(pt, addr, ptr, PTE_PWU);
      if pt.tables[Region(addr)] == 0 {
        assert addr !in pt.entries;
        assert r2 == r0[ptr / PAGESIZE := 1];
      } else {
        assert pages[..] == r2 && mem[..] == m2;
      }
      if res != 0 {
        KFree(ptr);
        assert pages[..] == r0;
        return -1;
      }
      ghost var m3 := mem[..];
      InstallZeroed(pt', ptr);
      ZeroedFreePage(r0, m3, mem[..], ptr);
      return 0;
    }

    /** The tail of syscall_page_alloc: the current process gets the table
        `pt'`, and the new page `ptr` is zeroed. */
    method InstallZeroed(pt': PageTable, ptr: nat)
      requires Valid() && WellFormed(pt') && PhysPage(ptr)
      modifies ptable, mem
      ensures Valid()
      ensures ptable[..] == old(ptable[..])[current := old(ptable[current]).(pagetable := pt')]
      ensures ZeroedPage(old(mem[..]), mem[..], ptr)
    {
      SetProc(current, ptable[current].(pagetable := pt'));
      ZeroPage(ptr);
    }

    /** run(p): `p` must be RUNNABLE (a failed assertion otherwise); it
        becomes current and control returns to it. */
    method Run(pid: nat) returns (o: Outcome)
      requires Valid() && pid < NPROC
      modifies this`current
      ensures Valid()
      ensures ptable[pid].state == Runnable ==> o == Resume(pid) && current == pid
      ensures ptable[pid].state != Runnable ==> o == Halt && current == old(current)
    {
      if ptable[pid].state != Runnable {
        return Halt;
      }
      current := pid;
      return Resume(pid);
    }

    /** schedule(): try pid + 1, pid + 2, ... (mod NPROC) from the current
        pid and run the first RUNNABLE one. After NPROC probes the real loop
        goes on spinning over an unchanging table, which is `Idle`. */
    method Schedule() returns (o: Outcome)
      requires Valid()
      modifies this`current
      ensures Valid()
      ensures Scheduled(ptable[..], old(current), o, current, old(current))
    {
      var next := ScanRunnable(ptable[..], current);
      if next.Some? {
        o := Run(next.value);
      } else {
        o := Idle;
      }
    }

    /** exception(regs): save the trap registers into the current process,
        then: a timer interrupt counts a tick and reschedules; a page fault
        from user mode (PFERR_USER set) marks the process BROKEN; a kernel
        page fault or any other vector panics. A process that is still
        RUNNABLE afterwards is resumed, otherwise the scheduler runs. */
    method Exception(regs: Regs) returns (o: Outcome)
      requires Valid()
      modifies this`current, this`ticks, ptable
      ensures Valid()
      ensures var saved := old(ptable[..])[old(current) := old(ptable[current]).(regs := regs)];
        if regs.intno == INT_IRQ + IRQ_TIMER then
          ticks == old(ticks) + 1 && ptable[..] == saved && Scheduled(saved, old(current), o, current, old(current))
        else if regs.intno == INT_PF && BitSet(regs.errcode, PFERR_USER) then
          var broken := saved[old(current) := saved[old(current)].(state := Broken)];
          ticks == old(ticks) && ptable[..] == broken && Scheduled(broken, old(current), o, current, old(current))
        else
          o == Halt && ticks == old(ticks) && ptable[..] == saved
    {
      SetProc(current, ptable[current].(regs := regs));
      if regs.intno == INT_IRQ + IRQ_TIMER {
        ticks := ticks + 1;
        o := Schedule();
        return;
      } else if regs.intno == INT_PF {
        if !BitSet(regs.errcode, PFERR_USER) {
          return Halt;
        }
        SetProc(current, ptable[current].(state := Broken));
      } else {
        return Halt;
      }
      o := ResumeOrSchedule();
    }

    /** The end of exception: run the current process again if it is still
        RUNNABLE, else call the scheduler. */
    method ResumeOrSchedule() returns (o: Outcome)
      requires Valid()
      modifies this`current
      ensures Valid()
      ensures ptable[old(current)].state == Runnable ==> o == Resume(old(current)) && current == old(current)
      ensures ptable[old(current)].state != Runnable ==> Scheduled(ptable[..], old(current), o, current, old(current))
    {
      if ptable[current].state == Runnable {
        o := Run(current);
      } else {
        o := Schedule();
      }
    }

    /** kernel_start's flag loop over the kernel page table, from address 0
        up to MEMSIZE_PHYSICAL: every page identity mapped with PTE_P |
        PTE_W, plus PTE_U at and above PROC_START_ADDR and at CONSOLE_ADDR,
        and address 0 mapped with no permissions at all. The kernel table's
        own page-table pages are static, so these mappings allocate nothing. */
    method InitKernelPagetable()
      requires Valid()
      modifies this`kernelPagetable
      ensures Valid() && KernelMapped(kernelPagetable, true)
      ensures forall va :: va >= MEMSIZE_PHYSICAL ==> Entry(kernelPagetable, va) == Entry(old(kernelPagetable), va)
    {
      kernelPagetable := MapKernelRange(kernelPagetable, true);
    }

    /** What syscall_page_alloc(addr) by process `cur` does to the process
        table `p0`, refcounts `r0`, memory `m0` and kalloc cursor `k0`,
        leaving `p1`, `r1`, `m1`, `k1` and returning r (PageAlloc's
        contract). */
    ghost predicate PageAllocEffect(cur: nat, addr: nat, r: int,
                                    p0: seq<Proc<PageTable>>, r0: seq<nat>, m0: seq<byte>, k0: nat,
                                    p1: seq<Proc<PageTable>>, r1: seq<nat>, m1: seq<byte>, k1: nat)
      requires |allocatable| == NPAGES && |r0| == NPAGES && |r1| == NPAGES
      requires |m0| == MEMSIZE_PHYSICAL && |m1| == MEMSIZE_PHYSICAL && cur < |p0| && cur < |p1|
    {
      && (r == 0 || r == -1)
      && (!PageAligned(addr) || addr < PROC_START_ADDR || addr >= MEMSIZE_VIRTUAL ==>
            r == -1 && r1 == r0 && m1 == m0 && k1 == k0)
      && (r == -1 ==> r1 == r0 && p1 == p0)
      && Preserves(r0, m0, m1)
      && (r == 0 ==>
            var pt := p0[cur].pagetable;
            var pt' := p1[cur].pagetable;
            var pa := Entry(pt', addr).pa;
            && p1 == p0[cur := p0[cur].(pagetable := pt')]
            && PageAligned(addr) && PROC_START_ADDR <= addr < MEMSIZE_VIRTUAL
            && pt'.root == pt.root && pt'.entries == pt.entries[addr := Pte(pa, PTE_PWU)]
            && pa != 0 && PhysPage(pa) && allocatable[pa / PAGESIZE] && r0[pa / PAGESIZE] == 0
            && (forall i :: pa <= i < pa + PAGESIZE ==> m1[i] == 0)
            && WellFormed(pt) && WellFormed(pt') && Entry(pt, addr).pa < MEMSIZE_PHYSICAL
            && r1 == TableGrant(KFreed(r0[pa / PAGESIZE := 1], Entry(pt, addr).pa), pt, pt', addr))
    }

    /** What syscall_fork by process `cur` does to the process table `p0`,
        refcounts `r0` and memory `m0`, leaving `p1`, `r1`, `m1` and
        returning o (Fork's contract). */
    ghost predicate ForkEffect(cur: nat, o: Outcome, p0: seq<Proc<PageTable>>, r0: seq<nat>, m0: seq<byte>,
                               p1: seq<Proc<PageTable>>, r1: seq<nat>, m1: seq<byte>)
      requires |allocatable| == NPAGES && |r0| == NPAGES && |r1| == NPAGES
      requires |m0| == MEMSIZE_PHYSICAL && |m1| == MEMSIZE_PHYSICAL && cur < |p0| && |p0| == NPROC && |p1| == NPROC
    {
      && (o.Return? || o == Halt)
      && Preserves(r0, m0, m1)
      && (ForkSlot(p0).None? ==> o == Return(-1) && p1 == p0 && r1 == r0)
      && (o.Return? && o.value != -1 ==>
            && ForkSlot(p0).Some? && o.value == ForkSlot(p0).value
            && var pid := ForkSlot(p0).value;
               var cpt := p1[pid].pagetable;
               && p1 == p0[pid := Proc(pid, Runnable, p0[cur].regs.(rax := 0), cpt)]
               && ForkedSpace(r0, m0, p0[cur].pagetable, cpt, r1, m1))
      && (o == Return(-1) && ForkSlot(p0).Some? ==>
            var pid := ForkSlot(p0).value;
            && p1 == p0[pid := p0[pid].(pagetable := p1[pid].pagetable)]
            && forall pn :: 1 <= pn < NPAGES ==> r1[pn] == r0[pn])
    }

    /** syscall(regs): save the registers into the current process and
        dispatch on the number in %rax. PANIC and unknown numbers panic;
        GETPID returns the pid; YIELD stores 0 as the saved %rax and
        reschedules; PAGE_ALLOC and FORK return their results; EXIT
        releases the process and reschedules. */
    method Syscall(regs: Regs) returns (o: Outcome)
      requires Trappable()
      modifies this`current, this`kallocStart, pages, mem, ptable
      ensures Valid()
      ensures var cur := old(current);
        var saved := old(ptable[..])[cur := old(ptable[cur]).(regs := regs)];
        && (regs.rax == SYSCALL_PANIC ==> o == Halt && ptable[..] == saved && pages[..] == old(pages[..]) && current == cur)
        && (regs.rax == SYSCALL_GETPID ==>
              o == Return(cur) && ptable[..] == saved && pages[..] == old(pages[..]) && current == cur)
        && (regs.rax == SYSCALL_YIELD ==>
              var yielded := saved[cur := saved[cur].(regs := regs.(rax := 0))];
              ptable[..] == yielded && pages[..] == old(pages[..]) && Scheduled(yielded, cur, o, current, cur))
        && (regs.rax == SYSCALL_PAGE_ALLOC ==>
              && o.Return? && current == cur
              && PageAllocEffect(cur, regs.rdi, o.value, saved, old(pages[..]), old(mem[..]), old(kallocStart),
                                 ptable[..], pages[..], mem[..], kallocStart))
        && (regs.rax == SYSCALL_FORK ==>
              current == cur && ForkEffect(cur, o, saved, old(pages[..]), old(mem[..]), ptable[..], pages[..], mem[..]))
        && (regs.rax == SYSCALL_EXIT ==>
              && ptable[..] == saved[cur := saved[cur].(state := Free)]
              && (forall pn :: 0 <= pn < NPAGES ==> pages[pn] == Sat(old(pages[pn]), Held(old(ptable[cur].pagetable), pn)))
              && Scheduled(ptable[..], cur, o, current, cur))
        && (regs.rax !in {SYSCALL_GETPID, SYSCALL_YIELD, SYSCALL_PANIC, SYSCALL_PAGE_ALLOC, SYSCALL_FORK, SYSCALL_EXIT} ==>
              o == Halt && ptable[..] == saved && pages[..] == old(pages[..]) && current == cur)
      ensures regs.rax !in {SYSCALL_PAGE_ALLOC, SYSCALL_FORK} ==> mem[..] == old(mem[..]) && kallocStart == old(kallocStart)
    {
      SetProc(current, ptable[current].(regs := regs));
      if regs.rax == SYSCALL_PANIC {
        return Halt;
      } else if regs.rax == SYSCALL_GETPID {
        return Return(current);
      } else if regs.rax == SYSCALL_YIELD {
        SetProc(current, ptable[current].(regs := ptable[current].regs.(rax := 0)));
        o := Schedule();
      } else if regs.rax == SYSCALL_PAGE_ALLOC {
        var r := PageAlloc(regs.rdi);
        return Return(r);
      } else if regs.rax == SYSCALL_FORK {
        o := Fork();
      } else if regs.rax == SYSCALL_EXIT {
        Exit(current);
        o := Schedule();
      } else {
        return Halt;
      }
    }

    /** `ptr = kalloc(PAGESIZE); it.find(va); it.map(ptr, perm)` as
        process_setup does it: a failed kalloc is not checked, so the null
        page is mapped then; `ok` is false when the mapping itself fails,
        which vmiter::map turns into a failed assertion. */
    method MapFreshPage(pt: PageTable, va: nat, perm: Perm) returns (ok: bool, pt': PageTable, ptr: nat)
      requires Valid() && WellFormed(pt) && PageAligned(va) && va < MEMSIZE_VIRTUAL && perm.present
      modifies this`kallocStart, pages, mem
      ensures Valid() && Grows(old(pages[..]), pages[..]) && Preserves(old(pages[..]), old(mem[..]), mem[..])
      ensures ok ==> WellFormed(pt') && pt'.root == pt.root && PhysPage(ptr)
      ensures ok ==> pt'.entries == pt.entries[va := Pte(ptr, perm)] && (ptr == 0 || pages[ptr / PAGESIZE] >= 1)
    {
      ptr := KAlloc(PAGESIZE);
      ghost var r1, m1 := pages[..], mem[..];
      var r;
      r, pt' := TryMap(pt, va, ptr, perm);
      PreservesTrans(old(pages[..]), r1, old(mem[..]), m1, mem[..]);
      ok := r == 0;
    }

    /** process_setup's first loop: copy every kernel mapping below
        PROC_START_ADDR into the fresh table `pt`. */
    method SetupKernelPart(pt: PageTable) returns (ok: bool, pt': PageTable)
      requires Valid() && WellFormed(pt) && pt.entries == map[]
      modifies this`kallocStart, pages, mem
      ensures Valid() && Grows(old(pages[..]), pages[..]) && Preserves(old(pages[..]), old(mem[..]), mem[..])
      ensures ok ==> WellFormed(pt') && pt'.root == pt.root && SegmentsMapped(kernelPagetable, [], pt')
    {
      pt' := pt;
      var va := 0;
      while va < PROC_START_ADDR
        invariant va <= PROC_START_ADDR && PageAligned(va) && Valid()
        invariant WellFormed(pt') && pt'.root == pt.root
        invariant Grows(old(pages[..]), pages[..]) && Preserves(old(pages[..]), old(mem[..]), mem[..])
        invariant KernelPartMapped(kernelPagetable, pt', va)
      {
        ghost var r0, m0, pt0 := pages[..], mem[..], pt';
        var mapped;
        mapped, pt' := CopyKernelEntry(pt', va);
        StepsCompose(old(pages[..]), r0, pages[..], old(mem[..]), m0, mem[..]);
        if !mapped {
          return false, pt';
        }
        KernelPartStep(kernelPagetable, pt0, pt', va);
        va := NextPage(va);
      }
      KernelPartDone(kernelPagetable, pt');
      ok := true;
    }

    /** One round of that loop: `it.map` of the kernel's own entry for `va`; `ok` is false when the mapping fails. */
    method CopyKernelEntry(pt: PageTable, va: nat) returns (ok: bool, pt': PageTable)
      requires Valid() && WellFormed(pt) && PageAligned(va) && va < PROC_START_ADDR
      modifies this`kallocStart, pages, mem
      ensures Valid() && Grows(old(pages[..]), pages[..]) && Preserves(old(pages[..]), old(mem[..]), mem[..])
      ensures WellFormed(pt') && pt'.root == pt.root
      ensures ok ==> pt'.entries == if Entry(kernelPagetable, va).perm.present
                                    then pt.entries[va := Entry(kernelPagetable, va)] else pt.entries - {va}
    {
      var e := Entry(kernelPagetable, va);
      var r;
      r, pt' := TryMap(pt, va, e.pa, e.perm);
      ok := r == 0;
    }

    /** process_setup's page loop for one segment, after the segments `done`. */
    method MapSegment(pt: PageTable, seg: Segment, ghost done: seq<Segment>) returns (ok: bool, pt': PageTable)
      requires Valid() && WellFormed(pt) && seg.va + seg.size <= MEMSIZE_VIRTUAL
      requires SegmentsMapped(kernelPagetable, done, pt) && SegmentPagesHeld(done, pt, pages[..])
      modifies this`kallocStart, pages, mem
      ensures Valid() && Grows(old(pages[..]), pages[..]) && Preserves(old(pages[..]), old(mem[..]), mem[..])
      ensures ok ==> WellFormed(pt') && pt'.root == pt.root
      ensures ok ==> SegmentsMapped(kernelPagetable, done + [seg], pt') && SegmentPagesHeld(done + [seg], pt', pages[..])
    {
      pt' := pt;
      var a := RoundDown(seg.va);
      SegPartStart(pt, seg, pages[..]);
      while a < seg.va + seg.size
        invariant PageAligned(a)
        invariant RoundDown(seg.va) <= a
        invariant Valid()
        invariant WellFormed(pt') && pt'.root == pt.root
        invariant Grows(old(pages[..]), pages[..]) && Preserves(old(pages[..]), old(mem[..]), mem[..])
        invariant SegPartMapped(pt, pt', seg, a, pages[..]) && SegmentPagesHeld(done, pt, pages[..])
      {
        ghost var r0, m0 := pages[..], mem[..];
        var r;
        r, pt' := MapSegmentPage(pt, pt', seg, a, done);
        PreservesTrans(old(pages[..]), r0, old(mem[..]), m0, mem[..]);
        if !r {
          return false, pt';
        }
        a := NextPage(a);
      }
      SegPartDone(kernelPagetable, done, pt, pt', seg, a, pages[..]);
      ok := true;
    }

    /** One iteration of process_setup's page loop for `seg`: a fresh page
        at `a` with the segment's flags. */
    method MapSegmentPage(pt0: PageTable, pt: PageTable, seg: Segment, a: nat, ghost done: seq<Segment>) returns (ok: bool, pt': PageTable)
      requires Valid() && WellFormed(pt0) && WellFormed(pt) && PageAligned(a)
      requires RoundDown(seg.va) <= a < seg.va + seg.size <= MEMSIZE_VIRTUAL
      requires SegPartMapped(pt0, pt, seg, a, pages[..]) && SegmentPagesHeld(done, pt0, pages[..])
      modifies this`kallocStart, pages, mem
      ensures Valid() && Grows(old(pages[..]), pages[..]) && Preserves(old(pages[..]), old(mem[..]), mem[..])
      ensures ok ==> WellFormed(pt') && pt'.root == pt.root
      ensures ok ==> SegPartMapped(pt0, pt', seg, a + PAGESIZE, pages[..]) && SegmentPagesHeld(done, pt0, pages[..])
    {
      var ptr;
      ok, pt', ptr := MapFreshPage(pt, a, SegPerm(seg));
      if ok {
        SegPartStep(pt0, pt, pt', seg, a, old(pages[..]), pages[..], ptr);
        SegmentPagesHeldGrows(done, pt0, old(pages[..]), pages[..]);
      }
    }

    /** process_setup's mapping loop over all segments. */
    method MapSegments(pt: PageTable, segs: seq<Segment>) returns (ok: bool, pt': PageTable)
      requires Valid() && WellFormed(pt) && SegmentsMapped(kernelPagetable, [], pt)
      requires forall i :: 0 <= i < |segs| ==> segs[i].va + segs[i].size <= MEMSIZE_VIRTUAL
      modifies this`kallocStart, pages, mem
      ensures Valid() && Grows(old(pages[..]), pages[..]) && Preserves(old(pages[..]), old(mem[..]), mem[..])
      ensures ok ==> WellFormed(pt') && pt'.root == pt.root
      ensures ok ==> SegmentsMapped(kernelPagetable, segs, pt') && SegmentPagesHeld(segs, pt', pages[..])
    {
      pt' := pt;
      var k := 0;
      while k < |segs|
        invariant k <= |segs|
        invariant Valid() && WellFormed(pt') && pt'.root == pt.root
        invariant Grows(old(pages[..]), pages[..]) && Preserves(old(pages[..]), old(mem[..]), mem[..])
        invariant SegmentsMapped(kernelPagetable, segs[..k], pt') && SegmentPagesHeld(segs[..k], pt', pages[..])
      {
        ghost var r0, m0 := pages[..], mem[..];
        var r;
        r, pt' := MapSegment(pt', segs[k], segs[..k]);
        StepsCompose(old(pages[..]), r0, pages[..], old(mem[..]), m0, mem[..]);
        if !r {
          return false, pt';
        }
        TakeSnoc(segs, k);
        k := k + 1;
      }
      assert segs[..k] == segs;
      ok := true;
    }

    /** process_setup's copy step for one segment: memset its size to zero,
        then memcpy its data, both from the kernel pointer of its first
        byte. `ok` is false when that range would fault in the kernel. */
    method LoadSegment(pt: PageTable, seg: Segment) returns (ok: bool)
      requires Valid() && |seg.data| <= seg.size
      modifies mem
      ensures ok == KernelAccessible(Kptr(pt, seg.va), seg.size)
      ensures ok ==> mem[..] == if seg.size == 0 then old(mem[..]) else Splice(old(mem[..]), Kptr(pt, seg.va), SegImage(seg))
    {
      var p := Kptr(pt, seg.va);
      if !KernelAccessible(p, seg.size) {
        return false;
      }
      if seg.size == 0 {
        return true;
      }
      Memset(mem, p, 0, seg.size);
      ghost var m1 := mem[..];
      Memcpy(mem, p, seg.data);
      assert mem[..] == Splice(old(mem[..]), p, SegImage(seg)) by {
        forall j | 0 <= j < MEMSIZE_PHYSICAL ensures mem[j] == Splice(old(mem[..]), p, SegImage(seg))[j] {
          assert m1[j] == if p <= j < p + seg.size then 0 else old(mem[j]);
        }
      }
      ok := true;
    }

    /** process_setup's copy loop over all segments. */
    method LoadSegments(pt: PageTable, segs: seq<Segment>) returns (ok: bool)
      requires Valid() && forall i :: 0 <= i < |segs| ==> |segs[i].data| <= segs[i].size
      modifies mem
      ensures ok == SegmentsLoadable(pt, segs)
      ensures ok ==> mem[..] == LoadImage(old(mem[..]), pt, segs)
    {
      var k := 0;
      while k < |segs|
        invariant k <= |segs| && SegmentsLoadable(pt, segs[..k])
        invariant mem[..] == LoadImage(old(mem[..]), pt, segs[..k])
      {
        ghost var m0 := mem[..];
        var r := LoadSegment(pt, segs[k]);
        if !r {
          assert !SegmentsLoadable(pt, segs) by {
            assert !KernelAccessible(Kptr(pt, segs[k].va), segs[k].size);
          }
          return false;
        }
        ghost var next := segs[..k + 1];
        assert next[..k] == segs[..k];
        assert SegmentsLoadable(pt, next);
        k := k + 1;
      }
      assert segs[..k] == segs;
      ok := true;
    }

    /** process_setup's first two loops, on a fresh kalloc_pagetable: the
        kernel's mappings, then a page per segment page. `ok` is false on a
        null page table or a failed mapping. */
    method BuildPagetable(segs: seq<Segment>) returns (ok: bool, pt: PageTable)
      requires Valid() && forall i :: 0 <= i < |segs| ==> segs[i].va + segs[i].size <= MEMSIZE_VIRTUAL
      modifies this`kallocStart, pages, mem
      ensures Valid() && Grows(old(pages[..]), pages[..]) && Preserves(old(pages[..]), old(mem[..]), mem[..])
      ensures ok ==> WellFormed(pt) && SegmentsMapped(kernelPagetable, segs, pt) && SegmentPagesHeld(segs, pt, pages[..])
    {
      ghost var r0, m0 := pages[..], mem[..];
      var root := KAlloc(PAGESIZE);
      if root == 0 {
        return false, NULL_PAGETABLE;
      }
      ghost var r1, m1 := pages[..], mem[..];
      ok, pt := SetupKernelPart(PageTable(root, [0, 0], map[]));
      PreservesTrans(r0, r1, m0, m1, mem[..]);
      if !ok {
        return;
      }
      ghost var r2, m2 := pages[..], mem[..];
      ok, pt := MapSegments(pt, segs);
      PreservesTrans(r0, r2, m0, m2, mem[..]);
    }

    /** process_setup: a fresh page table (kalloc_pagetable) holding the
        kernel's mappings below PROC_START_ADDR, a fresh page per segment
        page, the segments' images copied in, and a stack page at the top
        of the address space. `ok` is false where the source panics: a
        failed mapping, a null page table, or a copy that faults. The ghost
        results name the intermediate states: `loadPt` and `loadRefs` after
        the mapping loop, `mapped` the memory then, `loaded` the memory after
        the copy loop, `stack` the stack page. */
    method ProcessSetup(pid: nat, pgm: Program)
      returns (ok: bool, ghost loadPt: PageTable, ghost loadRefs: seq<nat>, ghost mapped: seq<byte>, ghost loaded: seq<byte>, ghost stack: nat)
      requires Valid() && pid < NPROC && ValidProgram(pgm)
      modifies this`kallocStart, pages, mem, ptable
      ensures Valid()
      ensures !ok ==> ptable[..] == old(ptable[..])
      ensures ok ==> WellFormed(loadPt) && |loadRefs| == NPAGES && |mapped| == MEMSIZE_PHYSICAL
      ensures ok ==> SegmentsMapped(kernelPagetable, pgm.segments, loadPt) && SegmentPagesHeld(pgm.segments, loadPt, loadRefs)
      ensures ok ==> Grows(old(pages[..]), loadRefs) && Preserves(old(pages[..]), old(mem[..]), mapped)
      ensures ok ==> SegmentsLoadable(loadPt, pgm.segments) && loaded == LoadImage(mapped, loadPt, pgm.segments)
      ensures ok ==> Grows(loadRefs, pages[..]) && Preserves(loadRefs, loaded, mem[..])
      ensures ok ==> ptable[..] == old(ptable[..])[pid := Proc(pid, Runnable, INIT_REGS.(rip := pgm.entry, rsp := MEMSIZE_VIRTUAL), ptable[pid].pagetable)]
      ensures ok ==> ptable[pid].pagetable.root == loadPt.root
      ensures ok ==> ptable[pid].pagetable.entries == loadPt.entries[MEMSIZE_VIRTUAL - PAGESIZE := Pte(stack, PTE_PWU)]
      ensures ok ==> PhysPage(stack) && (stack == 0 || pages[stack / PAGESIZE] >= 1)
    {
      ghost var t0 := ptable[..];
      loadPt, loadRefs, mapped, loaded, stack := NULL_PAGETABLE, [], [], [], 0;
      var pt;
      ok, pt := BuildPagetable(pgm.segments);
      if !ok {
        return;
      }
      loadPt, loadRefs, mapped := pt, pages[..], mem[..];
      ok := LoadSegments(pt, pgm.segments);
      if !ok {
        return;
      }
      loaded := mem[..];
      var ptr;
      ok, pt, ptr := MapFreshPage(pt, MEMSIZE_VIRTUAL - PAGESIZE, PTE_PWU);
      if !ok {
        return;
      }
      stack := ptr;
      assert ptable[..] == t0;
      SetProc(pid, Proc(pid, Runnable, INIT_REGS.(rip := pgm.entry, rsp := MEMSIZE_VIRTUAL), pt));
    }
  }
}
