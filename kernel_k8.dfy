/** The kernel8 WeensyOS kernel: first-fit kalloc filling pages with 0xCC,
    per-process page tables whose process memory is identity mapped, a
    one-byte kernel pipe, and a fault handler that breaks faulting user
    processes.

    Global state (`pages[]`, `ptable[]`, `current`, `ticks`, `pipebuf`,
    `pipebuf_len`, physical memory and the kernel page table) is the state of
    one `Kernel` object. */
module Kernel8 {
  import opened WeensyCommon

  // system call numbers (lib.hh, which is not part of this model)
  const SYSCALL_GETPID: nat := 1
  const SYSCALL_YIELD: nat := 2
  const SYSCALL_PANIC: nat := 3
  const SYSCALL_GETTICKS: nat := 4
  const SYSCALL_GETSYSNAME: nat := 5
  const SYSCALL_PIPEWRITE: nat := 6
  const SYSCALL_PIPEREAD: nat := 7

  predicate KnownSyscall(n: nat) {
    n in {SYSCALL_GETPID, SYSCALL_YIELD, SYSCALL_PANIC, SYSCALL_GETTICKS,
          SYSCALL_GETSYSNAME, SYSCALL_PIPEWRITE, SYSCALL_PIPEREAD}
  }

  /** "DemoOS 61.61" in ASCII; it holds no NUL byte. */
  const OSNAME: seq<byte> := [68, 101, 109, 111, 79, 83, 32, 54, 49, 46, 54, 49]

  /** The `n` bytes `strncpy(buf, src, n)` stores for a NUL-free `src`:
      `src` cut to `n` bytes, or `src` padded with NULs to `n` bytes. */
  function StrncpyImage(src: seq<byte>, n: nat): (b: seq<byte>)
    requires forall i :: 0 <= i < |src| ==> src[i] != 0
    ensures |b| == n
    ensures n <= |src| ==> b == src[..n]
    ensures n > |src| ==> b[..|src|] == src && forall i :: |src| <= i < n ==> b[i] == 0
  {
    seq(n, i requires 0 <= i < n => if i < |src| then src[i] else 0)
  }

  /** A name buffer larger than the name receives it NUL-terminated; a
      smaller one receives a prefix with no terminator. */
  lemma {:induction false} SysnameTerminated(n: nat)
    ensures n > |OSNAME| ==> StrncpyImage(OSNAME, n)[|OSNAME|] == 0
    ensures n <= |OSNAME| ==> forall i :: 0 <= i < n ==> StrncpyImage(OSNAME, n)[i] != 0
  {
  }

  /** kalloc's first-fit scan from physical address 0. */
  function FirstFit(free: seq<bool>): Option<nat>
    requires |free| == NPAGES
  {
    CyclicFirst(free, 0, NPAGES)
  }

  /** The first-fit page is the lowest free page, and there is one exactly
      when some page is free. */
  lemma {:induction false} FirstFitLowest(free: seq<bool>)
    requires |free| == NPAGES
    ensures FirstFit(free).None? <==> forall q :: 0 <= q < NPAGES ==> !free[q]
    ensures FirstFit(free).Some? ==>
      free[FirstFit(free).value] && forall q :: 0 <= q < FirstFit(free).value ==> !free[q]
  {
    CyclicFirstSpec(free, 0, NPAGES);
    CyclicFirstFullCycle(free, 0);
    if FirstFit(free).Some? {
      var j :| 0 <= j < NPAGES && FirstFit(free).value == Cyc(NPAGES, 0, j)
        && free[Cyc(NPAGES, 0, j)]
        && forall i :: 0 <= i < j ==> !free[Cyc(NPAGES, 0, i)];
      forall q | 0 <= q < FirstFit(free).value ensures !free[q] {
        assert Cyc(NPAGES, 0, q) == q;
      }
    }
  }

  /** A table that copied the kernel's mappings below PROC_START_ADDR has
      its first leaf table: the kernel maps page PAGESIZE there. */
  lemma {:induction false} LowTableExists(kpt: PageTable, pt: PageTable)
    requires KernelMapped(kpt, false) && KernelPartMapped(kpt, pt, PROC_START_ADDR) && WellFormed(pt)
    ensures pt.tables[0] != 0
  {
    assert KernelPartAt(kpt, pt, PAGESIZE);
    assert Entry(kpt, PAGESIZE) == KernelEntry(PAGESIZE, false);
    assert PAGESIZE in pt.entries;
  }

  class Kernel {
    /** `allocatable_physical_address(pa)` per page: the reserved regions
        come from the unseen memory layout, so they are a parameter. */
    const allocatable: seq<bool>
    var pages: array<nat>                 // pages[pn].refcount
    var mem: array<byte>                  // physical memory, byte-addressed
    var ptable: array<Proc<PageTable>>
    var current: nat                      // current->pid
    var ticks: nat
    var kernelPagetable: PageTable
    var pipebuf: byte                     // pipebuf[0]
    var pipebufLen: nat                   // pipebuf_len

    ghost predicate Valid()
      reads this, ptable
    {
      && |allocatable| == NPAGES && !allocatable[0]
      && pages.Length == NPAGES && mem.Length == MEMSIZE_PHYSICAL && ptable.Length == NPROC
      && current < NPROC && pipebufLen <= 1
      && EntriesWellFormed(kernelPagetable)
      && forall i :: 0 <= i < NPROC ==> ptable[i].pid == i && WellFormed(ptable[i].pagetable)
    }

    /** kalloc's grant of the first-fit page `pa` between the snapshots:
        its refcount 0 -> 1 and, after kalloc_pagetable, its bytes zeroed. */
    ghost predicate TableGranted(rb: seq<nat>, ra: seq<nat>, mb: seq<byte>, ma: seq<byte>, pa: nat)
      requires |rb| == NPAGES && |mb| == MEMSIZE_PHYSICAL && |ma| == MEMSIZE_PHYSICAL
      requires |allocatable| == NPAGES
    {
      var found := FirstFit(FreeMask(rb, allocatable));
      found.Some? && pa == found.value * PAGESIZE
      && ra == rb[found.value := 1] && FilledPage(mb, ma, pa, 0)
    }

    /**
     * What kalloc_user_pagetable takes: the first free page as the root,
     * then the next first free page as the leaf table of the low region,
     * each with refcount 1 and zeroed, and nothing else.
     */
    ghost predicate UserTableGranted(rb: seq<nat>, ra: seq<nat>, mb: seq<byte>, ma: seq<byte>, pt: PageTable)
      requires |rb| == NPAGES && |mb| == MEMSIZE_PHYSICAL && |ma| == MEMSIZE_PHYSICAL
      requires |allocatable| == NPAGES && |pt.tables| == NTABLES
    {
      var root := FirstFit(FreeMask(rb, allocatable));
      root.Some? && pt.root == root.value * PAGESIZE
      && var r1 := rb[root.value := 1];
      var leaf := FirstFit(FreeMask(r1, allocatable));
      leaf.Some? && pt.tables[0] == leaf.value * PAGESIZE && pt.tables[1] == 0
      && ra == r1[leaf.value := 1]
      && forall i :: 0 <= i < MEMSIZE_PHYSICAL ==>
           ma[i] == (if pt.root <= i < pt.root + PAGESIZE || pt.tables[0] <= i < pt.tables[0] + PAGESIZE
                     then 0 else mb[i])
    }

    /** Two table grants in a row, the root and then the low leaf table. */
    lemma {:induction false} TwoGrants(rb: seq<nat>, r1: seq<nat>, ra: seq<nat>, mb: seq<byte>, m1: seq<byte>,
                                       ma: seq<byte>, pt: PageTable)
      requires |rb| == NPAGES && |r1| == NPAGES && |mb| == MEMSIZE_PHYSICAL && |m1| == MEMSIZE_PHYSICAL
      requires |ma| == MEMSIZE_PHYSICAL && |allocatable| == NPAGES && |pt.tables| == NTABLES && pt.tables[1] == 0
      requires TableGranted(rb, r1, mb, m1, pt.root) && TableGranted(r1, ra, m1, ma, pt.tables[0])
      ensures UserTableGranted(rb, ra, mb, ma, pt)
    {
    }

    /** The state kernel_start leaves before the first process_setup. */
    constructor (allocatable: seq<bool>)
      requires |allocatable| == NPAGES && !allocatable[0]
      ensures Valid() && fresh(pages) && fresh(mem) && fresh(ptable)
      ensures this.allocatable == allocatable
      ensures forall pn :: 0 <= pn < NPAGES ==> pages[pn] == 0
      ensures forall i :: 0 <= i < NPROC ==> ptable[i] == Proc(i, Free, INIT_REGS, NULL_PAGETABLE)
      ensures current == 0 && ticks == 1 && pipebufLen == 0
    {
      this.allocatable := allocatable;
      pages := new nat[NPAGES](_ => 0);
      mem := new byte[MEMSIZE_PHYSICAL](_ => 0);
      ptable := new Proc<PageTable>[NPROC](i => Proc(i, Free, INIT_REGS, NULL_PAGETABLE));
      current := 0;
      ticks := 1;
      kernelPagetable := PageTable(0, [0, 0], map[]);
      pipebuf := 0;
      pipebufLen := 0;
    }

    /** kalloc(sz): the lowest allocatable page with refcount 0, its
        refcount raised to 1 and its bytes filled with 0xCC; null, changing
        nothing, when `sz > PAGESIZE` or no page is free. */
    method KAlloc(sz: nat) returns (pa: nat)
      requires Valid()
      modifies pages, mem
      ensures Valid()
      ensures var found := FirstFit(FreeMask(old(pages[..]), allocatable));
        if sz > PAGESIZE || found.None? then
          pa == 0 && pages[..] == old(pages[..]) && mem[..] == old(mem[..])
        else
          pa == found.value * PAGESIZE && pages[..] == old(pages[..])[found.value := 1]
          && FilledPage(old(mem[..]), mem[..], pa, 0xCC)
    {
      if sz > PAGESIZE {
        return 0;
      }
      var pn := FindFirstFree();
      if pn == -1 {
        return 0;
      }
      pa := pn * PAGESIZE;
      pages[pn] := pages[pn] + 1;
      Memset(mem, pa, 0xCC, PAGESIZE);
    }

    /** kalloc's loop: `pa` from 0 by pages up to MEMSIZE_PHYSICAL, stopping
        at the first allocatable page that is not used. */
    method FindFirstFree() returns (pn: int)
      requires Valid()
      ensures var found := FirstFit(FreeMask(pages[..], allocatable));
        (pn == -1 <==> found.None?) && (pn != -1 ==> pn == found.value)
    {
      ghost var free := FreeMask(pages[..], allocatable);
      var pa := 0;
      ghost var k := 0;
      while pa != MEMSIZE_PHYSICAL
        invariant k <= NPAGES && pa == k * PAGESIZE
        invariant CyclicFirst(free, 0, k).None?
        decreases NPAGES - k
      {
        assert pa / PAGESIZE == k && Cyc(NPAGES, 0, k) == k;
        if allocatable[pa / PAGESIZE] && pages[pa / PAGESIZE] == 0 {
          assert CyclicFirst(free, 0, k + 1) == Some(k);
          CyclicFirstStable(free, 0, k + 1, NPAGES);
          return pa / PAGESIZE;
        }
        pa := pa + PAGESIZE;
        k := k + 1;
      }
      return -1;
    }

    /** kalloc_pagetable, which is not part of this model, as WeensyOS
        defines it: a kalloc'd page, zeroed. */
    method KAllocPagetable() returns (pa: nat)
      requires Valid()
      modifies pages, mem
      ensures Valid() && PhysPage(pa)
      ensures pa == 0 ==> pages[..] == old(pages[..]) && mem[..] == old(mem[..])
      ensures pa != 0 ==> TableGranted(old(pages[..]), pages[..], old(mem[..]), mem[..], pa)
      ensures pa == 0 <==> FirstFit(FreeMask(old(pages[..]), allocatable)).None?
    {
      ghost var free := FreeMask(pages[..], allocatable);
      if FirstFit(free).Some? {
        assert allocatable[FirstFit(free).value];
      }
      pa := KAlloc(PAGESIZE);
      if pa != 0 {
        ghost var m1 := mem[..];
        Memset(mem, pa, 0, PAGESIZE);
        assert FilledPage(old(mem[..]), mem[..], pa, 0) by {
          assert FilledPage(old(mem[..]), m1, pa, 0xCC);
        }
      }
    }

    /** vmiter::try_map: install (or, for a non-present `perm`, clear) the
        entry for `va`. A missing leaf table is allocated with
        kalloc_pagetable, and the call fails with -1, changing nothing, when
        that allocation fails. */
    method TryMap(pt: PageTable, va: nat, pa: nat, perm: Perm) returns (r: int, pt': PageTable)
      requires Valid() && WellFormed(pt) && PageAligned(va) && va < MEMSIZE_VIRTUAL
      requires perm.present ==> PhysPage(pa)
      modifies pages, mem
      ensures Valid() && WellFormed(pt') && pt'.root == pt.root
      ensures r == 0 || r == -1
      ensures r == 0 ==> pt'.entries == if perm.present then pt.entries[va := Pte(pa, perm)] else pt.entries - {va}
      ensures r == -1 ==> pt' == pt && perm.present && pt.tables[Region(va)] == 0
      ensures r == -1 || pt'.tables == pt.tables ==> pages[..] == old(pages[..]) && mem[..] == old(mem[..])
      ensures pt'.tables != pt.tables ==>
        r == 0 && pt.tables[Region(va)] == 0 && pt'.tables == pt.tables[Region(va) := pt'.tables[Region(va)]]
        && TableGranted(old(pages[..]), pages[..], old(mem[..]), mem[..], pt'.tables[Region(va)])
    {
      var reg := Region(va);
      if !perm.present {
        return 0, pt.(entries := pt.entries - {va});
      }
      pt' := pt;
      if pt.tables[reg] == 0 {
        var t := KAllocPagetable();
        if t == 0 {
          return -1, pt;
        }
        pt' := pt'.(tables := pt.tables[reg := t]);
      }
      pt' := pt'.(entries := pt.entries[va := Pte(pa, perm)]);
      r := 0;
    }

    /** kalloc_user_pagetable: a fresh table holding a copy of every kernel
        mapping below PROC_START_ADDR, with the same addresses and flags;
        the null table when kalloc_pagetable fails. `ok` is false when a
        mapping fails, which vmiter::map turns into a failed assertion. */
    method KallocUserPagetable() returns (ok: bool, pt: PageTable)
      requires Valid()
      modifies pages, mem
      ensures Valid() && WellFormed(pt)
      ensures pt.root == 0 ==> ok && pt == NULL_PAGETABLE && pages[..] == old(pages[..]) && mem[..] == old(mem[..])
      ensures ok && pt.root != 0 ==> KernelPartMapped(kernelPagetable, pt, PROC_START_ADDR) && pt.tables[1] == 0
      ensures ok && pt.root != 0 && pt.tables[0] == 0 ==>
        TableGranted(old(pages[..]), pages[..], old(mem[..]), mem[..], pt.root)
      ensures ok && pt.root != 0 && pt.tables[0] != 0 ==>
        UserTableGranted(old(pages[..]), pages[..], old(mem[..]), mem[..], pt)
    {
      var root := KAllocPagetable();
      if root == 0 {
        return true, NULL_PAGETABLE;
      }
      ghost var r1, m1 := pages[..], mem[..];
      ok, pt := MapKernelPart(PageTable(root, [0, 0], map[]));
      if ok && pt.tables[0] != 0 {
        TwoGrants(old(pages[..]), r1, pages[..], old(mem[..]), m1, mem[..], pt);
      }
    }

    /** The loop of kalloc_user_pagetable: copy every kernel mapping below
        PROC_START_ADDR into the fresh table, which allocates its low leaf
        table once; `ok` is false when a mapping fails. */
    method MapKernelPart(pt0: PageTable) returns (ok: bool, pt: PageTable)
      requires Valid() && WellFormed(pt0) && pt0.root != 0 && pt0.tables == [0, 0] && pt0.entries == map[]
      modifies pages, mem
      ensures Valid() && WellFormed(pt) && pt.root == pt0.root && pt.tables[1] == 0
      ensures ok ==> KernelPartMapped(kernelPagetable, pt, PROC_START_ADDR)
      ensures pt.tables[0] == 0 ==> pages[..] == old(pages[..]) && mem[..] == old(mem[..])
      ensures pt.tables[0] != 0 ==> TableGranted(old(pages[..]), pages[..], old(mem[..]), mem[..], pt.tables[0])
    {
      pt := pt0;
      var va := 0;
      while va < PROC_START_ADDR
        invariant va <= PROC_START_ADDR && PageAligned(va) && Valid()
        invariant WellFormed(pt) && pt.root == pt0.root && pt.tables[1] == 0
        invariant KernelPartMapped(kernelPagetable, pt, va)
        invariant pt.tables[0] == 0 ==> pages[..] == old(pages[..]) && mem[..] == old(mem[..])
        invariant pt.tables[0] != 0 ==> TableGranted(old(pages[..]), pages[..], old(mem[..]), mem[..], pt.tables[0])
      {
        var e := Entry(kernelPagetable, va);
        ghost var before := pt;
        var r;
        FirstRegion(va);
        r, pt := TryMap(pt, va, e.pa, e.perm);
        if r != 0 {
          return false, pt;
        }
        KernelPartStep(kernelPagetable, before, pt, va);
        va := NextPage(va);
      }
      ok := true;
    }

    method SetProc(pid: nat, p: Proc<PageTable>)
      requires Valid() && pid < NPROC && p.pid == pid && WellFormed(p.pagetable)
      modifies ptable
      ensures Valid()
      ensures ptable[..] == old(ptable[..])[pid := p]
    {
      ptable[pid] := p;
    }

    /** One page of process_setup's mapping loops at `a` (in the window):
        `assert(!pages[a / PAGESIZE].used())`, then `++refcount` and an
        identity mapping with PTE_P | PTE_W | PTE_U. The leaf table for `a`
        exists, so the mapping allocates nothing and cannot fail. */
    method MapIdentityPage(pid: nat, pt: PageTable, seg: Segment, a: nat,
                           ghost base: PageTable, ghost done: seq<Segment>, ghost r0: seq<nat>)
      returns (ok: bool, pt': PageTable)
      requires Valid() && WindowInMemory(pid) && WellFormed(pt) && pt.tables[0] != 0 && |r0| == NPAGES
      requires IdentityMapped(pid, base, done, seg, a, pt, r0, pages[..])
      requires PageAligned(a) && Covers(seg, a) && FirstAddr(pid) <= a < LastAddr(pid)
      modifies pages, mem
      ensures Valid() && mem[..] == old(mem[..])
      ensures ok == (old(pages[a / PAGESIZE]) == 0)
      ensures ok ==> WellFormed(pt') && pt'.root == pt.root && pt'.tables == pt.tables
      ensures ok ==> IdentityMapped(pid, base, done, seg, a + PAGESIZE, pt', r0, pages[..])
    {
      if pages[a / PAGESIZE] != 0 {
        return false, pt;
      }
      ghost var r := pages[..];
      pages[a / PAGESIZE] := pages[a / PAGESIZE] + 1;
      FirstRegion(a);
      var res;
      res, pt' := TryMap(pt, a, a, PTE_PWU);
      IdentityStep(pid, base, done, seg, a, pt, pt', r0, r, pages[..]);
      ok := true;
    }

    /** process_setup's page loop for one segment, after the segments
        `done`: every page from round_down(seg.va) below seg.va + seg.size
        must lie in the window (`assert`, else `ok` is false) and be unused. */
    method MapIdentitySegment(pid: nat, pt: PageTable, seg: Segment,
                              ghost base: PageTable, ghost done: seq<Segment>, ghost r0: seq<nat>)
      returns (ok: bool, pt': PageTable)
      requires Valid() && WindowInMemory(pid) && WellFormed(pt) && pt.tables[0] != 0 && |r0| == NPAGES
      requires SegsIdentity(pid, base, done, pt, r0, pages[..])
      modifies pages, mem
      ensures Valid() && mem[..] == old(mem[..])
      ensures ok ==> WellFormed(pt') && pt'.root == pt.root && pt'.tables == pt.tables
      ensures ok ==> SegsIdentity(pid, base, done + [seg], pt', r0, pages[..])
    {
      IdentityStart(pid, base, done, seg, pt, r0, pages[..]);
      pt' := pt;
      var a := RoundDown(seg.va);
      while a < seg.va + seg.size
        invariant PageAligned(a) && RoundDown(seg.va) <= a && Valid() && mem[..] == old(mem[..])
        invariant WellFormed(pt') && pt'.root == pt.root && pt'.tables == pt.tables
        invariant IdentityMapped(pid, base, done, seg, a, pt', r0, pages[..])
        decreases seg.va + seg.size - a
      {
        if !(FirstAddr(pid) <= a < LastAddr(pid)) {
          return false, pt';
        }
        var okp;
        okp, pt' := MapIdentityPage(pid, pt', seg, a, base, done, r0);
        if !okp {
          return false, pt';
        }
        a := NextPage(a);
      }
      IdentityDone(pid, base, done, seg, a, pt', r0, pages[..]);
      ok := true;
    }

    /** process_setup's mapping loop over all segments. */
    method MapIdentitySegments(pid: nat, pt: PageTable, segs: seq<Segment>, ghost r0: seq<nat>)
      returns (ok: bool, pt': PageTable)
      requires Valid() && WindowInMemory(pid) && WellFormed(pt) && pt.tables[0] != 0
      requires r0 == pages[..]
      modifies pages, mem
      ensures Valid() && mem[..] == old(mem[..])
      ensures ok ==> WellFormed(pt') && pt'.root == pt.root && pt'.tables == pt.tables
      ensures ok ==> SegsIdentity(pid, pt, segs, pt', r0, pages[..])
    {
      IdentityInit(pid, pt, r0);
      pt' := pt;
      var i := 0;
      while i < |segs|
        invariant i <= |segs| && Valid() && mem[..] == old(mem[..])
        invariant WellFormed(pt') && pt'.root == pt.root && pt'.tables == pt.tables
        invariant SegsIdentity(pid, pt, segs[..i], pt', r0, pages[..])
      {
        var okm;
        okm, pt' := MapIdentitySegment(pid, pt', segs[i], pt, segs[..i], r0);
        if !okm {
          return false, pt';
        }
        TakeSnoc(segs, i);
        i := i + 1;
      }
      assert segs[..i] == segs;
      ok := true;
    }

    /** process_setup's stack page `last_addr - PAGESIZE`, after the
        segments `segs`: asserted unused, given refcount 1 and identity
        mapped PTE_P | PTE_W | PTE_U. */
    method MapStack(pid: nat, pt: PageTable, ghost base: PageTable, ghost segs: seq<Segment>, ghost r0: seq<nat>)
      returns (ok: bool, pt': PageTable)
      requires Valid() && WindowInMemory(pid) && WellFormed(pt) && pt.tables[0] != 0 && |r0| == NPAGES
      requires SegsIdentity(pid, base, segs, pt, r0, pages[..])
      modifies pages, mem
      ensures Valid() && mem[..] == old(mem[..])
      ensures ok ==> WellFormed(pt') && pt'.root == pt.root
      ensures ok ==> SegsIdentity(pid, base, segs + [StackSeg(pid)], pt', r0, pages[..])
    {
      var stack := LastAddr(pid) - PAGESIZE;
      StackInWindow(pid);
      IdentityStart(pid, base, segs, StackSeg(pid), pt, r0, pages[..]);
      ok, pt' := MapIdentityPage(pid, pt, StackSeg(pid), stack, base, segs, r0);
      if ok {
        IdentityDone(pid, base, segs, StackSeg(pid), stack + PAGESIZE, pt', r0, pages[..]);
      }
    }

    /** process_setup(pid, program): a user page table from
        kalloc_user_pagetable (`base`, taken when the refcounts were `r1`
        and memory `mapped`); every segment page and then the stack page
        `last_addr - PAGESIZE` checked to lie in the window and to be
        unused, given refcount 1 and identity mapped PTE_P | PTE_W | PTE_U;
        the segments copied to their own addresses; and the process made
        RUNNABLE at the entry point with %rsp = last_addr. `ok` is false
        when a kernel assertion fails or a kernel access faults, which
        panics. */
    method ProcessSetup(pid: nat, pgm: Program)
      returns (ok: bool, ghost base: PageTable, ghost r1: seq<nat>, ghost mapped: seq<byte>)
      requires Valid() && WindowInMemory(pid) && ValidProgram(pgm) && KernelMapped(kernelPagetable, false)
      modifies pages, mem, ptable
      ensures Valid()
      ensures ok ==> |r1| == NPAGES && |mapped| == MEMSIZE_PHYSICAL
      ensures ok ==> WellFormed(base) && UserTableGranted(old(pages[..]), r1, old(mem[..]), mapped, base)
      ensures ok ==>
        var pt := ptable[pid].pagetable;
        && KernelPartMapped(kernelPagetable, base, PROC_START_ADDR) && pt.root == base.root && pt.root != 0
        && SegsIdentity(pid, base, pgm.segments + [StackSeg(pid)], pt, r1, pages[..])
        && IdentityLoadable(pgm.segments) && mem[..] == LoadIdentity(mapped, pgm.segments)
        && ptable[..] == old(ptable[..])[pid := Proc(pid, Runnable, INIT_REGS.(rip := pgm.entry, rsp := LastAddr(pid)), pt)]
    {
      ghost var t0 := ptable[..];
      base, r1, mapped := NULL_PAGETABLE, [], [];
      var okp, pt := KallocUserPagetable();
      if !okp || pt.root == 0 {
        // a failed mapping, or mapping through the null table: a panic
        return false, base, r1, mapped;
      }
      base, r1, mapped := pt, pages[..], mem[..];
      assert WellFormed(base) && UserTableGranted(old(pages[..]), r1, old(mem[..]), mapped, base) by {
        LowTableExists(kernelPagetable, pt);
      }
      LowTableExists(kernelPagetable, pt);
      ok, pt := MapIdentitySegments(pid, pt, pgm.segments, r1);
      if !ok {
        return;
      }
      ok := LoadIdentitySegments(mem, pgm.segments);
      if !ok {
        return;
      }
      ok, pt := MapStack(pid, pt, base, pgm.segments, r1);
      if !ok {
        return;
      }
      assert ptable[..] == t0;
      SetProc(pid, Proc(pid, Runnable, INIT_REGS.(rip := pgm.entry, rsp := LastAddr(pid)), pt));
    }

    /** run(p): `p` must be RUNNABLE (a failed assertion otherwise); it
        becomes current and control returns to it. */
    method Run(pid: nat) returns (o: Outcome)
      requires Valid() && pid < NPROC
      modifies this`current
      ensures Valid()
      ensures ptable[pid].state == Runnable ==> o == Resume(pid) && current == pid
      ensures ptable[pid].state != Runnable ==> o == Halt && current == old(current)
    {
      if ptable[pid].state != Runnable {
        return Halt;
      }
      current := pid;
      return Resume(pid);
    }

    /** schedule(): try pid + 1, pid + 2, ... (mod NPROC) from the current
        pid and run the first RUNNABLE one; `Idle` when NPROC probes find
        none (the real loop goes on spinning). */
    method Schedule() returns (o: Outcome)
      requires Valid()
      modifies this`current
      ensures Valid()
      ensures Scheduled(ptable[..], old(current), o, current, old(current))
    {
      var next := ScanRunnable(ptable[..], current);
      if next.Some? {
        o := Run(next.value);
      } else {
        o := Idle;
      }
    }

    /** The end of exception: run the current process again if it is still
        RUNNABLE, else call the scheduler. */
    method ResumeOrSchedule() returns (o: Outcome)
      requires Valid()
      modifies this`current
      ensures Valid()
      ensures ptable[old(current)].state == Runnable ==> o == Resume(old(current)) && current == old(current)
      ensures ptable[old(current)].state != Runnable ==> Scheduled(ptable[..], old(current), o, current, old(current))
    {
      if ptable[current].state == Runnable {
        o := Run(current);
      } else {
        o := Schedule();
      }
    }

    /** exception(regs): save the trap registers into the current process;
        a timer interrupt counts a tick and reschedules; a page fault, a
        general protection fault or any other vector breaks the current
        process when it came from user mode (`cs & 3`) and panics when it
        came from the kernel. A broken process is not resumed: the
        scheduler runs. */
    method Exception(regs: Regs) returns (o: Outcome)
      requires Valid()
      modifies this`current, this`ticks, ptable
      ensures Valid()
      ensures var saved := old(ptable[..])[old(current) := old(ptable[current]).(regs := regs)];
        if regs.intno == INT_IRQ + IRQ_TIMER then
          ticks == old(ticks) + 1 && ptable[..] == saved && Scheduled(saved, old(current), o, current, old(current))
        else if FromUser(regs.cs) then
          var broken := saved[old(current) := saved[old(current)].(state := Broken)];
          ticks == old(ticks) && ptable[..] == broken && Scheduled(broken, old(current), o, current, old(current))
        else
          o == Halt && ticks == old(ticks) && ptable[..] == saved
    {
      SetProc(current, ptable[current].(regs := regs));
      if regs.intno == INT_IRQ + IRQ_TIMER {
        ticks := ticks + 1;
        o := Schedule();
        return;
      }
      // INT_PF, INT_GP and every other vector reach `unhandled`
      if !FromUser(regs.cs) {
        return Halt;
      }
      SetProc(current, ptable[current].(state := Broken));
      o := ResumeOrSchedule();
    }

    /** syscall_pipewrite: for `sz == 0` return 0; with the one-byte buffer
        full return -1; otherwise store the byte at user address `buf` (a
        kernel access that faults, and panics, outside kernel-accessible
        memory), mark the buffer full and return 1. */
    method PipeWrite(buf: nat, sz: nat) returns (o: Outcome)
      requires Valid()
      modifies this`pipebuf, this`pipebufLen
      ensures Valid()
      ensures sz == 0 ==> o == Return(0) && pipebuf == old(pipebuf) && pipebufLen == old(pipebufLen)
      ensures sz != 0 && old(pipebufLen) == 1 ==> o == Return(-1) && pipebuf == old(pipebuf) && pipebufLen == 1
      ensures sz != 0 && old(pipebufLen) == 0 ==>
        if KernelAccessible(buf, 1) then o == Return(1) && pipebuf == mem[buf] && pipebufLen == 1
        else o == Halt && pipebuf == old(pipebuf) && pipebufLen == 0
    {
      if sz == 0 {
        return Return(0);
      } else if pipebufLen == 1 {
        return Return(-1);
      }
      if !KernelAccessible(buf, 1) {
        return Halt;
      }
      pipebuf := mem[buf];
      pipebufLen := 1;
      return Return(1);
    }

    /** syscall_piperead: for `sz == 0` return 0; with the buffer empty
        return -1; otherwise store the buffered byte at user address `buf`,
        mark the buffer empty and return 1. */
    method PipeRead(buf: nat, sz: nat) returns (o: Outcome)
      requires Valid()
      modifies this`pipebufLen, mem
      ensures Valid() && pipebuf == old(pipebuf)
      ensures sz == 0 ==> o == Return(0) && pipebufLen == old(pipebufLen) && mem[..] == old(mem[..])
      ensures sz != 0 && old(pipebufLen) == 0 ==> o == Return(-1) && pipebufLen == 0 && mem[..] == old(mem[..])
      ensures sz != 0 && old(pipebufLen) == 1 ==>
        if KernelAccessible(buf, 1) then o == Return(1) && pipebufLen == 0 && mem[..] == old(mem[..])[buf := pipebuf]
        else o == Halt && pipebufLen == 1 && mem[..] == old(mem[..])
    {
      if sz == 0 {
        return Return(0);
      } else if pipebufLen == 0 {
        return Return(-1);
      }
      if !KernelAccessible(buf, 1) {
        return Halt;
      }
      mem[buf] := pipebuf;
      pipebufLen := 0;
      return Return(1);
    }

    /** GETSYSNAME: strncpy of the OS name into the user buffer `buf` of
        `bufsz` bytes; the result is the name's length, 12, whatever
        `bufsz` is. */
    method GetSysname(buf: nat, bufsz: nat) returns (o: Outcome)
      requires Valid()
      modifies mem
      ensures KernelAccessible(buf, bufsz) ==> o == Return(|OSNAME|)
      ensures KernelAccessible(buf, bufsz) && bufsz > 0 ==>
        mem[..] == Splice(old(mem[..]), buf, StrncpyImage(OSNAME, bufsz))
      ensures bufsz == 0 ==> mem[..] == old(mem[..])
      ensures !KernelAccessible(buf, bufsz) ==> o == Halt && mem[..] == old(mem[..])
    {
      if !KernelAccessible(buf, bufsz) {
        return Halt;
      }
      if bufsz > 0 {
        Memcpy(mem, buf, StrncpyImage(OSNAME, bufsz));
      }
      return Return(|OSNAME|);
    }

    /** syscall(regs): save the registers into the current process and
        dispatch on the number in %rax. PANIC and unknown numbers panic;
        GETPID returns the pid and GETTICKS the tick count; YIELD stores 0
        as the saved %rax and reschedules; GETSYSNAME, PIPEWRITE and
        PIPEREAD take the buffer from %rdi and its size from %rsi. */
    method Syscall(regs: Regs) returns (o: Outcome)
      requires Valid()
      modifies this`current, this`pipebuf, this`pipebufLen, mem, ptable
      ensures Valid()
      ensures var cur := old(current);
        var saved := old(ptable[..])[cur := old(ptable[cur]).(regs := regs)];
        && (regs.rax == SYSCALL_PANIC ==> o == Halt)
        && (regs.rax == SYSCALL_GETPID ==> o == Return(cur) && ptable[..] == saved && current == cur)
        && (regs.rax == SYSCALL_GETTICKS ==> o == Return(ticks) && ptable[..] == saved && current == cur)
        && (regs.rax == SYSCALL_YIELD ==>
              var yielded := saved[cur := saved[cur].(regs := regs.(rax := 0))];
              ptable[..] == yielded && Scheduled(yielded, cur, o, current, cur))
        && (regs.rax == SYSCALL_GETPID || regs.rax == SYSCALL_GETTICKS || regs.rax == SYSCALL_YIELD ==>
              mem[..] == old(mem[..]) && pipebuf == old(pipebuf) && pipebufLen == old(pipebufLen))
        && (regs.rax == SYSCALL_GETSYSNAME ==>
              ptable[..] == saved && current == cur
              && o == (if KernelAccessible(regs.rdi, regs.rsi) then Return(12) else Halt)
              && pipebuf == old(pipebuf) && pipebufLen == old(pipebufLen)
              && mem[..] == if KernelAccessible(regs.rdi, regs.rsi) && regs.rsi > 0
                            then Splice(old(mem[..]), regs.rdi, StrncpyImage(OSNAME, regs.rsi))
                            else old(mem[..]))
        && (regs.rax == SYSCALL_PIPEWRITE ==>
              ptable[..] == saved && current == cur
              && o == (if regs.rsi == 0 then Return(0) else if old(pipebufLen) == 1 then Return(-1)
                       else if KernelAccessible(regs.rdi, 1) then Return(1) else Halt)
              && mem[..] == old(mem[..])
              && (o == Return(1) ==> pipebuf == mem[regs.rdi] && pipebufLen == 1)
              && (o != Return(1) ==> pipebuf == old(pipebuf) && pipebufLen == old(pipebufLen)))
        && (regs.rax == SYSCALL_PIPEREAD ==>
              ptable[..] == saved && current == cur
              && o == (if regs.rsi == 0 then Return(0) else if old(pipebufLen) == 0 then Return(-1)
                       else if KernelAccessible(regs.rdi, 1) then Return(1) else Halt)
              && pipebuf == old(pipebuf)
              && (o == Return(1) ==> pipebufLen == 0 && mem[..] == old(mem[..])[regs.rdi := old(pipebuf)])
              && (o != Return(1) ==> pipebufLen == old(pipebufLen) && mem[..] == old(mem[..])))
        && (!KnownSyscall(regs.rax) ==> o == Halt)
    {
      SetProc(current, ptable[current].(regs := regs));
      if regs.rax == SYSCALL_PANIC {
        return Halt;
      } else if regs.rax == SYSCALL_GETPID {
        return Return(current);
      } else if regs.rax == SYSCALL_GETTICKS {
        return Return(ticks);
      } else if regs.rax == SYSCALL_YIELD {
        SetProc(current, ptable[current].(regs := ptable[current].regs.(rax := 0)));
        o := Schedule();
      } else if regs.rax == SYSCALL_GETSYSNAME {
        o := GetSysname(regs.rdi, regs.rsi);
      } else if regs.rax == SYSCALL_PIPEWRITE {
        o := PipeWrite(regs.rdi, regs.rsi);
      } else if regs.rax == SYSCALL_PIPEREAD {
        o := PipeRead(regs.rdi, regs.rsi);
      } else {
        return Halt;
      }
    }

    /** kernel_start's flag loop over the kernel page table: every page of
        physical memory identity mapped with PTE_P | PTE_W, plus PTE_U at
        CONSOLE_ADDR only, and address 0 mapped with no permissions. */
    method InitKernelPagetable()
      requires Valid()
      modifies this`kernelPagetable
      ensures Valid() && KernelMapped(kernelPagetable, false)
      ensures forall va :: va >= MEMSIZE_PHYSICAL ==> Entry(kernelPagetable, va) == Entry(old(kernelPagetable), va)
    {
      kernelPagetable := MapKernelRange(kernelPagetable, false);
    }
  }
}
