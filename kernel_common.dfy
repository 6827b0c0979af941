/** Types, layout constants and specification functions shared by the three
    WeensyOS kernel variants (psets/pset3, kernel8 and kernel4).

    The layout constants are the WeensyOS defaults that the kernels read from
    kernel.hh and x86-64.h; those headers are not part of this model. */
module WeensyCommon {

  newtype byte = x: int | 0 <= x < 256

  datatype Option<T> = None | Some(value: T)

  const PAGESIZE: nat := 4096
  const MEMSIZE_PHYSICAL: nat := 0x200000
  const MEMSIZE_VIRTUAL: nat := 0x300000
  const PROC_START_ADDR: nat := 0x100000
  const CONSOLE_ADDR: nat := 0xB8000
  const NPROC: nat := 16
  const NPAGES: nat := 512               // MEMSIZE_PHYSICAL / PAGESIZE
  const PROC_SIZE: nat := 0x40000

  /** One leaf page-table page covers 512 pages (2 MiB) of virtual memory;
      the process address space below MEMSIZE_VIRTUAL needs NTABLES of them. */
  const PTRANGE: nat := 0x200000
  const NTABLES: nat := 2

  // x86-64 trap numbers and page-fault error-code bits
  const INT_GP: nat := 13
  const INT_PF: nat := 14
  const INT_IRQ: nat := 32
  const IRQ_TIMER: nat := 0
  const PFERR_PRESENT: nat := 1
  const PFERR_WRITE: nat := 2
  const PFERR_USER: nat := 4

  /** True iff bit `b` (a power of two) is set in `x`: the source's `x & b`. */
  predicate BitSet(x: nat, b: nat)
    requires b > 0
  {
    (x / b) % 2 == 1
  }

  /** `(cs & 3) != 0`: the trap came from user mode. */
  predicate FromUser(cs: nat) {
    cs % 4 != 0
  }

  predicate PageAligned(a: int) {
    a % PAGESIZE == 0
  }

  /** Distinct page-aligned addresses are at least a page apart. */
  lemma {:induction false} AlignedGap(a: nat, b: nat)
    requires PageAligned(a) && PageAligned(b) && a < b
    ensures a + PAGESIZE <= b
  {
  }

  /** The next page's address: stepping a page-aligned address by one page
      keeps it aligned. */
  function NextPage(a: nat): (r: nat)
    requires PageAligned(a)
    ensures r == a + PAGESIZE && PageAligned(r)
  {
    a + PAGESIZE
  }

  function RoundDown(a: nat): (r: nat)
    ensures r <= a < r + PAGESIZE && PageAligned(r)
  {
    a - a % PAGESIZE
  }

  /** The permission bits PTE_P, PTE_W and PTE_U of a page-table entry. */
  datatype Perm = Perm(present: bool, writable: bool, user: bool)

  const PTE_NONE := Perm(false, false, false)
  const PTE_PW := Perm(true, true, false)
  const PTE_PU := Perm(true, false, true)
  const PTE_PWU := Perm(true, true, true)

  datatype Pte = Pte(pa: nat, perm: Perm)

  const UNMAPPED := Pte(0, PTE_NONE)

  /** A page-table tree: the root page, one leaf table page per 2 MiB region
      (0 when that leaf has not been allocated) and the present mappings,
      keyed by page-aligned virtual address. A root of 0 is the null pointer. */
  datatype PageTable = PageTable(root: nat, tables: seq<nat>, entries: map<nat, Pte>)

  const NULL_PAGETABLE := PageTable(0, [0, 0], map[])

  function Region(va: nat): nat {
    va / PTRANGE
  }

  /** Physical addresses all fall in the first region of a page table. */
  lemma {:induction false} FirstRegion(va: nat)
    requires va < MEMSIZE_PHYSICAL
    ensures Region(va) == 0
  {
  }

  /** What `vmiter::pa()`/`perm()` report for `va`: an absent entry reads as
      pa 0 with no permission bits. */
  function Entry(pt: PageTable, va: nat): Pte {
    if va in pt.entries then pt.entries[va] else UNMAPPED
  }

  /** `vmiter::user()`: present and user-accessible. */
  predicate IsUser(pt: PageTable, va: nat) {
    Entry(pt, va).perm.present && Entry(pt, va).perm.user
  }

  /** `vmiter::writable()`: present and writable. */
  predicate IsWritable(pt: PageTable, va: nat) {
    Entry(pt, va).perm.present && Entry(pt, va).perm.writable
  }

  /** A physical address that `kfree`/refcount updates can index. */
  predicate PhysPage(pa: nat) {
    PageAligned(pa) && pa < MEMSIZE_PHYSICAL
  }

  /** Shape of a page table: leaf pointers and mapped physical pages are
      page-aligned physical addresses, entries are present and page-aligned,
      and every entry lies in a region whose leaf table exists. */
  predicate WellFormed(pt: PageTable) {
    && PhysPage(pt.root)
    && |pt.tables| == NTABLES
    && (forall r :: 0 <= r < NTABLES ==> PhysPage(pt.tables[r]))
    && EntriesWellFormed(pt)
    && (forall va :: va in pt.entries ==> pt.tables[Region(va)] != 0)
  }

  /** The entries alone: present, page-aligned, below MEMSIZE_VIRTUAL and
      pointing at physical pages. */
  predicate EntriesWellFormed(pt: PageTable) {
    forall va :: va in pt.entries ==>
      && PageAligned(va) && va < MEMSIZE_VIRTUAL
      && pt.entries[va].perm.present && PhysPage(pt.entries[va].pa)
  }

  /** A kernel-mode access to `[a, a + n)` through the kernel page table
      touches only mapped memory: that table maps every page of physical
      memory except page 0 (perm 0) and nothing beyond MEMSIZE_PHYSICAL. Any
      other access is a kernel page fault, which panics. */
  predicate KernelAccessible(a: nat, n: nat) {
    n == 0 || (PAGESIZE <= a && a + n <= MEMSIZE_PHYSICAL)
  }

  datatype ProcState = Free | Runnable | Broken

  /** The saved registers the kernel reads or writes. */
  datatype Regs = Regs(rax: nat, rdi: nat, rsi: nat, rip: nat, rsp: nat,
                       cs: nat, intno: nat, errcode: nat)

  /** `init_process`: zeroed registers with a user-mode (privilege 3) code
      segment selector; the rest of that routine is not part of this model. */
  const INIT_REGS := Regs(0, 0, 0, 0, 0, 3, 0, 0)

  /** A process descriptor; `pagetable` is the address-space handle. */
  datatype Proc<P> = Proc(pid: nat, state: ProcState, regs: Regs, pagetable: P)

  /** A program-image segment: its virtual range, its initialised bytes
      (`data_size == |data|`) and whether it is writable. */
  datatype Segment = Segment(va: nat, size: nat, data: seq<byte>, writable: bool)

  datatype Program = Program(segments: seq<Segment>, entry: nat)

  /** What the loader promises about an image: each segment's initialised
      prefix fits in it and the segment lies below MEMSIZE_VIRTUAL. */
  predicate ValidProgram(pgm: Program) {
    forall i :: 0 <= i < |pgm.segments| ==>
      |pgm.segments[i].data| <= pgm.segments[i].size &&
      pgm.segments[i].va + pgm.segments[i].size <= MEMSIZE_VIRTUAL
  }

  /** How a trap handler leaves the kernel: `Halt` is a panic (or a failed
      kernel assertion), `Resume(pid)` is `run(&ptable[pid])`, `Idle` is the
      scheduler spinning because nothing is runnable, and `Return(v)` is a
      system call returning `v` to the current process. */
  datatype Outcome = Halt | Resume(pid: nat) | Idle | Return(value: int)

  /** The `j`-th position (`j < n`) of a cyclic scan of `n` slots that
      starts at slot `first`: `(first + j) % n`. */
  function Cyc(n: nat, first: nat, j: nat): (p: nat)
    requires first < n && j < n
    ensures p < n
  {
    if first + j < n then first + j else first + j - n
  }

  /** The first slot marked in `ok` among the first `k` positions of the
      cyclic scan from `first` (the shape of both kalloc's page scan and the
      scheduler's pid scan), if any. */
  function CyclicFirst(ok: seq<bool>, first: nat, k: nat): (r: Option<nat>)
    requires first < |ok| && k <= |ok|
    ensures r.Some? ==> r.value < |ok| && ok[r.value]
    decreases k
  {
    if k == 0 then None
    else
      var earlier := CyclicFirst(ok, first, k - 1);
      if earlier.Some? then earlier
      else if ok[Cyc(|ok|, first, k - 1)] then Some(Cyc(|ok|, first, k - 1))
      else None
  }

  /** A found slot is marked, is the `j`-th position for some `j < k`, and no
      earlier position is marked; `None` means no position below `k` is. */
  lemma {:induction false} CyclicFirstSpec(ok: seq<bool>, first: nat, k: nat)
    requires first < |ok| && k <= |ok|
    ensures CyclicFirst(ok, first, k).Some? ==>
      exists j :: 0 <= j < k && CyclicFirst(ok, first, k).value == Cyc(|ok|, first, j)
        && ok[Cyc(|ok|, first, j)]
        && forall i :: 0 <= i < j ==> !ok[Cyc(|ok|, first, i)]
    ensures CyclicFirst(ok, first, k).None? ==>
      forall i :: 0 <= i < k ==> !ok[Cyc(|ok|, first, i)]
  {
    if k > 0 {
      CyclicFirstSpec(ok, first, k - 1);
      if CyclicFirst(ok, first, k - 1).Some? {
        var j :| 0 <= j < k - 1 && CyclicFirst(ok, first, k - 1).value == Cyc(|ok|, first, j)
          && ok[Cyc(|ok|, first, j)]
          && forall i :: 0 <= i < j ==> !ok[Cyc(|ok|, first, i)];
        assert 0 <= j < k;
      }
    }
  }

  /** Once found, a longer scan finds the same slot. */
  lemma {:induction false} CyclicFirstStable(ok: seq<bool>, first: nat, k: nat, k': nat)
    requires first < |ok| && k <= k' <= |ok| && CyclicFirst(ok, first, k).Some?
    ensures CyclicFirst(ok, first, k') == CyclicFirst(ok, first, k)
    decreases k'
  {
    if k' > k {
      CyclicFirstStable(ok, first, k, k' - 1);
    }
  }

  /** Over one full cycle the scan misses nothing: it finds a slot iff some
      slot is marked. */
  lemma {:induction false} CyclicFirstFullCycle(ok: seq<bool>, first: nat)
    requires first < |ok|
    ensures CyclicFirst(ok, first, |ok|).None? <==> forall p :: 0 <= p < |ok| ==> !ok[p]
  {
    CyclicFirstSpec(ok, first, |ok|);
    if CyclicFirst(ok, first, |ok|).None? {
      forall p | 0 <= p < |ok| ensures !ok[p] {
        var i := if p >= first then p - first else p + |ok| - first;
        assert Cyc(|ok|, first, i) == p;
      }
    }
  }

  /** Which slots of a process table are RUNNABLE. */
  function RunnableMask<P>(procs: seq<Proc<P>>): (m: seq<bool>)
    requires |procs| == NPROC
    ensures |m| == NPROC
    ensures forall p :: 0 <= p < NPROC ==> (m[p] <==> procs[p].state == Runnable)
  {
    seq(NPROC, p requires 0 <= p < NPROC => procs[p].state == Runnable)
  }

  /** The `j`-th pid `schedule` tries after `from`, counting from 0. */
  function SchedProbe(from: nat, j: nat): nat
    requires from < NPROC && j < NPROC
  {
    Cyc(NPROC, (from + 1) % NPROC, j)
  }

  /** `schedule`'s choice after `from`: it tries `from + 1, from + 2, ...`
      (mod NPROC) and `from` itself last. */
  function NextRunnable<P>(procs: seq<Proc<P>>, from: nat): (r: Option<nat>)
    requires |procs| == NPROC && from < NPROC
  {
    CyclicFirst(RunnableMask(procs), (from + 1) % NPROC, NPROC)
  }

  /** The scheduler picks a RUNNABLE pid whenever one exists, and the one it
      picks is the first RUNNABLE slot after `from` in round-robin order. */
  lemma {:induction false} NextRunnableRoundRobin<P>(procs: seq<Proc<P>>, from: nat)
    requires |procs| == NPROC && from < NPROC
    ensures NextRunnable(procs, from).None? <==> forall p :: 0 <= p < NPROC ==> procs[p].state != Runnable
    ensures NextRunnable(procs, from).Some? ==>
      exists j :: 0 <= j < NPROC && NextRunnable(procs, from).value == SchedProbe(from, j)
        && procs[SchedProbe(from, j)].state == Runnable
        && forall i :: 0 <= i < j ==> procs[SchedProbe(from, i)].state != Runnable
  {
    var m := RunnableMask(procs);
    var f := (from + 1) % NPROC;
    CyclicFirstSpec(m, f, NPROC);
    CyclicFirstFullCycle(m, f);
    if NextRunnable(procs, from).Some? {
      var j :| 0 <= j < NPROC && CyclicFirst(m, f, NPROC).value == Cyc(NPROC, f, j)
        && m[Cyc(NPROC, f, j)]
        && forall i :: 0 <= i < j ==> !m[Cyc(NPROC, f, i)];
      assert SchedProbe(from, j) == Cyc(NPROC, f, j);
      assert forall i :: 0 <= i < j ==> procs[SchedProbe(from, i)].state != Runnable by {
        forall i | 0 <= i < j ensures procs[SchedProbe(from, i)].state != Runnable {
          assert !m[Cyc(NPROC, f, i)];
        }
      }
    }
  }

  /** Which physical pages are free: allocatable and with refcount 0. */
  function FreeMask(refc: seq<nat>, allocatable: seq<bool>): (m: seq<bool>)
    requires |refc| == NPAGES && |allocatable| == NPAGES
    ensures |m| == NPAGES
    ensures forall pn :: 0 <= pn < NPAGES ==> (m[pn] <==> allocatable[pn] && refc[pn] == 0)
  {
    seq(NPAGES, pn requires 0 <= pn < NPAGES => allocatable[pn] && refc[pn] == 0)
  }

  /** How `schedule()` leaves the kernel when it starts after pid `from`
      with `procs` as the process table: it runs the first RUNNABLE slot in
      round-robin order, making it current, or spins (`Idle`) with `cur`
      still current when there is none. */
  predicate Scheduled<P>(procs: seq<Proc<P>>, from: nat, o: Outcome, cur': nat, cur: nat)
    requires |procs| == NPROC && from < NPROC
  {
    var next := NextRunnable(procs, from);
    if next.Some? then o == Resume(next.value) && cur' == next.value
    else o == Idle && cur' == cur
  }

  /** A segment's bytes in memory: its data, then zeros to its size. */
  function SegImage(seg: Segment): (b: seq<byte>)
    requires |seg.data| <= seg.size
    ensures |b| == seg.size
  {
    seg.data + seq(seg.size - |seg.data|, _ => 0 as byte)
  }

  /** `m` with `b` written at `at`. */
  function Splice(m: seq<byte>, at: nat, b: seq<byte>): (r: seq<byte>)
    requires at + |b| <= |m|
    ensures |r| == |m|
    ensures forall i :: 0 <= i < |m| ==> r[i] == if at <= i < at + |b| then b[i - at] else m[i]
  {
    m[..at] + b + m[at + |b|..]
  }

  /** The first `va` bytes of the kernel's mappings have been copied into `pt`, and
      nothing else is mapped (process_setup and kalloc_user_pagetable). */
  ghost predicate KernelPartMapped(kpt: PageTable, pt: PageTable, va: nat) {
    && (forall v :: v in pt.entries ==> v < va)
    && (forall v: nat :: PageAligned(v) && v < va ==> KernelPartAt(kpt, pt, v))
  }

  ghost predicate KernelPartAt(kpt: PageTable, pt: PageTable, v: nat) {
    Entry(pt, v) == Entry(kpt, v)
  }

  lemma {:induction false} KernelPartStep(kpt: PageTable, pt: PageTable, pt': PageTable, va: nat)
    requires KernelPartMapped(kpt, pt, va) && PageAligned(va) && EntriesWellFormed(kpt)
    requires pt'.entries == if Entry(kpt, va).perm.present then pt.entries[va := Entry(kpt, va)] else pt.entries - {va}
    ensures KernelPartMapped(kpt, pt', va + PAGESIZE)
  {
    forall v | v in pt'.entries ensures v < va + PAGESIZE {
      if v != va {
        assert v in pt.entries;
      }
    }
    forall v: nat | PageAligned(v) && v < va + PAGESIZE ensures KernelPartAt(kpt, pt', v) {
      if v != va {
        assert Entry(pt', v) == Entry(pt, v);
        assert KernelPartAt(kpt, pt, v);
      } else if !Entry(kpt, va).perm.present {
        assert va !in kpt.entries;
      }
    }
  }

  /** schedule's loop, over a snapshot of the process table: try
      `from + 1, from + 2, ...` (mod NPROC) for NPROC steps. */
  method ScanRunnable<P>(procs: seq<Proc<P>>, from: nat) returns (next: Option<nat>)
    requires |procs| == NPROC && from < NPROC
    ensures next == NextRunnable(procs, from)
  {
    ghost var mask := RunnableMask(procs);
    ghost var first := (from + 1) % NPROC;
    var pid := from;
    var spins := 0;
    while spins < NPROC
      invariant spins <= NPROC && pid < NPROC
      invariant spins == 0 ==> pid == from
      invariant spins > 0 ==> pid == SchedProbe(from, spins - 1)
      invariant CyclicFirst(mask, first, spins).None?
    {
      pid := (pid + 1) % NPROC;
      assert pid == SchedProbe(from, spins);
      if procs[pid].state == Runnable {
        assert CyclicFirst(mask, first, spins + 1) == Some(pid);
        CyclicFirstStable(mask, first, spins + 1, NPROC);
        return Some(pid);
      }
      spins := spins + 1;
    }
    return None;
  }


  /** `memset(p, v, n)` through the kernel page table, which maps
      physical memory one to one. */
  method Memset(mem: array<byte>, p: nat, v: byte, n: nat)
    requires mem.Length == MEMSIZE_PHYSICAL && p + n <= MEMSIZE_PHYSICAL
    modifies mem
    ensures forall j :: 0 <= j < MEMSIZE_PHYSICAL ==> mem[j] == if p <= j < p + n then v else old(mem[j])
  {
    var i := 0;
    while i < n
      invariant i <= n
      invariant forall j :: 0 <= j < MEMSIZE_PHYSICAL ==> mem[j] == if p <= j < p + i then v else old(mem[j])
    {
      mem[p + i] := v;
      i := i + 1;
    }
  }

  /** `memcpy(p, data, |data|)` through the kernel page table. */
  method Memcpy(mem: array<byte>, p: nat, data: seq<byte>)
    requires mem.Length == MEMSIZE_PHYSICAL && p + |data| <= MEMSIZE_PHYSICAL
    modifies mem
    ensures mem[..] == Splice(old(mem[..]), p, data)
  {
    var i := 0;
    while i < |data|
      invariant i <= |data|
      invariant forall j :: 0 <= j < MEMSIZE_PHYSICAL ==> mem[j] == if p <= j < p + i then data[j - p] else old(mem[j])
    {
      mem[p + i] := data[i];
      i := i + 1;
    }
    assert mem[..] == Splice(old(mem[..]), p, data);
  }

  /** The kernel page table's entry for page-aligned `va` below
      MEMSIZE_PHYSICAL after kernel_start's flag loop: nothing at all at
      address 0, and elsewhere identity mapped and writable, user-accessible
      at the console page and, when `procUser` (the psets/pset3 kernel), also
      from PROC_START_ADDR up. */
  function KernelEntry(va: nat, procUser: bool): Pte {
    if va == 0 then UNMAPPED
    else Pte(va, Perm(true, true, (procUser && va >= PROC_START_ADDR) || va == CONSOLE_ADDR))
  }

  ghost predicate KernelMapped(kpt: PageTable, procUser: bool) {
    forall va: nat :: PageAligned(va) && va < MEMSIZE_PHYSICAL ==> Entry(kpt, va) == KernelEntry(va, procUser)
  }

  /** The flag loop has set the kernel entries below `va`; the rest of
      `kpt` is as in `kpt0`. */
  ghost predicate KernelRangeMapped(kpt0: PageTable, kpt: PageTable, va: nat, procUser: bool) {
    && (forall v: nat :: PageAligned(v) && v < va ==> KernelEntryAt(kpt, v, procUser))
    && (forall v: nat :: v >= va ==> EntryKept(kpt0, kpt, v))
  }

  ghost predicate KernelEntryAt(kpt: PageTable, v: nat, procUser: bool) {
    Entry(kpt, v) == KernelEntry(v, procUser)
  }

  ghost predicate EntryKept(kpt0: PageTable, kpt: PageTable, v: nat) {
    Entry(kpt, v) == Entry(kpt0, v)
  }

  lemma {:induction false} KernelRangeStep(kpt0: PageTable, kpt: PageTable, kpt': PageTable, va: nat, procUser: bool)
    requires KernelRangeMapped(kpt0, kpt, va, procUser) && PageAligned(va)
    requires kpt'.entries == if va != 0 then kpt.entries[va := KernelEntry(va, procUser)] else kpt.entries - {va}
    ensures KernelRangeMapped(kpt0, kpt', va + PAGESIZE, procUser)
  {
    forall v: nat | PageAligned(v) && v < va + PAGESIZE ensures KernelEntryAt(kpt', v, procUser) {
      if v != va {
        assert KernelEntryAt(kpt, v, procUser);
      }
    }
    forall v: nat | v >= va + PAGESIZE ensures EntryKept(kpt0, kpt', v) {
      assert EntryKept(kpt0, kpt, v);
    }
  }

  lemma {:induction false} KernelRangeDone(kpt0: PageTable, kpt: PageTable, procUser: bool)
    requires KernelRangeMapped(kpt0, kpt, MEMSIZE_PHYSICAL, procUser)
    ensures KernelMapped(kpt, procUser)
    ensures forall va :: va >= MEMSIZE_PHYSICAL ==> Entry(kpt, va) == Entry(kpt0, va)
  {
    forall va: nat | PageAligned(va) && va < MEMSIZE_PHYSICAL ensures Entry(kpt, va) == KernelEntry(va, procUser) {
      assert KernelEntryAt(kpt, va, procUser);
    }
    forall va: nat | va >= MEMSIZE_PHYSICAL ensures Entry(kpt, va) == Entry(kpt0, va) {
      assert EntryKept(kpt0, kpt, va);
    }
  }

  /** kernel_start's flag loop, on the kernel table's value: every page of
      physical memory identity mapped with PTE_P | PTE_W, plus PTE_U as
      KernelEntry says, and address 0 mapped with no permissions at all.
      The kernel table's own page-table pages are static, so these mappings
      allocate nothing. */
  method MapKernelRange(kpt: PageTable, procUser: bool) returns (kpt': PageTable)
    requires EntriesWellFormed(kpt)
    ensures EntriesWellFormed(kpt') && KernelMapped(kpt', procUser)
    ensures forall va :: va >= MEMSIZE_PHYSICAL ==> Entry(kpt', va) == Entry(kpt, va)
  {
    kpt' := kpt;
    var va := 0;
    while va < MEMSIZE_PHYSICAL
      invariant va <= MEMSIZE_PHYSICAL && PageAligned(va) && EntriesWellFormed(kpt')
      invariant KernelRangeMapped(kpt, kpt', va, procUser)
    {
      ghost var prev := kpt';
      if va != 0 {
        var perm := Perm(true, true, (procUser && va >= PROC_START_ADDR) || va == CONSOLE_ADDR);
        kpt' := kpt'.(entries := kpt'.entries[va := Pte(va, perm)]);
      } else {
        kpt' := kpt'.(entries := kpt'.entries - {va});
      }
      KernelRangeStep(kpt, prev, kpt', va, procUser);
      va := NextPage(va);
    }
    KernelRangeDone(kpt, kpt', procUser);
  }

  /** With the flag loop's table, a kernel access to `[a, a + n)` inside
      physical memory goes through present entries exactly when it is
      KernelAccessible: only page 0 is missing. */
  lemma {:induction false} KernelMappedAccessible(kpt: PageTable, a: nat, n: nat, procUser: bool)
    requires KernelMapped(kpt, procUser) && a + n <= MEMSIZE_PHYSICAL
    ensures KernelAccessible(a, n) <==> forall v :: a <= v < a + n ==> Entry(kpt, RoundDown(v)).perm.present
  {
    if n > 0 && a < PAGESIZE {
      assert RoundDown(a) == 0;
      assert !Entry(kpt, RoundDown(a)).perm.present;
    }
    if KernelAccessible(a, n) {
      forall v | a <= v < a + n ensures Entry(kpt, RoundDown(v)).perm.present {
        assert RoundDown(v) != 0;
      }
    }
  }

  /** process_setup's page loop for `seg` visits page-aligned `va`: it runs
      from round_down(seg.va) while below seg.va + seg.size. */
  predicate Covers(seg: Segment, va: nat) {
    RoundDown(seg.va) <= va < seg.va + seg.size
  }

  /** The last segment whose page loop visits `va`: later mappings replace
      earlier ones. */
  function LastCover(segs: seq<Segment>, va: nat): (r: Option<nat>)
    ensures r.Some? ==> r.value < |segs| && Covers(segs[r.value], va)
    ensures r.Some? ==> forall j :: r.value < j < |segs| ==> !Covers(segs[j], va)
    ensures r.None? ==> forall j :: 0 <= j < |segs| ==> !Covers(segs[j], va)
  {
    if |segs| == 0 then None
    else if Covers(segs[|segs| - 1], va) then Some(|segs| - 1)
    else LastCover(segs[..|segs| - 1], va)
  }

  /** The first k + 1 elements are the first k, then element k. */
  lemma {:induction false} TakeSnoc<T>(s: seq<T>, k: nat)
    requires k < |s|
    ensures s[..k] + [s[k]] == s[..k + 1]
  {
  }

  /** Appending a segment: it is the last cover of what it covers. */
  lemma {:induction false} LastCoverSnoc(segs: seq<Segment>, seg: Segment, va: nat)
    ensures LastCover(segs + [seg], va) == if Covers(seg, va) then Some(|segs|) else LastCover(segs, va)
  {
    var all := segs + [seg];
    assert all[..|all| - 1] == segs;
  }


  /** Memory `ma` is `mb` with every byte of the page at `pa` set to `v`. */
  predicate FilledPage(mb: seq<byte>, ma: seq<byte>, pa: nat, v: byte)
    requires |mb| == MEMSIZE_PHYSICAL && |ma| == MEMSIZE_PHYSICAL
  {
    forall i :: 0 <= i < MEMSIZE_PHYSICAL ==> ma[i] == (if pa <= i < pa + PAGESIZE then v else mb[i])
  }

  /** process_setup's window for process `pid` in the identity-mapped
      kernels (kernel4, kernel8): `[first_addr, last_addr)`. */
  function FirstAddr(pid: nat): nat
    requires pid >= 1
  {
    PROC_START_ADDR + (pid - 1) * PROC_SIZE
  }

  function LastAddr(pid: nat): nat {
    PROC_START_ADDR + pid * PROC_SIZE
  }

  /** A window that lies in physical memory, so its pages have refcounts. */
  predicate WindowInMemory(pid: nat) {
    1 <= pid && LastAddr(pid) <= MEMSIZE_PHYSICAL
  }

  /** The stack page, `last_addr - PAGESIZE`, which process_setup maps
      after the segments exactly as it maps a segment page. */
  function StackSeg(pid: nat): Segment
    requires pid >= 1
  {
    Segment(LastAddr(pid) - PAGESIZE, PAGESIZE, [], true)
  }

  /** The stack page is a page of the window, and its own loop visits it. */
  lemma {:induction false} StackInWindow(pid: nat)
    requires WindowInMemory(pid)
    ensures var s := LastAddr(pid) - PAGESIZE;
      PageAligned(s) && FirstAddr(pid) <= s < LastAddr(pid) && Covers(StackSeg(pid), s)
  {
    assert pid == 1 || pid == 2 || pid == 3 || pid == 4;
  }

  /** A segment covering nothing: the state between two segment loops. */
  const NOSEG := Segment(0, 0, [], false)

  /** `va` has been visited by the identity page loops: by a segment of
      `done`, or by `seg`'s loop below `a`. */
  predicate Visited(done: seq<Segment>, seg: Segment, a: nat, va: nat) {
    LastCover(done, va).Some? || (Covers(seg, va) && va < a)
  }

  /** The identity page loops so far, at page-aligned `va`, starting from
      page table `base` and refcounts `r0`: a visited page lies in the
      window, was unused, now has refcount 1 and is mapped to itself with
      PTE_P | PTE_W | PTE_U; any other page keeps its entry and refcount. */
  ghost predicate IdentityAt(pid: nat, base: PageTable, done: seq<Segment>, seg: Segment, a: nat,
                             pt: PageTable, r0: seq<nat>, r: seq<nat>, va: nat)
    requires WindowInMemory(pid) && |r0| == NPAGES && |r| == NPAGES
  {
    if Visited(done, seg, a, va) then
      && FirstAddr(pid) <= va < LastAddr(pid) && Entry(pt, va) == Pte(va, PTE_PWU)
      && r0[va / PAGESIZE] == 0 && r[va / PAGESIZE] == 1
    else
      Entry(pt, va) == Entry(base, va) && (va < MEMSIZE_PHYSICAL ==> r[va / PAGESIZE] == r0[va / PAGESIZE])
  }

  ghost predicate IdentityMapped(pid: nat, base: PageTable, done: seq<Segment>, seg: Segment, a: nat,
                                 pt: PageTable, r0: seq<nat>, r: seq<nat>)
    requires WindowInMemory(pid) && |r0| == NPAGES && |r| == NPAGES
  {
    forall va: nat :: PageAligned(va) && va < MEMSIZE_VIRTUAL ==> IdentityAt(pid, base, done, seg, a, pt, r0, r, va)
  }

  /** IdentityMapped after whole segment loops over `segs`. */
  ghost predicate SegsIdentity(pid: nat, base: PageTable, segs: seq<Segment>, pt: PageTable, r0: seq<nat>, r: seq<nat>)
    requires WindowInMemory(pid) && |r0| == NPAGES && |r| == NPAGES
  {
    IdentityMapped(pid, base, segs, NOSEG, 0, pt, r0, r)
  }

  lemma {:induction false} IdentityInit(pid: nat, base: PageTable, r: seq<nat>)
    requires WindowInMemory(pid) && |r| == NPAGES
    ensures SegsIdentity(pid, base, [], base, r, r)
  {
  }

  lemma {:induction false} IdentityStart(pid: nat, base: PageTable, done: seq<Segment>, seg: Segment, pt: PageTable, r0: seq<nat>, r: seq<nat>)
    requires WindowInMemory(pid) && |r0| == NPAGES && |r| == NPAGES
    requires SegsIdentity(pid, base, done, pt, r0, r)
    ensures IdentityMapped(pid, base, done, seg, RoundDown(seg.va), pt, r0, r)
  {
    forall va: nat | PageAligned(va) && va < MEMSIZE_VIRTUAL
      ensures IdentityAt(pid, base, done, seg, RoundDown(seg.va), pt, r0, r, va)
    {
      assert IdentityAt(pid, base, done, NOSEG, 0, pt, r0, r, va);
    }
  }

  /** One page of a segment loop: `a` is checked to lie in the window and
      to be unused, gets refcount 1 and is mapped to itself. */
  lemma {:induction false} IdentityStep(pid: nat, base: PageTable, done: seq<Segment>, seg: Segment, a: nat,
                     pt: PageTable, pt': PageTable, r0: seq<nat>, r: seq<nat>, r': seq<nat>)
    requires WindowInMemory(pid) && |r0| == NPAGES && |r| == NPAGES
    requires IdentityMapped(pid, base, done, seg, a, pt, r0, r)
    requires PageAligned(a) && Covers(seg, a) && FirstAddr(pid) <= a < LastAddr(pid) && r[a / PAGESIZE] == 0
    requires r' == r[a / PAGESIZE := 1] && pt'.entries == pt.entries[a := Pte(a, PTE_PWU)]
    ensures IdentityMapped(pid, base, done, seg, a + PAGESIZE, pt', r0, r')
  {
    forall va: nat | PageAligned(va) && va < MEMSIZE_VIRTUAL
      ensures IdentityAt(pid, base, done, seg, a + PAGESIZE, pt', r0, r', va)
    {
      IdentityPoint(pid, base, done, seg, a, pt, pt', r0, r, r', va);
    }
  }

  lemma {:induction false} IdentityPoint(pid: nat, base: PageTable, done: seq<Segment>, seg: Segment, a: nat,
                      pt: PageTable, pt': PageTable, r0: seq<nat>, r: seq<nat>, r': seq<nat>, va: nat)
    requires WindowInMemory(pid) && |r0| == NPAGES && |r| == NPAGES
    requires IdentityMapped(pid, base, done, seg, a, pt, r0, r)
    requires PageAligned(a) && Covers(seg, a) && FirstAddr(pid) <= a < LastAddr(pid) && r[a / PAGESIZE] == 0
    requires r' == r[a / PAGESIZE := 1] && pt'.entries == pt.entries[a := Pte(a, PTE_PWU)]
    requires PageAligned(va) && va < MEMSIZE_VIRTUAL
    ensures IdentityAt(pid, base, done, seg, a + PAGESIZE, pt', r0, r', va)
  {
    assert IdentityAt(pid, base, done, seg, a, pt, r0, r, a);
    assert IdentityAt(pid, base, done, seg, a, pt, r0, r, va);
    if va != a {
      if va < MEMSIZE_PHYSICAL {
        assert va / PAGESIZE != a / PAGESIZE;
      }
      assert Visited(done, seg, a + PAGESIZE, va) == Visited(done, seg, a, va);
    }
  }

  /** A segment loop that has passed the segment's end has visited exactly
      its pages. */
  lemma {:induction false} IdentityDone(pid: nat, base: PageTable, done: seq<Segment>, seg: Segment, a: nat, pt: PageTable, r0: seq<nat>, r: seq<nat>)
    requires WindowInMemory(pid) && |r0| == NPAGES && |r| == NPAGES
    requires IdentityMapped(pid, base, done, seg, a, pt, r0, r) && a >= seg.va + seg.size
    ensures SegsIdentity(pid, base, done + [seg], pt, r0, r)
  {
    forall va: nat | PageAligned(va) && va < MEMSIZE_VIRTUAL
      ensures IdentityAt(pid, base, done + [seg], NOSEG, 0, pt, r0, r, va)
    {
      LastCoverSnoc(done, seg, va);
      assert IdentityAt(pid, base, done, seg, a, pt, r0, r, va);
    }
  }

  /** Every segment's memset/memcpy at its own virtual address, which the
      kernel page table maps one to one, stays in kernel-accessible memory. */
  predicate IdentityLoadable(segs: seq<Segment>) {
    forall i :: 0 <= i < |segs| ==> |segs[i].data| <= segs[i].size && KernelAccessible(segs[i].va, segs[i].size)
  }

  /** The identity kernels' copy loop: each segment in turn written, as
      SegImage, at its own address. */
  function LoadIdentity(m: seq<byte>, segs: seq<Segment>): (r: seq<byte>)
    requires |m| == MEMSIZE_PHYSICAL && IdentityLoadable(segs)
    ensures |r| == MEMSIZE_PHYSICAL
  {
    if |segs| == 0 then m
    else
      var seg := segs[|segs| - 1];
      var prev := LoadIdentity(m, segs[..|segs| - 1]);
      if seg.size == 0 then prev else Splice(prev, seg.va, SegImage(seg))
  }

  /** After the copy loop the last segment's bytes are its data followed by
      zeros, at its own addresses, and no byte outside the segments changed. */
  lemma {:induction false} IdentityLoaded(m: seq<byte>, segs: seq<Segment>)
    requires |m| == MEMSIZE_PHYSICAL && IdentityLoadable(segs) && |segs| > 0
    ensures var seg := segs[|segs| - 1];
      forall j :: 0 <= j < seg.size ==>
        LoadIdentity(m, segs)[seg.va + j] == if j < |seg.data| then seg.data[j] else 0
  {
    var seg := segs[|segs| - 1];
    if seg.size > 0 {
      var prev := LoadIdentity(m, segs[..|segs| - 1]);
      assert LoadIdentity(m, segs) == Splice(prev, seg.va, SegImage(seg));
      forall j | 0 <= j < seg.size
        ensures LoadIdentity(m, segs)[seg.va + j] == if j < |seg.data| then seg.data[j] else 0
      {
        assert SegImage(seg)[j] == if j < |seg.data| then seg.data[j] else 0;
      }
    }
  }

  /** Bytes outside every segment are untouched by the copy loop. */
  lemma {:induction false} IdentityLoadFrame(m: seq<byte>, segs: seq<Segment>, i: nat)
    requires |m| == MEMSIZE_PHYSICAL && IdentityLoadable(segs) && i < MEMSIZE_PHYSICAL
    requires forall k :: 0 <= k < |segs| ==> !(segs[k].va <= i < segs[k].va + segs[k].size)
    ensures LoadIdentity(m, segs)[i] == m[i]
  {
    if |segs| > 0 {
      IdentityLoadFrame(m, segs[..|segs| - 1], i);
    }
  }

  /** process_setup's copy loop in the identity kernels: memset then memcpy
      each segment at its own address. `ok` is false, with the copying cut
      short, at the first segment whose bytes are not kernel accessible (a
      kernel page fault, which panics). */
  method LoadIdentitySegments(mem: array<byte>, segs: seq<Segment>) returns (ok: bool)
    requires mem.Length == MEMSIZE_PHYSICAL
    requires forall i :: 0 <= i < |segs| ==> |segs[i].data| <= segs[i].size
    modifies mem
    ensures ok == IdentityLoadable(segs)
    ensures ok ==> mem[..] == LoadIdentity(old(mem[..]), segs)
  {
    var i := 0;
    while i < |segs|
      invariant i <= |segs| && IdentityLoadable(segs[..i])
      invariant mem[..] == LoadIdentity(old(mem[..]), segs[..i])
    {
      var seg := segs[i];
      if !KernelAccessible(seg.va, seg.size) {
        assert !IdentityLoadable(segs) by {
          assert segs[i] == seg;
        }
        return false;
      }
      LoadSegmentAt(mem, seg);
      LoadIdentityStep(old(mem[..]), segs, i);
      i := i + 1;
    }
    assert segs[..i] == segs;
    ok := true;
  }

  /** One segment of the copy loop: memset then memcpy at its own address. */
  method LoadSegmentAt(mem: array<byte>, seg: Segment)
    requires mem.Length == MEMSIZE_PHYSICAL && |seg.data| <= seg.size && KernelAccessible(seg.va, seg.size)
    modifies mem
    ensures mem[..] == if seg.size == 0 then old(mem[..]) else Splice(old(mem[..]), seg.va, SegImage(seg))
  {
    if seg.size > 0 {
      Memset(mem, seg.va, 0, seg.size);
      ghost var m1 := mem[..];
      Memcpy(mem, seg.va, seg.data);
      assert mem[..] == Splice(old(mem[..]), seg.va, SegImage(seg)) by {
        forall j | 0 <= j < MEMSIZE_PHYSICAL ensures mem[j] == Splice(old(mem[..]), seg.va, SegImage(seg))[j] {
          assert m1[j] == if seg.va <= j < seg.va + seg.size then 0 else old(mem[j]);
        }
      }
    }
  }

  /** The copy loop's function one segment further on. */
  lemma {:induction false} LoadIdentityStep(m: seq<byte>, segs: seq<Segment>, i: nat)
    requires |m| == MEMSIZE_PHYSICAL && i < |segs| && IdentityLoadable(segs[..i])
    requires |segs[i].data| <= segs[i].size && KernelAccessible(segs[i].va, segs[i].size)
    ensures IdentityLoadable(segs[..i + 1])
    ensures LoadIdentity(m, segs[..i + 1]) ==
      var seg := segs[i];
      if seg.size == 0 then LoadIdentity(m, segs[..i]) else Splice(LoadIdentity(m, segs[..i]), seg.va, SegImage(seg))
  {
    assert segs[..i + 1][..i] == segs[..i];
  }
}
