/** The kernel4 WeensyOS kernel: one shared page table (the kernel's own)
    for every process, identity-mapped process memory, and a fault handler
    for which every fault is fatal.

    Global state (`pages[]`, `ptable[]`, `current`, `ticks`, physical memory
    and the kernel page table) is the state of one `Kernel` object. */
module Kernel4 {
  import opened WeensyCommon

  // system call numbers (lib.hh, which is not part of this model)
  const SYSCALL_GETPID: nat := 1
  const SYSCALL_YIELD: nat := 2
  const SYSCALL_PANIC: nat := 3
  const SYSCALL_GETSYSNAME: nat := 4

  /** "DemoOS 61.61" in ASCII followed by its NUL terminator: the bytes
      `strcpy(buf, osname)` stores. */
  const OSNAME_Z: seq<byte> := [68, 101, 109, 111, 79, 83, 32, 54, 49, 46, 54, 49, 0]

  /** A process's `pagetable` pointer: null (the static initial value) or
      the address of `kernel_pagetable` itself. */
  datatype PagetablePtr = NullPtr | KernelTablePtr

  class Kernel {
    var pages: array<nat>                 // pages[pn].refcount
    var mem: array<byte>                  // physical memory, byte-addressed
    var ptable: array<Proc<PagetablePtr>>
    var current: nat                      // current->pid
    var ticks: nat
    var kernelPagetable: PageTable

    ghost predicate Valid()
      reads this, ptable
    {
      && pages.Length == NPAGES && mem.Length == MEMSIZE_PHYSICAL && ptable.Length == NPROC
      && current < NPROC
      && EntriesWellFormed(kernelPagetable)
      && forall i :: 0 <= i < NPROC ==> ptable[i].pid == i
    }

    /** The state kernel_start leaves before process_setup. */
    constructor ()
      ensures Valid() && fresh(pages) && fresh(mem) && fresh(ptable)
      ensures forall pn :: 0 <= pn < NPAGES ==> pages[pn] == 0
      ensures forall i :: 0 <= i < NPROC ==> ptable[i] == Proc(i, Free, INIT_REGS, NullPtr)
      ensures current == 0 && ticks == 1
    {
      pages := new nat[NPAGES](_ => 0);
      mem := new byte[MEMSIZE_PHYSICAL](_ => 0);
      ptable := new Proc<PagetablePtr>[NPROC](i => Proc(i, Free, INIT_REGS, NullPtr));
      current := 0;
      ticks := 1;
      kernelPagetable := PageTable(0, [0, 0], map[]);
    }

    /** kernel_start's flag loop over the kernel page table: every page of
        physical memory identity mapped with PTE_P | PTE_W, plus PTE_U at
        CONSOLE_ADDR only, and address 0 mapped with no permissions. */
    method InitKernelPagetable()
      requires Valid()
      modifies this`kernelPagetable
      ensures Valid() && KernelMapped(kernelPagetable, false)
      ensures forall va :: va >= MEMSIZE_PHYSICAL ==> Entry(kernelPagetable, va) == Entry(old(kernelPagetable), va)
    {
      kernelPagetable := MapKernelRange(kernelPagetable, false);
    }

    method SetProc(pid: nat, p: Proc<PagetablePtr>)
      requires Valid() && pid < NPROC && p.pid == pid
      modifies ptable
      ensures Valid()
      ensures ptable[..] == old(ptable[..])[pid := p]
    {
      ptable[pid] := p;
    }

    /** One page of process_setup's mapping loops at `a` (in the window):
        `assert(!pages[a / PAGESIZE].used())`, then `refcount = 1` and an
        identity mapping with PTE_P | PTE_W | PTE_U in the kernel page
        table, whose page-table pages are static, so the mapping allocates
        nothing. */
    method MapIdentityPage(pid: nat, seg: Segment, a: nat,
                           ghost base: PageTable, ghost done: seq<Segment>, ghost r0: seq<nat>)
      returns (ok: bool)
      requires Valid() && WindowInMemory(pid) && |r0| == NPAGES
      requires IdentityMapped(pid, base, done, seg, a, kernelPagetable, r0, pages[..])
      requires PageAligned(a) && Covers(seg, a) && FirstAddr(pid) <= a < LastAddr(pid)
      modifies pages, this`kernelPagetable
      ensures Valid()
      ensures ok == (old(pages[a / PAGESIZE]) == 0)
      ensures ok ==> IdentityMapped(pid, base, done, seg, a + PAGESIZE, kernelPagetable, r0, pages[..])
    {
      if pages[a / PAGESIZE] != 0 {
        return false;
      }
      ghost var r, kpt := pages[..], kernelPagetable;
      InstallPage(a);
      IdentityStep(pid, base, done, seg, a, kpt, kernelPagetable, r0, r, pages[..]);
      ok := true;
    }

    /** `pages[a / PAGESIZE].refcount = 1` and the identity mapping of `a`. */
    method InstallPage(a: nat)
      requires Valid() && PageAligned(a) && a < MEMSIZE_PHYSICAL
      modifies pages, this`kernelPagetable
      ensures Valid()
      ensures pages[..] == old(pages[..])[a / PAGESIZE := 1]
      ensures kernelPagetable.entries == old(kernelPagetable.entries)[a := Pte(a, PTE_PWU)]
    {
      pages[a / PAGESIZE] := 1;
      kernelPagetable := kernelPagetable.(entries := kernelPagetable.entries[a := Pte(a, PTE_PWU)]);
    }

    /** process_setup's page loop for one segment, after the segments
        `done`: every page from round_down(seg.va) below seg.va + seg.size
        must lie in the window (`assert`, else `ok` is false) and be unused. */
    method MapIdentitySegment(pid: nat, seg: Segment, ghost base: PageTable, ghost done: seq<Segment>, ghost r0: seq<nat>)
      returns (ok: bool)
      requires Valid() && WindowInMemory(pid) && |r0| == NPAGES
      requires SegsIdentity(pid, base, done, kernelPagetable, r0, pages[..])
      modifies pages, this`kernelPagetable
      ensures Valid()
      ensures ok ==> SegsIdentity(pid, base, done + [seg], kernelPagetable, r0, pages[..])
    {
      IdentityStart(pid, base, done, seg, kernelPagetable, r0, pages[..]);
      var a := RoundDown(seg.va);
      while a < seg.va + seg.size
        invariant PageAligned(a) && RoundDown(seg.va) <= a && Valid()
        invariant IdentityMapped(pid, base, done, seg, a, kernelPagetable, r0, pages[..])
        decreases seg.va + seg.size - a
      {
        if !(FirstAddr(pid) <= a < LastAddr(pid)) {
          return false;
        }
        var okp := MapIdentityPage(pid, seg, a, base, done, r0);
        if !okp {
          return false;
        }
        a := NextPage(a);
      }
      IdentityDone(pid, base, done, seg, a, kernelPagetable, r0, pages[..]);
      ok := true;
    }

    /** process_setup's mapping loop over all segments. */
    method MapIdentitySegments(pid: nat, segs: seq<Segment>) returns (ok: bool)
      requires Valid() && WindowInMemory(pid)
      modifies pages, this`kernelPagetable
      ensures Valid()
      ensures ok ==> SegsIdentity(pid, old(kernelPagetable), segs, kernelPagetable, old(pages[..]), pages[..])
    {
      ghost var base, r0 := kernelPagetable, pages[..];
      IdentityInit(pid, base, r0);
      var i := 0;
      while i < |segs|
        invariant i <= |segs| && Valid()
        invariant SegsIdentity(pid, base, segs[..i], kernelPagetable, r0, pages[..])
      {
        var okm := MapIdentitySegment(pid, segs[i], base, segs[..i], r0);
        if !okm {
          return false;
        }
        TakeSnoc(segs, i);
        i := i + 1;
      }
      assert segs[..i] == segs;
      ok := true;
    }

    /** process_setup's stack page `last_addr - PAGESIZE`, after the
        segments `segs`: asserted unused, given refcount 1 and identity
        mapped PTE_P | PTE_W | PTE_U. */
    method MapStack(pid: nat, ghost base: PageTable, ghost segs: seq<Segment>, ghost r0: seq<nat>)
      returns (ok: bool)
      requires Valid() && WindowInMemory(pid) && |r0| == NPAGES
      requires SegsIdentity(pid, base, segs, kernelPagetable, r0, pages[..])
      modifies pages, this`kernelPagetable
      ensures Valid()
      ensures ok ==> SegsIdentity(pid, base, segs + [StackSeg(pid)], kernelPagetable, r0, pages[..])
    {
      var stack := LastAddr(pid) - PAGESIZE;
      StackInWindow(pid);
      IdentityStart(pid, base, segs, StackSeg(pid), kernelPagetable, r0, pages[..]);
      ok := MapIdentityPage(pid, StackSeg(pid), stack, base, segs, r0);
      if ok {
        IdentityDone(pid, base, segs, StackSeg(pid), stack + PAGESIZE, kernelPagetable, r0, pages[..]);
      }
    }

    /** process_setup(pid, program): the process's page table is the kernel
        page table itself; every segment page and then the stack page
        `last_addr - PAGESIZE` is checked to lie in the window and to be
        unused, given refcount 1 and identity mapped PTE_P | PTE_W | PTE_U
        in that shared table; the segments are copied to their own
        addresses; and the process is made RUNNABLE at the entry point with
        %rsp = last_addr. `ok` is false when a kernel assertion fails or a
        kernel access faults, which panics. */
    method ProcessSetup(pid: nat, pgm: Program) returns (ok: bool)
      requires Valid() && WindowInMemory(pid) && ValidProgram(pgm)
      modifies pages, mem, ptable, this`kernelPagetable
      ensures Valid()
      ensures ok ==> SegsIdentity(pid, old(kernelPagetable), pgm.segments + [StackSeg(pid)], kernelPagetable, old(pages[..]), pages[..])
      ensures ok ==> IdentityLoadable(pgm.segments) && mem[..] == LoadIdentity(old(mem[..]), pgm.segments)
      ensures ok ==> ptable[..] == old(ptable[..])[pid := Proc(pid, Runnable, INIT_REGS.(rip := pgm.entry, rsp := LastAddr(pid)), KernelTablePtr)]
    {
      ghost var t0, m0 := ptable[..], mem[..];
      ok := MapIdentitySegments(pid, pgm.segments);
      if !ok {
        return;
      }
      assert mem[..] == m0;
      ok := LoadIdentitySegments(mem, pgm.segments);
      if !ok {
        return;
      }
      ok := MapStack(pid, old(kernelPagetable), pgm.segments, old(pages[..]));
      if !ok {
        return;
      }
      assert ptable[..] == t0;
      SetProc(pid, Proc(pid, Runnable, INIT_REGS.(rip := pgm.entry, rsp := LastAddr(pid)), KernelTablePtr));
    }

    /** run(p): `p` must be RUNNABLE (a failed assertion otherwise); it
        becomes current and control returns to it. */
    method Run(pid: nat) returns (o: Outcome)
      requires Valid() && pid < NPROC
      modifies this`current
      ensures Valid()
      ensures ptable[pid].state == Runnable ==> o == Resume(pid) && current == pid
      ensures ptable[pid].state != Runnable ==> o == Halt && current == old(current)
    {
      if ptable[pid].state != Runnable {
        return Halt;
      }
      current := pid;
      return Resume(pid);
    }

    /** schedule(): try pid + 1, pid + 2, ... (mod NPROC) from the current
        pid and run the first RUNNABLE one; `Idle` when NPROC probes find
        none (the real loop goes on spinning). */
    method Schedule() returns (o: Outcome)
      requires Valid()
      modifies this`current
      ensures Valid()
      ensures Scheduled(ptable[..], old(current), o, current, old(current))
    {
      var next := ScanRunnable(ptable[..], current);
      if next.Some? {
        o := Run(next.value);
      } else {
        o := Idle;
      }
    }

    /** exception(regs): save the trap registers into the current process;
        a timer interrupt counts a tick and reschedules; every other vector
        (page faults and general protection faults included) panics,
        whatever the privilege level, so the handler's closing
        resume-or-schedule is never reached. */
    method Exception(regs: Regs) returns (o: Outcome)
      requires Valid()
      modifies this`current, this`ticks, ptable
      ensures Valid()
      ensures var saved := old(ptable[..])[old(current) := old(ptable[current]).(regs := regs)];
        ptable[..] == saved
        && if regs.intno == INT_IRQ + IRQ_TIMER then
          ticks == old(ticks) + 1 && Scheduled(saved, old(current), o, current, old(current))
        else
          o == Halt && ticks == old(ticks) && current == old(current)
    {
      SetProc(current, ptable[current].(regs := regs));
      if regs.intno == INT_IRQ + IRQ_TIMER {
        ticks := ticks + 1;
        o := Schedule();
        return;
      }
      return Halt;
    }

    /** GETSYSNAME: strcpy of the OS name and its NUL into the user buffer
        at `buf`, whatever its size; the result is 0. */
    method GetSysname(buf: nat) returns (o: Outcome)
      requires Valid()
      modifies mem
      ensures KernelAccessible(buf, |OSNAME_Z|) ==>
        o == Return(0) && mem[..] == Splice(old(mem[..]), buf, OSNAME_Z)
      ensures !KernelAccessible(buf, |OSNAME_Z|) ==> o == Halt && mem[..] == old(mem[..])
    {
      if !KernelAccessible(buf, |OSNAME_Z|) {
        return Halt;
      }
      Memcpy(mem, buf, OSNAME_Z);
      return Return(0);
    }

    /** syscall(regs): save the registers into the current process and
        dispatch on the number in %rax. PANIC and unknown numbers panic;
        GETPID returns the pid; YIELD stores 0 as the saved %rax and
        reschedules; GETSYSNAME copies the name to %rdi. */
    method Syscall(regs: Regs) returns (o: Outcome)
      requires Valid()
      modifies this`current, mem, ptable
      ensures Valid()
      ensures var cur := old(current);
        var saved := old(ptable[..])[cur := old(ptable[cur]).(regs := regs)];
        && (regs.rax == SYSCALL_PANIC ==> o == Halt && ptable[..] == saved && current == cur)
        && (regs.rax == SYSCALL_GETPID ==>
              o == Return(cur) && ptable[..] == saved && current == cur && mem[..] == old(mem[..]))
        && (regs.rax == SYSCALL_YIELD ==>
              var yielded := saved[cur := saved[cur].(regs := regs.(rax := 0))];
              ptable[..] == yielded && Scheduled(yielded, cur, o, current, cur))
        && (regs.rax == SYSCALL_GETSYSNAME ==>
              ptable[..] == saved && current == cur
              && o == (if KernelAccessible(regs.rdi, |OSNAME_Z|) then Return(0) else Halt)
              && mem[..] == if KernelAccessible(regs.rdi, |OSNAME_Z|) then Splice(old(mem[..]), regs.rdi, OSNAME_Z)
                            else old(mem[..]))
        && (regs.rax !in {SYSCALL_GETPID, SYSCALL_YIELD, SYSCALL_PANIC, SYSCALL_GETSYSNAME} ==>
              o == Halt && ptable[..] == saved && current == cur)
      ensures regs.rax != SYSCALL_GETSYSNAME ==> mem[..] == old(mem[..])
    {
      SetProc(current, ptable[current].(regs := regs));
      if regs.rax == SYSCALL_PANIC {
        return Halt;
      } else if regs.rax == SYSCALL_GETPID {
        return Return(current);
      } else if regs.rax == SYSCALL_YIELD {
        SetProc(current, ptable[current].(regs := ptable[current].regs.(rax := 0)));
        o := Schedule();
      } else if regs.rax == SYSCALL_GETSYSNAME {
        o := GetSysname(regs.rdi);
      } else {
        return Halt;
      }
    }
  }
}
