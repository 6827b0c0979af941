// The allocator's global state (`front`, `g_stats` and the headers it
// walks) as an object whose methods perform m61.cc's steps in place, each
// proved to end in the state the functions of module M61 describe. The
// object keeps the active list linked; that the statistics stay in step
// with it is proved about those functions (MallocCounted, FreeSucceeds).
module M61Alloc {
  import opened M61
  import opened M61Properties

  /** One step of the walk down the active list that the leak report makes. */
  lemma {:induction false} ReportStep(mem: map<int, Header>, order: seq<int>, i: int, r: seq<Leak>)
    requires forall j :: 0 <= j < |order| ==> order[j] in mem
    requires 0 <= i < |order|
    ensures var x := order[i];
      (r + [Leak(x + HDR, mem[x].size, mem[x].site)]) + Report(mem, order[i + 1..]) ==
      r + Report(mem, order[i..])
  {
    assert order[i..][1..] == order[i + 1..];
  }

  /** One step of the walk down the active list in the not-allocated diagnostic. */
  lemma {:induction false} InsideStep(mem: map<int, Header>, order: seq<int>, i: int, ptr: int, r: seq<int>)
    requires forall j :: 0 <= j < |order| ==> order[j] in mem
    requires 0 <= i < |order|
    ensures var x := order[i];
      (if StrictlyInside(x, mem[x], ptr) then r + [x] else r) + Inside(mem, order[i + 1..], ptr) ==
      r + Inside(mem, order[i..], ptr)
  {
    assert order[i..][1..] == order[i + 1..];
  }

  /** What walking `next` from `front` relies on: each listed header is in memory, non-null and linked to its successor. */
  lemma {:induction false} Walkable(h: Heap, order: seq<int>)
    requires Linked(h, order)
    ensures h.front == if |order| == 0 then 0 else order[0]
    ensures forall i :: 0 <= i < |order| ==>
      order[i] in h.mem && order[i] != 0 && h.mem[order[i]].next == NextOf(order, i)
  {
    forall i | 0 <= i < |order|
      ensures order[i] in h.mem && order[i] != 0
    {
      assert Live(h.mem, order[i]);
      assert HeaderOk(order[i], h.mem[order[i]]);
    }
  }

  /**
   * A live block whose pointer passed `m61_free`'s range test and whose
   * terminator is intact sits at some position i of the active list;
   * `m61_free` of it gives the heap the unlink and the statistics updates
   * make, linked as the list without position i.
   */
  lemma {:induction false} Releases(h: Heap, order: seq<int>, ptr: int) returns (i: int)
    requires Linked(h, order) && Live(h.mem, ptr - HDR) && h.mem[ptr - HDR].tail == Terminator
    requires 0 < ptr < WORD && h.stats.heapMin <= ptr <= h.stats.heapMax
    ensures 0 <= i < |order| && order[i] == ptr - HDR
    ensures var m := ptr - HDR;
      (h.mem[m].prev == 0 || h.mem[m].prev in h.mem) && (h.mem[m].next == 0 || h.mem[m].next in h.mem) &&
      h.mem[m].next != m && h.mem[m].prev != m && (h.mem[m].prev == 0 || h.mem[m].prev != h.mem[m].next)
    ensures var m := ptr - HDR; var s := Free(h, order, ptr);
      s.outcome == Freed && Linked(s.after, Without(order, i)) &&
      s.after == Heap(RecordFree(h.stats, h.mem[m].size),
                      if h.mem[m].prev != 0 then h.front else h.mem[m].next, Unlink(h.mem, m))
  {
    i := ListedAt(h, order, ptr - HDR);
    assert order[i] + HDR == ptr;
    FreeLinks(h, order, i);
    FreeShape(h, order, ptr);
  }

  /** Where a live block sits on the active list. */
  lemma {:induction false} ListedAt(h: Heap, order: seq<int>, m: int) returns (i: int)
    requires Linked(h, order) && Live(h.mem, m)
    ensures 0 <= i < |order| && order[i] == m
  {
    i :| 0 <= i < |order| && order[i] == m;
  }

  /** What `m61_free` does to a live block with an intact terminator, once its range test passes. */
  lemma {:induction false} FreeShape(h: Heap, order: seq<int>, ptr: int)
    requires Linked(h, order) && Live(h.mem, ptr - HDR) && h.mem[ptr - HDR].tail == Terminator
    requires 0 < ptr < WORD && h.stats.heapMin <= ptr <= h.stats.heapMax
    ensures var m := ptr - HDR;
      (h.mem[m].prev == 0 || h.mem[m].prev in h.mem) && (h.mem[m].next == 0 || h.mem[m].next in h.mem) &&
      h.mem[m].next != m && h.mem[m].prev != m && (h.mem[m].prev == 0 || h.mem[m].prev != h.mem[m].next)
    ensures var m := ptr - HDR;
      Free(h, order, ptr) == FreeStep(Heap(RecordFree(h.stats, h.mem[m].size),
        if h.mem[m].prev != 0 then h.front else h.mem[m].next, Unlink(h.mem, m)), Freed)
  {
    var m := ptr - HDR;
    assert HeaderOk(m, h.mem[m]);
    Neighbours(h, order, m);
  }

  /** Replacing a block's bytes by as many others leaves the list linked. */
  lemma {:induction false} RefillLinked(h: Heap, order: seq<int>, m: int, data: seq<byte>)
    requires Linked(h, order) && m in h.mem && |data| == h.mem[m].size
    ensures Linked(h.(mem := h.mem[m := h.mem[m].(data := data)]), order)
  {
    var h' := h.(mem := h.mem[m := h.mem[m].(data := data)]);
    forall k | k in h.mem
      ensures SameLinks(h'.mem[k], h.mem[k]) && HeaderOk(k, h'.mem[k])
    {
      assert HeaderOk(k, h.mem[k]);
    }
    assert forall k :: Live(h'.mem, k) <==> Live(h.mem, k);
  }

  class Allocator {
    /** `g_stats`, `front`, and the headers in memory. */
    var stats: Stats
    var front: int
    var mem: map<int, Header>
    /** The active list, front first. */
    ghost var order: seq<int>

    function State(): Heap
      reads this
    {
      Heap(stats, front, mem)
    }

    /** `front` and the headers link exactly the blocks of `order`. */
    ghost predicate Valid()
      reads this
    {
      Linked(State(), order)
    }

    /** The allocator at program start: no blocks, `heap_min` at its maximum. */
    constructor ()
      ensures State() == Empty && order == [] && Valid()
    {
      stats := Initial;
      front := 0;
      mem := map[];
      order := [];
    }

    /**
     * `m61_malloc(sz, file, line)` where `base_malloc` returns `base` and
     * the new block's bytes hold `junk`.
     */
    method Malloc(sz: int, site: Site, base: int, junk: seq<byte>) returns (ptr: int)
      requires Valid() && 0 <= sz <= SIZE_MAX && |junk| == sz
      requires base == 0 || Fresh(State(), base, HDR + sz + TERMSIZE)
      modifies this
      ensures var s := M61.Malloc(old(State()), old(order), sz, site, base, junk);
        State() == s.after && ptr == s.ptr
      ensures order == (if ptr != 0 then [base] + old(order) else old(order)) && Valid()
    {
      ghost var h := State();
      if Fits(sz) && base != 0 {
        MallocLinks(h, order, sz, site, base, junk);
        FrontLive(h, order);
        assert front != 0 ==> Disjoint(front, HDR + mem[front].size + TERMSIZE, base, HDR + sz + TERMSIZE);
        var reused := Reclaim(mem, base, HDR + sz + TERMSIZE);
        ptr := base + HDR;
        mem, front, stats := LinkFront(reused, front, base, Header(base, sz, site, 0, 0, false, junk, Terminator)),
                             base, RecordAlloc(stats, ptr, sz);
        order := [base] + order;
      } else {
        stats := stats.(nfail := Wrap(stats.nfail + 1), failSize := Wrap(stats.failSize + sz));
        ptr := 0;
      }
    }

    /**
     * `m61_free(ptr, file, line)`: the outcome, the allocator afterwards
     * and, for a pointer that is not allocated, the active blocks its
     * diagnostic names; a freed block leaves the active list at `at`.
     */
    method Free(ptr: int) returns (outcome: Outcome, inside: seq<int>, ghost at: int)
      requires Valid() && 0 <= ptr < WORD
      modifies this
      ensures var f := M61.Free(old(State()), old(order), ptr);
        State() == f.after && outcome == f.outcome
      ensures forall i :: 0 <= i < |old(order)| ==> old(order)[i] in old(mem)
      ensures inside == (if outcome == NotAllocated then Inside(old(mem), old(order), ptr) else [])
      ensures outcome == Freed && ptr != 0 ==>
        0 <= at < |old(order)| && old(order)[at] == ptr - HDR && order == Without(old(order), at)
      ensures !(outcome == Freed && ptr != 0) ==> order == old(order)
      ensures Valid()
    {
      Walkable(State(), order);
      inside, at := [], 0;
      if ptr == 0 {
        outcome := Freed;
        return;
      }
      if ptr < stats.heapMin || ptr > stats.heapMax {
        outcome := NotInHeap;
        return;
      }
      var m := ptr - HDR;
      if !(m in mem && mem[m].checksum == m) {
        inside := InsideScan(ptr);
        outcome := NotAllocated;
        return;
      }
      if mem[m].freed {
        outcome := DoubleFree;
        return;
      }
      if mem[m].tail != Terminator {
        outcome := WildWrite;
        return;
      }
      at := Release(ptr);
      outcome := Freed;
    }

    /** The list and statistics updates that end a successful `m61_free` (m61.cc:136-149). */
    method Release(ptr: int) returns (ghost i: int)
      requires Valid() && Live(mem, ptr - HDR) && mem[ptr - HDR].tail == Terminator
      requires 0 < ptr < WORD && stats.heapMin <= ptr <= stats.heapMax
      modifies this
      ensures State() == M61.Free(old(State()), old(order), ptr).after
      ensures 0 <= i < |old(order)| && old(order)[i] == ptr - HDR && order == Without(old(order), i)
      ensures Valid()
    {
      var m := ptr - HDR;
      ghost var o := order;
      i := Releases(State(), o, ptr);
      var b := mem[m];
      var f := front;
      if b.prev == 0 {
        f := b.next;
      }
      mem, front, stats := Unlink(mem, m), f, RecordFree(stats, b.size);
      order := Without(o, i);
    }

    /** The loop over the active list in `m61_free`'s not-allocated diagnostic. */
    method InsideScan(ptr: int) returns (r: seq<int>)
      requires Valid()
      ensures forall i :: 0 <= i < |order| ==> order[i] in mem
      ensures r == Inside(mem, order, ptr)
    {
      Walkable(State(), order);
      var cur := front;
      ghost var i := 0;
      r := [];
      while cur != 0
        invariant 0 <= i <= |order|
        invariant cur == if i < |order| then order[i] else 0
        invariant r + Inside(mem, order[i..], ptr) == Inside(mem, order, ptr)
        decreases |order| - i
      {
        InsideStep(mem, order, i, ptr, r);
        if StrictlyInside(cur, mem[cur], ptr) {
          r := r + [cur];
        }
        cur := mem[cur].next;
        i := i + 1;
      }
    }

    /**
     * `m61_calloc(nmemb, sz, file, line)` as written: with sz == 0 the
     * overflow test `nmemb <= SIZE_MAX / sz` divides by zero and the program
     * traps (`trapped`) with nothing changed; otherwise `m61_malloc` of
     * nmemb * sz bytes, then zeroed, or one more failure in `nfail`.
     */
    method Calloc(nmemb: int, sz: int, site: Site, base: int, junk: seq<byte>) returns (trapped: bool, ptr: int)
      requires Valid() && 0 <= nmemb <= SIZE_MAX && 0 <= sz <= SIZE_MAX
      requires CallocOracle(State(), nmemb, sz, base, junk)
      modifies this
      ensures var c := CallocAsWritten(old(State()), old(order), nmemb, sz, site, base, junk);
        trapped == c.DivideByZero? &&
        (c.Calloced? ==> State() == c.step.after && ptr == c.step.ptr) &&
        (trapped ==> State() == old(State()) && ptr == 0)
      ensures order == (if ptr != 0 then [base] + old(order) else old(order)) && Valid()
    {
      if sz == 0 {
        return true, 0;
      }
      trapped := false;
      ptr := CallocSized(nmemb, sz, site, base, junk);
    }

    /** `m61_calloc` once the overflow test has a nonzero divisor: the corrected `M61.Calloc`. */
    method CallocSized(nmemb: int, sz: int, site: Site, base: int, junk: seq<byte>) returns (ptr: int)
      requires Valid() && 0 <= nmemb <= SIZE_MAX && 0 < sz <= SIZE_MAX
      requires CallocOracle(State(), nmemb, sz, base, junk)
      modifies this
      ensures var s := M61.Calloc(old(State()), old(order), nmemb, sz, site, base, junk);
        State() == s.after && ptr == s.ptr
      ensures order == (if ptr != 0 then [base] + old(order) else old(order)) && Valid()
    {
      if nmemb <= SIZE_MAX / sz {
        MulBound(nmemb, sz);
        ptr := Malloc(nmemb * sz, site, base, junk);
        if ptr != 0 {
          RefillLinked(State(), order, base, Zeros(nmemb * sz));
          mem := mem[base := mem[base].(data := Zeros(nmemb * sz))];
        }
      } else {
        stats := stats.(nfail := Wrap(stats.nfail + 1));
        ptr := 0;
      }
    }

    /** `m61_get_statistics`: a copy of `g_stats`. */
    method GetStatistics() returns (s: Stats)
      ensures s == stats
    {
      s := stats;
    }

    /** `m61_print_leak_report`: one line per active block, walking `next` from `front`. */
    method LeakReport() returns (r: seq<Leak>)
      requires Valid()
      ensures forall i :: 0 <= i < |order| ==> order[i] in mem
      ensures r == Report(mem, order)
    {
      Walkable(State(), order);
      var cur := front;
      ghost var i := 0;
      r := [];
      while cur != 0
        invariant 0 <= i <= |order|
        invariant cur == if i < |order| then order[i] else 0
        invariant r + Report(mem, order[i..]) == Report(mem, order)
        decreases |order| - i
      {
        ReportStep(mem, order, i, r);
        r := r + [Leak(cur + HDR, mem[cur].size, mem[cur].site)];
        cur := mem[cur].next;
        i := i + 1;
      }
    }
  }
}
