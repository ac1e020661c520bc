/** The code of the page path of `kmalloc` and `kfree`: scanning loop, mapping loops,
    size table and break, on top of the memory manager's code. */
module KernelHeap {
  import opened Seqs
  import opened Memory
  import opened MemoryManager
  import opened Holes
  import KP = KernelPages

  /** A run of `run` unmapped pages ends at `i`: afterwards the scan's findings, the first
      exact hole and the first largest one, are right for all holes that end at or before
      `i`. */
  method CloseHole(ghost used: seq<bool>, i: nat, run: nat, n: nat, exact: Option<nat>, worst: nat, worstPages: nat)
    returns (exact': Option<nat>, worst': nat, worstPages': nat)
    requires RunSoFar(used, i, run) && (i < |used| ==> used[i])
    requires ExactSoFar(used, i, n, exact) && WorstSoFar(used, i, n, worst, worstPages)
    ensures ExactSoFar(used, i + 1, n, exact') && WorstSoFar(used, i + 1, n, worst', worstPages')
  {
    TakeExact(used, i, run, n, exact);
    TakeWorst(used, i, run, n, worst, worstPages);
    exact', worst', worstPages' := exact, worst, worstPages;
    if run > 0 {
      if run == n && exact.None? { exact' := Some(i - run); }
      if run >= n && run > worstPages { worst', worstPages' := i - run, run; }
    }
  }

  class PageHeap {
    const mm: Manager
    var brk: nat
    var sizes: map<nat, nat>
    ghost var live: map<nat, nat>

    ghost function State(): (h: KP.Heap)
      reads this, mm, mm.refs, mm.va
    {
      KP.Heap(mm.State(), brk, sizes, live)
    }

    ghost predicate Valid()
      reads this, mm, mm.refs, mm.va
    {
      mm.refs != mm.va && KP.Inv(State())
    }

    /** `kheap_init`: nothing handed out, break at the start of the area. */
    constructor (manager: Manager)
      requires manager.Valid() && KP.IsStart(manager.State())
      ensures Valid() && mm == manager
      ensures State() == KP.Heap(manager.State(), KP.FIRST, map[], map[])
    {
      mm := manager;
      brk, sizes, live := KP.FIRST, map[], map[];
      new;
      KP.StartInv(mm.State());
    }

    /** `get_frame_info` of a page is not null. */
    method IsMapped(page: nat) returns (b: bool)
      ensures b == KP.Mapped(mm.State(), page)
    {
      var k := Key(KERNEL, page);
      b := k in mm.pt && PRESENT in mm.pt[k].bits;
    }

    /** The scan from the start of the area to the break, with its run counter, its first
        exact hole and its largest hole. */
    method Search(n: nat) returns (place: Option<nat>)
      requires KP.FIRST <= brk
      ensures place == KP.Place(KP.Used(mm.State(), brk), n)
    {
      ghost var used := KP.Used(mm.State(), brk);
      var exact: Option<nat> := None;
      var worst: nat, worstPages: nat, run: nat := 0, 0, 0;
      var i: nat := 0;
      while KP.FIRST + i < brk
        invariant i <= |used| && RunSoFar(used, i, run)
        invariant ExactSoFar(used, i, n, exact) && WorstSoFar(used, i, n, worst, worstPages)
      {
        var mapped := IsMapped(KP.FIRST + i);
        assert mapped == used[i];
        if !mapped {
          SkipPage(used, i, n, exact, worst, worstPages);
          run := run + 1;
        } else {
          exact, worst, worstPages := CloseHole(used, i, run, n, exact, worst, worstPages);
          run := 0;
        }
        i := i + 1;
      }
      exact, worst, worstPages := CloseHole(used, i, run, n, exact, worst, worstPages);
      ScanDecides(used, n, exact, worst, worstPages);
      place := if exact.Some? then exact else if worstPages > 0 then Some(worst) else None;
      PlacesUnique(used, n, place, KP.Place(used, n));
    }

    /** Allocate and map one frame. */
    method MapOne(page: nat)
      requires mm.refs != mm.va && KP.CanMap(mm.State(), page, 1)
      modifies mm`free, mm`hand, mm`pt, mm.refs, mm.va
      ensures KP.RangeMapped(old(mm.State()), mm.State(), page, 1)
    {
      assert !KP.Mapped(mm.State(), page);
      KP.PageMapped(mm.State(), page);
      var r := mm.NewPageAt(Key(KERNEL, page), KP.PERM);
    }

    /** One turn of the mapping loop. */
    method MapNext(page: nat, i: nat, ghost n: nat, ghost m: Mem)
      requires mm.refs != mm.va && KP.CanMap(m, page, n) && i < n && KP.RangeMapped(m, mm.State(), page, i)
      modifies mm`free, mm`hand, mm`pt, mm.refs, mm.va
      ensures KP.RangeMapped(m, mm.State(), page, i + 1)
    {
      ghost var t := mm.State();
      KP.CanMapNext(m, t, page, i, n);
      MapOne(page + i);
      KP.RangeMappedStep(m, t, mm.State(), page, i);
    }

    /** Allocate and map `n` frames at `page`. */
    method MapPages(page: nat, n: nat)
      requires mm.refs != mm.va && KP.CanMap(mm.State(), page, n)
      modifies mm`free, mm`hand, mm`pt, mm.refs, mm.va
      ensures KP.RangeMapped(old(mm.State()), mm.State(), page, n)
    {
      ghost var m := mm.State();
      KP.RangeMappedNone(m, page);
      var i := 0;
      while i < n
        invariant 0 <= i <= n
        invariant KP.RangeMapped(m, mm.State(), page, i)
      {
        MapNext(page, i, n, m);
        i := i + 1;
      }
    }

    /** Record the size of the range with each of its pages. */
    method RecordSizes(page: nat, n: nat, bytes: nat)
      modifies this`sizes
      ensures sizes == KP.Recorded(old(sizes), page, n, bytes)
    {
      var i := 0;
      while i < n
        invariant 0 <= i <= n
        invariant sizes == KP.Recorded(old(sizes), page, i, bytes)
      {
        sizes := sizes[page + i := bytes];
        i := i + 1;
      }
    }

    /** Map the range, record it and raise the break if the range lies at it. */
    method Commit(place: Option<nat>, page: nat, n: nat)
      requires mm.refs != mm.va && KP.CanMap(mm.State(), page, n)
      modifies this, mm`free, mm`hand, mm`pt, mm.refs, mm.va
      ensures KP.RangeMapped(old(mm.State()), mm.State(), page, n)
      ensures brk == if place.Some? then old(brk) else old(brk) + n
      ensures sizes == KP.Recorded(old(sizes), page, n, n * PAGE)
      ensures live == if n == 0 then old(live) else old(live)[page := n]
    {
      MapPages(page, n);
      RecordSizes(page, n, n * PAGE);
      if place.None? { brk := brk + n; }
      if n > 0 { live := live[page := n]; }
    }

    /** The page path of `kmalloc`; running out of frames is a kernel panic. */
    method Kmalloc(size: nat) returns (r: KP.Result)
      requires Valid()
      modifies this, mm`free, mm`hand, mm`pt, mm.refs, mm.va
      ensures Valid()
      ensures KP.Kmalloc(old(State()), size, r, State())
    {
      ghost var h := State();
      var n := KP.Pages(size);
      if brk + n >= HEAP_LIMIT { return KP.Null; }
      KP.SpotFits(h, n);
      if |mm.free| < n { return KP.OutOfFrames; }
      var place := Search(n);
      var page := if place.Some? then KP.FIRST + place.value else brk;
      Commit(place, page, n);
      r := KP.At(page);
      KP.KmallocTheorem(h, size, r, State());
    }

    method UnmapOne(page: nat)
      requires mm.refs != mm.va && KP.Sound(mm.State())
      modifies mm`free, mm`hand, mm`pt, mm.refs, mm.va
      ensures KP.RangeUnmapped(old(mm.State()), mm.State(), page, 1)
    {
      KP.PageUnmapped(mm.State(), page);
      mm.Unmap(Key(KERNEL, page));
    }

    /** Unmap `n` pages from `page` on. */
    method UnmapPages(page: nat, n: nat)
      requires mm.refs != mm.va && KP.Sound(mm.State())
      modifies mm`free, mm`hand, mm`pt, mm.refs, mm.va
      ensures KP.RangeUnmapped(old(mm.State()), mm.State(), page, n)
    {
      ghost var m := mm.State();
      var i := 0;
      while i < n
        invariant 0 <= i <= n
        invariant KP.RangeUnmapped(m, mm.State(), page, i)
      {
        ghost var t := mm.State();
        UnmapOne(page + i);
        KP.RangeUnmappedStep(m, t, mm.State(), page, i);
        i := i + 1;
      }
    }

    /** Lower the break while the page below it is unmapped. */
    method TrimBreak()
      requires KP.FIRST <= brk
      modifies this`brk
      ensures brk == KP.Trim(mm.State(), old(brk))
    {
      while brk > KP.FIRST
        invariant KP.FIRST <= brk <= old(brk)
        invariant KP.Trim(mm.State(), brk) == KP.Trim(mm.State(), old(brk))
      {
        var k := Key(KERNEL, brk - 1);
        if k in mm.pt && PRESENT in mm.pt[k].bits { break; }
        brk := brk - 1;
      }
    }

    /** Unmap the range, clear its sizes and lower the break. */
    method Withdraw(page: nat, n: nat)
      requires mm.refs != mm.va && KP.Sound(mm.State()) && KP.FIRST <= brk
      modifies this`brk, this`sizes, mm`free, mm`hand, mm`pt, mm.refs, mm.va
      ensures KP.RangeUnmapped(old(mm.State()), mm.State(), page, n)
      ensures brk == KP.Trim(mm.State(), old(brk))
      ensures sizes == KP.Recorded(old(sizes), page, n, 0)
    {
      UnmapPages(page, n);
      RecordSizes(page, n, 0);
      TrimBreak();
    }

    /** `kfree` of an address in page `page` of the page area. What the callers hold
        afterwards lacks the range of that page, all of which the call may or may not have
        released. */
    method Kfree(page: nat) returns (r: KP.FreeResult)
      requires Valid() && KP.FIRST <= page < HEAP_LIMIT
      modifies this, mm`free, mm`hand, mm`pt, mm.refs, mm.va
      ensures KP.Kfree(old(State()), page, r, State())
      ensures r == KP.Panics <==> !KP.Mapped(old(mm.State()), page)
      ensures r == KP.Freed ==> exists first: nat :: KP.Owns(old(live), first, page) && live == old(live) - {first}
      ensures r == KP.Panics || page in old(live) ==> Valid()
    {
      ghost var h := State();
      KP.InvMeans(h);
      var mapped := IsMapped(page);
      if !mapped { return KP.Panics; }
      ghost var first := KP.PageOwner(h, page);
      var bytes := if page in sizes then sizes[page] else 0;
      if bytes == 0 { return KP.Panics; }
      var n := (bytes + PAGE - 1) / PAGE;
      assert n == KP.FreedPages(h, page);
      Withdraw(page, n);
      live := live - {first};
      assert KP.Kfree(h, page, KP.Freed, State());
      if page == first { KP.KfreeOfStart(h, page, State()); }
      return KP.Freed;
    }
  }

  /** `initialize_paging` and then `kheap_init`, for any amount of memory. */
  method StartKernelHeap(count: nat, low: nat, kernelEnd: nat) returns (heap: PageHeap)
    requires 3 <= low <= kernelEnd <= count
    ensures fresh(heap) && heap.Valid() && heap.brk == KP.FIRST && heap.live == map[]
  {
    var mm := new Manager(count, low, kernelEnd);
    KP.FreshIsStart(mm.State());
    heap := new PageHeap(mm);
  }
}
