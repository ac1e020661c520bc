/** The page path of `kmalloc` and `kfree` over the memory manager. */
module KernelPages {
  import opened Seqs
  import opened Memory
  import opened Holes

  /** First page of the page allocator's area: 32 MB and a guard page above the start of
      the kernel heap. */
  const FIRST: nat := 0xF8001

  const PERM: Bits := {WRITEABLE, PRESENT}

  /** `brk` is the break as a page number, `sizes` the table `allocatedSize` and `live` the
      ranges handed out and not freed, by first page. */
  datatype Heap = Heap(m: Mem, brk: nat, sizes: map<nat, nat>, live: map<nat, nat>)

  datatype Result = Null | OutOfFrames | At(page: nat)

  predicate Mapped(m: Mem, page: nat) { IsPresent(m, Key(KERNEL, page)) }

  function SizeOf(h: Heap, page: nat): (r: nat) { if page in h.sizes then h.sizes[page] else 0 }

  /** Which pages below the break are mapped. */
  function Used(m: Mem, brk: nat): (r: seq<bool>)
    requires FIRST <= brk
  {
    seq(brk - FIRST, i requires 0 <= i => Mapped(m, FIRST + i))
  }

  predicate Owns(live: map<nat, nat>, first: nat, page: nat) {
    first in live && first <= page < first + live[first]
  }

  ghost predicate Owned(live: map<nat, nat>, page: nat) { exists first: nat :: Owns(live, first, page) }

  ghost predicate LiveOk(live: map<nat, nat>, brk: nat) {
    && (forall a :: a in live ==> live[a] > 0 && FIRST <= a && a + live[a] <= brk)
    && (forall a, b :: a in live && b in live && a < b ==> a + live[a] <= b)
  }

  /** Live ranges are disjoint and their union is exactly the mapped pages below the
      break; the page below a raised break is mapped, and nothing above the break is; the
      size table holds the size of the range for each of its pages. */
  ghost predicate Layout(h: Heap) { Shape(h) && SizesMatch(h) }

  ghost predicate Shape(h: Heap) {
    && FIRST <= h.brk < HEAP_LIMIT
    && LiveOk(h.live, h.brk)
    && MappedIsOwned(h)
    && (h.brk > FIRST ==> Mapped(h.m, h.brk - 1))
  }

  ghost predicate Inv(h: Heap) { Sound(h.m) && Layout(h) }

  ghost predicate MappedIsOwned(h: Heap) {
    forall page: nat :: FIRST <= page < HEAP_LIMIT ==> (Mapped(h.m, page) <==> Owned(h.live, page))
  }

  ghost predicate SizesMatch(h: Heap) {
    && (forall first: nat, page: nat :: Owns(h.live, first, page) ==> SizeOf(h, page) == h.live[first] * PAGE)
    && (forall page: nat :: !Owned(h.live, page) ==> SizeOf(h, page) == 0)
  }

  // ----- mapping and unmapping ranges

  ghost predicate Unmapped(m: Mem, page: nat, n: nat) { forall i :: page <= i < page + n ==> !Mapped(m, i) }

  /** Reference counts and reverse map are right. */
  ghost predicate Sound(m: Mem) { RefInv(m) && ReverseInv(m) }

  ghost predicate CanMap(m: Mem, page: nat, n: nat) {
    && Sound(m) && n <= |m.free| && Unmapped(m, page, n)
    && FIRST <= page && page + n <= HEAP_LIMIT
  }

  predicate InSpan(k: Key, page: nat, n: nat) { k.dir == KERNEL && page <= k.page < page + n }

  /** The kernel may read and write the page, user code neither. */
  predicate KernelOnly(m: Mem, k: Key) {
    IsPresent(m, k) && WRITEABLE in EntryAt(m, k).bits && USER !in EntryAt(m, k).bits
  }

  /** `t` is `m` with the first `n` free frames mapped at `n` pages from `page` on, for the
      kernel alone; every other entry of every directory is untouched. */
  ghost predicate RangeMapped(m: Mem, t: Mem, page: nat, n: nat) {
    && Sound(t) && t.pool == m.pool
    && n <= |m.free| && t.free == m.free[n..]
    && (forall k :: InSpan(k, page, n) ==> KernelOnly(t, k))
    && (forall k :: !InSpan(k, page, n) ==> EntryAt(t, k) == EntryAt(m, k))
  }

  lemma PageMapped(m: Mem, page: nat)
    requires CanMap(m, page, 1)
    ensures RangeMapped(m, AllocPage(m, Key(KERNEL, page), PERM), page, 1)
  {
    assert !Mapped(m, page);
    AllocPageReverse(m, Key(KERNEL, page), PERM);
    AllocateInv(m);
    MapKeepsAvailable(AllocateFrame(m), m.free[0], Key(KERNEL, page), PERM);
  }

  lemma CanMapNext(m: Mem, t: Mem, page: nat, i: nat, n: nat)
    requires CanMap(m, page, n) && i < n && RangeMapped(m, t, page, i)
    ensures CanMap(t, page + i, 1)
  {
    assert !Mapped(m, page + i) && !InSpan(Key(KERNEL, page + i), page, i);
  }

  lemma RangeMappedNone(m: Mem, page: nat)
    requires Sound(m)
    ensures RangeMapped(m, m, page, 0)
  {
    assert m.free[0..] == m.free;
  }

  /** One more turn of the mapping loop. */
  lemma RangeMappedStep(m: Mem, t: Mem, u: Mem, page: nat, i: nat)
    requires RangeMapped(m, t, page, i) && RangeMapped(t, u, page + i, 1)
    ensures RangeMapped(m, u, page, i + 1)
  {
    forall k ensures InSpan(k, page, i + 1) ==> KernelOnly(u, k) {
      if InSpan(k, page, i) { assert !InSpan(k, page + i, 1); }
    }
  }

  /** `t` is `m` with `n` pages from `page` on unmapped; every other entry is untouched. */
  ghost predicate RangeUnmapped(m: Mem, t: Mem, page: nat, n: nat) {
    && Sound(t) && t.pool == m.pool
    && (forall k :: InSpan(k, page, n) ==> !IsPresent(t, k))
    && (forall k :: !InSpan(k, page, n) ==> EntryAt(t, k) == EntryAt(m, k))
  }

  lemma PageUnmapped(m: Mem, page: nat)
    requires Sound(m)
    ensures UnmapFrame.requires(m, Key(KERNEL, page))
    ensures RangeUnmapped(m, UnmapFrame(m, Key(KERNEL, page)), page, 1)
  {
    UnmapInv(m, Key(KERNEL, page));
    UnmapReverse(m, Key(KERNEL, page));
    UnmapKeepsAvailable(m, Key(KERNEL, page));
  }

  lemma RangeUnmappedStep(m: Mem, t: Mem, u: Mem, page: nat, i: nat)
    requires RangeUnmapped(m, t, page, i) && RangeUnmapped(t, u, page + i, 1)
    ensures RangeUnmapped(m, u, page, i + 1)
  {
    forall k ensures InSpan(k, page, i + 1) ==> !IsPresent(u, k) {
      if InSpan(k, page, i) { assert !InSpan(k, page + i, 1); }
    }
  }

  lemma RangeMappedPages(m: Mem, t: Mem, page: nat, n: nat)
    requires RangeMapped(m, t, page, n)
    ensures forall i: nat :: Mapped(t, i) <==> Mapped(m, i) || page <= i < page + n
    ensures forall i: nat :: page <= i < page + n ==> KernelOnly(t, Key(KERNEL, i))
  {
    forall i: nat | page <= i < page + n ensures KernelOnly(t, Key(KERNEL, i)) { assert InSpan(Key(KERNEL, i), page, n); }
    forall i: nat ensures Mapped(t, i) <==> Mapped(m, i) || page <= i < page + n {
      assert InSpan(Key(KERNEL, i), page, n) <==> page <= i < page + n;
    }
  }

  lemma RangeUnmappedPages(m: Mem, t: Mem, page: nat, n: nat)
    requires RangeUnmapped(m, t, page, n)
    ensures forall i: nat :: Mapped(t, i) <==> Mapped(m, i) && !(page <= i < page + n)
  {
    forall i: nat ensures Mapped(t, i) <==> Mapped(m, i) && !(page <= i < page + n) {
      assert InSpan(Key(KERNEL, i), page, n) <==> page <= i < page + n;
    }
  }

  /** `n` pages recorded with the size of the whole range. */
  function Recorded(sizes: map<nat, nat>, page: nat, n: nat, bytes: nat): (r: map<nat, nat>)
    ensures forall i :: page <= i < page + n ==> i in r && r[i] == bytes
    ensures forall i :: !(page <= i < page + n) ==> (i in r <==> i in sizes) && (i in sizes ==> r[i] == sizes[i])
    decreases n
  {
    if n == 0 then sizes else Recorded(sizes, page, n - 1, bytes)[page + n - 1 := bytes]
  }

  // ----- kmalloc

  /** Pages of a request: the rounding is done in 32 bits. */
  function Pages(size: nat): (n: nat) { ((size + PAGE - 1) % 0x1_0000_0000) / PAGE }

  lemma PagesFit(size: nat)
    requires 0 < size < 0x1_0000_0000
    ensures Pages(size) > 0 <==> size <= 0xFFFFF000
    ensures size <= 0xFFFFF000 ==> (Pages(size) - 1) * PAGE < size <= Pages(size) * PAGE
  {
  }

  lemma PlaceExists(used: seq<bool>, n: nat)
    ensures exists place :: Places(used, n, place)
  {
    var exact: Option<nat> := None;
    var w: nat, size: nat, i: nat, run: nat := 0, 0, 0, 0;
    while i < |used|
      invariant RunSoFar(used, i, run)
      invariant ExactSoFar(used, i, n, exact) && WorstSoFar(used, i, n, w, size)
    {
      if used[i] {
        TakeExact(used, i, run, n, exact);
        TakeWorst(used, i, run, n, w, size);
        if run > 0 && run == n && exact.None? { exact := Some(i - run); }
        if run > 0 && run >= n && run > size { w, size := i - run, run; }
        run := 0;
      } else {
        SkipPage(used, i, n, exact, w, size);
        run := run + 1;
      }
      i := i + 1;
    }
    TakeExact(used, i, run, n, exact);
    TakeWorst(used, i, run, n, w, size);
    if run > 0 && run == n && exact.None? { exact := Some(i - run); }
    if run > 0 && run >= n && run > size { w, size := i - run, run; }
    ScanDecides(used, n, exact, w, size);
  }

  ghost function Place(used: seq<bool>, n: nat): (r: Option<nat>)
    ensures Places(used, n, r)
  {
    PlaceExists(used, n);
    var place :| Places(used, n, place);
    place
  }

  /** Where the request goes, as a page number. */
  ghost function Spot(h: Heap, n: nat): (r: nat)
    requires FIRST <= h.brk
  {
    match Place(Used(h.m, h.brk), n)
    case Some(p) => FIRST + p
    case None => h.brk
  }

  lemma SpotFits(h: Heap, n: nat)
    requires Inv(h) && h.brk + n < HEAP_LIMIT
    ensures FIRST <= Spot(h, n) && Unmapped(h.m, Spot(h, n), n)
    ensures Place(Used(h.m, h.brk), n).Some? ==> Spot(h, n) + n <= h.brk
    ensures Spot(h, n) + n < HEAP_LIMIT
  {
    var used := Used(h.m, h.brk);
    match Place(used, n)
    case Some(p) =>
      HoleFits(used, n, p);
      forall i | FIRST + p <= i < FIRST + p + n ensures !Mapped(h.m, i) { assert !used[i - FIRST]; }
    case None =>
      forall i | h.brk <= i < h.brk + n ensures !Mapped(h.m, i) { NothingAbove(h, i); }
  }

  lemma HoleFits(used: seq<bool>, n: nat, p: nat)
    requires Places(used, n, Some(p))
    ensures p + n <= |used| && forall i :: p <= i < p + n ==> !used[i]
  {
    if !FirstExact(used, n, p) {
      var size :| FirstLargest(used, n, p, size);
      assert IsHole(used, p, size);
    }
  }

  lemma NothingAbove(h: Heap, page: nat)
    requires Inv(h) && h.brk <= page < HEAP_LIMIT
    ensures !Mapped(h.m, page)
  {
    assert forall first: nat :: !Owns(h.live, first, page);
  }

  /** The page path of `kmalloc`: what a call may return and leave behind. */
  ghost predicate Kmalloc(h: Heap, size: nat, r: Result, t: Heap)
    requires FIRST <= h.brk
  {
    var n := Pages(size);
    if h.brk + n >= HEAP_LIMIT then r == Null && t == h
    else if |h.m.free| < n then r == OutOfFrames && t == h
    else r == At(Spot(h, n)) && Grown(h, n, t)
  }

  /** `n` pages mapped at the chosen spot, recorded and handed out. */
  ghost predicate Grown(h: Heap, n: nat, t: Heap)
    requires FIRST <= h.brk
  {
    && RangeMapped(h.m, t.m, Spot(h, n), n)
    && t.brk == (if Place(Used(h.m, h.brk), n).Some? then h.brk else h.brk + n)
    && t.sizes == Recorded(h.sizes, Spot(h, n), n, n * PAGE)
    && t.live == (if n == 0 then h.live else h.live[Spot(h, n) := n])
  }

  lemma OwnerOwns(live: map<nat, nat>, first: nat, page: nat)
    requires Owns(live, first, page)
    ensures Owned(live, page)
  {
  }

  lemma NotStarted(live: map<nat, nat>, p: nat)
    requires (forall a :: a in live ==> live[a] > 0) && !Owned(live, p)
    ensures p !in live
  {
    if p in live { OwnerOwns(live, p, p); }
  }

  lemma AddedOwned(live: map<nat, nat>, p: nat, n: nat, i: nat)
    requires p !in live
    ensures Owned(live[p := n], i) <==> Owned(live, i) || p <= i < p + n
  {
    var added := live[p := n];
    if p <= i < p + n { OwnerOwns(added, p, i); }
    if a: nat :| Owns(live, a, i) { OwnerOwns(added, a, i); }
    if a: nat :| Owns(added, a, i) {
      if a != p { OwnerOwns(live, a, i); }
    }
  }

  lemma AddedDisjoint(live: map<nat, nat>, p: nat, n: nat, a: nat)
    requires n > 0 && a in live && live[a] > 0
    requires forall i :: p <= i < p + n ==> !Owned(live, i)
    ensures a < p ==> a + live[a] <= p
    ensures p < a ==> p + n <= a
  {
    if a < p < a + live[a] { OwnerOwns(live, a, p); }
    if p < a < p + n { OwnerOwns(live, a, a); }
  }

  /** A new range among the live ones. */
  lemma AddedLive(live: map<nat, nat>, brk: nat, p: nat, n: nat, added: map<nat, nat>, top: nat)
    requires LiveOk(live, brk) && n > 0 && FIRST <= p && brk <= top && p + n <= top && added == live[p := n]
    requires forall i :: p <= i < p + n ==> !Owned(live, i)
    ensures p !in live && LiveOk(added, top)
    ensures forall i: nat :: Owned(added, i) <==> Owned(live, i) || p <= i < p + n
  {
    NotStarted(live, p);
    forall a | a in live
      ensures a < p ==> a + live[a] <= p
      ensures p < a ==> p + n <= a
    {
      AddedDisjoint(live, p, n, a);
    }
    forall i: nat ensures Owned(added, i) <==> Owned(live, i) || p <= i < p + n { AddedOwned(live, p, n, i); }
  }

  lemma AddedSizes(h: Heap, t: Heap, p: nat, n: nat)
    requires SizesMatch(h) && p !in h.live && n > 0
    requires t.live == h.live[p := n] && t.sizes == Recorded(h.sizes, p, n, n * PAGE)
    requires forall i :: p <= i < p + n ==> !Owned(h.live, i)
    requires forall i: nat :: Owned(t.live, i) <==> Owned(h.live, i) || p <= i < p + n
    ensures SizesMatch(t)
  {
    forall first: nat, page: nat | Owns(t.live, first, page) ensures SizeOf(t, page) == t.live[first] * PAGE {
      if first != p {
        assert Owns(h.live, first, page);
        assert Owned(h.live, page);
      }
    }
    forall page: nat | !Owned(t.live, page) ensures SizeOf(t, page) == 0 {
      assert !Owned(h.live, page);
    }
  }

  lemma SpotUnowned(h: Heap, p: nat, n: nat)
    requires MappedIsOwned(h) && FIRST <= p && p + n <= HEAP_LIMIT && Unmapped(h.m, p, n)
    ensures forall i :: p <= i < p + n ==> !Owned(h.live, i)
  {
    forall i | p <= i < p + n ensures !Owned(h.live, i) { assert !Mapped(h.m, i); }
  }

  /** `t` is `h` with a new live range of `n` pages at `p`, mapped for the kernel. */
  ghost predicate Grants(h: Heap, t: Heap, p: nat, n: nat) {
    && p !in h.live && t.live == h.live[p := n]
    && FIRST <= p && p + n < HEAP_LIMIT
    && (forall i :: p <= i < p + n ==> !Owned(h.live, i) && KernelOnly(t.m, Key(KERNEL, i)))
  }

  /** `kmalloc` keeps the invariant; a successful one of at least one page adds a range
      disjoint from every live range; otherwise ranges, break and mapped pages stay. */
  lemma KmallocTheorem(h: Heap, size: nat, r: Result, t: Heap)
    requires Inv(h) && Kmalloc(h, size, r, t)
    ensures Inv(t)
    ensures r.At? && Pages(size) > 0 ==> Grants(h, t, r.page, Pages(size))
    ensures !r.At? ==> t == h
  {
    var n := Pages(size);
    if r.At? {
      SpotFits(h, n);
      RangeMappedPages(h.m, t.m, Spot(h, n), n);
      if n > 0 { GrownLayout(h, t, Spot(h, n), n); } else { GrownNothing(h, t); }
    }
  }

  lemma GrownNothing(h: Heap, t: Heap)
    requires Layout(h) && t.brk == h.brk && t.sizes == h.sizes && t.live == h.live
    requires forall i: nat :: Mapped(t.m, i) <==> Mapped(h.m, i)
    ensures Layout(t)
  {
    forall i: nat ensures SizeOf(t, i) == SizeOf(h, i) { }
  }

  lemma AddedMapped(h: Heap, t: Heap, p: nat, n: nat)
    requires MappedIsOwned(h)
    requires forall i: nat :: Mapped(t.m, i) <==> Mapped(h.m, i) || p <= i < p + n
    requires forall i: nat :: Owned(t.live, i) <==> Owned(h.live, i) || p <= i < p + n
    ensures MappedIsOwned(t)
  {
  }

  lemma GrownLayout(h: Heap, t: Heap, p: nat, n: nat)
    requires Layout(h) && n > 0 && FIRST <= p && p + n < HEAP_LIMIT && Unmapped(h.m, p, n)
    requires forall i: nat :: Mapped(t.m, i) <==> Mapped(h.m, i) || p <= i < p + n
    requires forall i: nat :: p <= i < p + n ==> KernelOnly(t.m, Key(KERNEL, i))
    requires (t.brk == h.brk && p + n <= h.brk) || (p == h.brk && t.brk == h.brk + n)
    requires t.sizes == Recorded(h.sizes, p, n, n * PAGE) && t.live == h.live[p := n]
    ensures Layout(t) && Grants(h, t, p, n)
  {
    SpotUnowned(h, p, n);
    AddedLive(h.live, h.brk, p, n, t.live, t.brk);
    AddedSizes(h, t, p, n);
    AddedMapped(h, t, p, n);
  }

  /** When a request of at least one page succeeds, `n` being the least number of pages with
      room for it: only if the break could be raised by it, whatever holes there are, and
      there are frames for it. */
  lemma KmallocIff(h: Heap, size: nat, r: Result, t: Heap, n: nat)
    requires Inv(h) && Kmalloc(h, size, r, t) && 0 < size <= 0xFFFFF000 && (n - 1) * PAGE < size <= n * PAGE
    ensures r == Null <==> (h.brk + n) * PAGE >= HEAP_LIMIT * PAGE
    ensures r == OutOfFrames <==> (h.brk + n) * PAGE < HEAP_LIMIT * PAGE && |h.m.free| < n
    ensures r.At? <==> (h.brk + n) * PAGE < HEAP_LIMIT * PAGE && n <= |h.m.free|
    ensures r.At? ==> Grants(h, t, r.page, n) && |t.m.free| == |h.m.free| - n
  {
    PagesFit(size);
    assert n == Pages(size);
    KmallocTheorem(h, size, r, t);
  }

  /** Sizes above 0xFFFFF000 round up to zero in 32 bits: the call succeeds and returns an
      address at which nothing is mapped. */
  lemma HugeRequest(h: Heap, size: nat, r: Result, t: Heap)
    requires Inv(h) && 0xFFFFF000 < size < 0x1_0000_0000 && Kmalloc(h, size, r, t)
    ensures r.At? && !Mapped(t.m, r.page) && t.live == h.live
  {
    PagesFit(size);
    SpotFits(h, 0);
    RangeMappedPages(h.m, t.m, Spot(h, 0), 0);
    var used := Used(h.m, h.brk);
    match Place(used, 0)
    case Some(p) =>
      var k :| FirstLargest(used, 0, p, k);
      assert IsHole(used, p, k);
      assert !used[p];
    case None => NothingAbove(h, h.brk);
  }

  /** A request is placed in the first exact hole, else in the first largest hole that
      fits, else at the break, which is raised only then. */
  lemma PlacementRule(h: Heap, size: nat, r: Result, t: Heap)
    requires FIRST <= h.brk && Kmalloc(h, size, r, t) && r.At?
    ensures exists place ::
      && Places(Used(h.m, h.brk), Pages(size), place)
      && r.page == (if place.Some? then FIRST + place.value else h.brk)
      && t.brk == (if place.Some? then h.brk else h.brk + Pages(size))
  {
    var place := Place(Used(h.m, h.brk), Pages(size));
    assert Places(Used(h.m, h.brk), Pages(size), place);
  }

  // ----- kfree

  datatype FreeResult = Freed | Panics

  /** `low` is where lowering the break from `brk` stops. */
  ghost predicate IsTrimmed(m: Mem, brk: nat, low: nat) {
    && FIRST <= low <= brk
    && (low > FIRST ==> Mapped(m, low - 1))
    && (forall i :: low <= i < brk ==> !Mapped(m, i))
  }

  /** Lower the break past unmapped pages. */
  function Trim(m: Mem, brk: nat): (r: nat)
    requires FIRST <= brk
    ensures IsTrimmed(m, brk, r)
    decreases brk
  {
    if brk > FIRST && !Mapped(m, brk - 1) then Trim(m, brk - 1) else brk
  }

  /** Pages released by `kfree(page)`: from the recorded size. */
  function FreedPages(h: Heap, page: nat): (n: nat) { (SizeOf(h, page) + PAGE - 1) / PAGE }

  /** The page path of `kfree`, with `t.live` the ranges the callers still hold. */
  ghost predicate Kfree(h: Heap, page: nat, r: FreeResult, t: Heap)
    requires FIRST <= h.brk
  {
    if !Mapped(h.m, page) || SizeOf(h, page) == 0 then r == Panics && t == h
    else
      && r == Freed
      && RangeUnmapped(h.m, t.m, page, FreedPages(h, page))
      && t.brk == Trim(t.m, h.brk)
      && t.sizes == Recorded(h.sizes, page, FreedPages(h, page), 0)
  }

  lemma OnlyOwner(live: map<nat, nat>, brk: nat, a: nat, b: nat, i: nat)
    requires LiveOk(live, brk) && Owns(live, a, i) && Owns(live, b, i)
    ensures a == b
  {
  }

  lemma RemovedOwned(live: map<nat, nat>, brk: nat, first: nat, i: nat)
    requires LiveOk(live, brk) && first in live
    ensures Owned(live - {first}, i) <==> Owned(live, i) && !(first <= i < first + live[first])
  {
    var rest := live - {first};
    if a: nat :| Owns(rest, a, i) {
      OwnerOwns(live, a, i);
      if first <= i < first + live[first] { OnlyOwner(live, brk, a, first, i); }
    }
    if Owned(live, i) && !(first <= i < first + live[first]) {
      var a: nat :| Owns(live, a, i);
      OwnerOwns(rest, a, i);
    }
  }

  lemma RemovedLive(live: map<nat, nat>, brk: nat, first: nat, rest: map<nat, nat>)
    requires LiveOk(live, brk) && first in live && rest == live - {first}
    ensures LiveOk(rest, brk)
    ensures forall i: nat :: Owned(rest, i) <==> Owned(live, i) && !(first <= i < first + live[first])
  {
    forall i: nat ensures Owned(rest, i) <==> Owned(live, i) && !(first <= i < first + live[first]) {
      RemovedOwned(live, brk, first, i);
    }
  }

  lemma RemovedSizes(h: Heap, t: Heap, first: nat)
    requires Layout(h) && first in h.live
    requires t.live == h.live - {first} && t.sizes == Recorded(h.sizes, first, h.live[first], 0)
    requires forall i: nat :: Owned(t.live, i) <==> Owned(h.live, i) && !(first <= i < first + h.live[first])
    ensures SizesMatch(t)
  {
    forall a: nat, page: nat | Owns(t.live, a, page) ensures SizeOf(t, page) == t.live[a] * PAGE {
      assert Owns(h.live, a, page);
      OwnerOwns(t.live, a, page);
    }
    forall page: nat | !Owned(t.live, page) ensures SizeOf(t, page) == 0 {
      if !(first <= page < first + h.live[first]) { assert !Owned(h.live, page); }
    }
  }

  /** The live ranges still fit below the lowered break. */
  lemma TrimmedLive(live: map<nat, nat>, brk: nat, low: nat)
    requires LiveOk(live, brk) && low <= brk
    requires forall i :: low <= i < brk ==> !Owned(live, i)
    ensures LiveOk(live, low)
  {
    forall a | a in live ensures a + live[a] <= low {
      if a + live[a] > low { OwnerOwns(live, a, a + live[a] - 1); }
    }
  }

  lemma RemovedMapped(h: Heap, t: Heap, first: nat, n: nat)
    requires MappedIsOwned(h)
    requires forall i: nat :: Mapped(t.m, i) <==> Mapped(h.m, i) && !(first <= i < first + n)
    requires forall i: nat :: Owned(t.live, i) <==> Owned(h.live, i) && !(first <= i < first + n)
    ensures MappedIsOwned(t)
  {
  }

  lemma AboveTrim(t: Heap, brk: nat)
    requires FIRST <= brk <= HEAP_LIMIT && MappedIsOwned(t) && IsTrimmed(t.m, brk, t.brk)
    ensures forall i :: t.brk <= i < brk ==> !Owned(t.live, i)
  {
    forall i | t.brk <= i < brk ensures !Owned(t.live, i) { assert !Mapped(t.m, i); }
  }

  lemma FreedShape(h: Heap, t: Heap, first: nat)
    requires Shape(h) && first in h.live && t.live == h.live - {first}
    requires forall i: nat :: Mapped(t.m, i) <==> Mapped(h.m, i) && !(first <= i < first + h.live[first])
    requires IsTrimmed(t.m, h.brk, t.brk)
    ensures Shape(t)
    ensures forall i: nat :: Owned(t.live, i) <==> Owned(h.live, i) && !(first <= i < first + h.live[first])
  {
    RemovedLive(h.live, h.brk, first, t.live);
    RemovedMapped(h, t, first, h.live[first]);
    AboveTrim(t, h.brk);
    TrimmedLive(t.live, h.brk, t.brk);
  }

  lemma FreedLayout(h: Heap, t: Heap, first: nat)
    requires Layout(h) && first in h.live
    requires forall i: nat :: Mapped(t.m, i) <==> Mapped(h.m, i) && !(first <= i < first + h.live[first])
    requires IsTrimmed(t.m, h.brk, t.brk)
    requires t.sizes == Recorded(h.sizes, first, h.live[first], 0) && t.live == h.live - {first}
    ensures Layout(t)
  {
    FreedShape(h, t, first);
    RemovedSizes(h, t, first);
  }

  lemma StartPage(h: Heap, first: nat)
    requires Inv(h) && first in h.live
    ensures Sound(h.m) && FIRST <= h.brk
    ensures Owns(h.live, first, first) && Mapped(h.m, first)
    ensures SizeOf(h, first) == h.live[first] * PAGE > 0 && FreedPages(h, first) == h.live[first]
  {
    OwnerOwns(h.live, first, first);
  }

  /** The range of a mapped page, and what the size table says of it. */
  lemma PageOwner(h: Heap, page: nat) returns (first: nat)
    requires Inv(h) && FIRST <= page < HEAP_LIMIT && Mapped(h.m, page)
    ensures Owns(h.live, first, page) && (page in h.live ==> page == first)
    ensures SizeOf(h, page) == h.live[first] * PAGE > 0 && FreedPages(h, page) == h.live[first]
  {
    assert Owned(h.live, page);
    first :| Owns(h.live, first, page);
    if page in h.live { OnlyOwner(h.live, h.brk, first, page, page); }
  }

  lemma InvMeans(h: Heap)
    requires Inv(h)
    ensures Sound(h.m) && FIRST <= h.brk
  {
  }

  /** Freeing the first page of a live range gives back exactly that range, lowers the
      break past it if it was the topmost, and keeps the invariant. */
  lemma KfreeTheorem(h: Heap, first: nat, r: FreeResult, t: Heap)
    requires Inv(h) && first in h.live && Kfree(h, first, r, t) && t.live == h.live - {first}
    ensures r == Freed && Inv(t)
    ensures forall i: nat :: Mapped(t.m, i) <==> Mapped(h.m, i) && !(first <= i < first + h.live[first])
  {
    StartPage(h, first);
    RangeUnmappedPages(h.m, t.m, first, h.live[first]);
    FreedLayout(h, t, first);
  }

  /** What the code of `kfree` does for the start of a range is a `Kfree` step. */
  lemma KfreeOfStart(h: Heap, first: nat, t: Heap)
    requires Inv(h) && first in h.live && RangeUnmapped(h.m, t.m, first, h.live[first])
    requires t.brk == Trim(t.m, h.brk) && t.sizes == Recorded(h.sizes, first, h.live[first], 0)
    requires t.live == h.live - {first}
    ensures Kfree(h, first, Freed, t) && Inv(t)
  {
    StartPage(h, first);
    KfreeTheorem(h, first, Freed, t);
  }

  /** Every page of a range records the size of the whole range, so freeing from an inner
      page releases as many pages from there on: the layout survives exactly when the
      page is the range's first. */
  lemma KfreeIff(h: Heap, first: nat, page: nat, r: FreeResult, t: Heap)
    requires Inv(h) && Owns(h.live, first, page) && Kfree(h, page, r, t) && t.live == h.live - {first}
    ensures r == Freed
    ensures Layout(t) <==> page == first
  {
    StartPage(h, first);
    OwnerOwns(h.live, first, page);
    RangeUnmappedPages(h.m, t.m, page, FreedPages(h, page));
    if page == first {
      FreedLayout(h, t, first);
    } else {
      assert Mapped(t.m, first);
      RemovedOwned(h.live, h.brk, first, first);
      assert !MappedIsOwned(t);
    }
  }

  // ----- whole runs

  ghost predicate IsStart(m: Mem) {
    Sound(m) && forall page: nat :: FIRST <= page < HEAP_LIMIT ==> !Mapped(m, page)
  }

  /** A memory manager that has mapped nothing yet is a start. */
  lemma FreshIsStart(m: Mem)
    requires RefInv(m) && ReverseInv(m) && m.pt == map[]
    ensures IsStart(m)
  {
  }

  lemma StartInv(m: Mem)
    requires IsStart(m)
    ensures Inv(Heap(m, FIRST, map[], map[]))
  {
    var h := Heap(m, FIRST, map[], map[]);
    assert forall a: nat, i: nat :: !Owns(h.live, a, i);
  }

  datatype Op = Malloc(size: nat, result: Result) | Free(first: nat)

  /** One call and its outcome. A caller may free only the start of a live range. */
  ghost predicate Step(h: Heap, op: Op, t: Heap) {
    h.brk >= FIRST &&
    match op
    case Malloc(size, r) => Kmalloc(h, size, r, t)
    case Free(first) => first in h.live && Kfree(h, first, Freed, t) && t.live == h.live - {first}
  }

  /** The states of a run, one more than its calls. */
  ghost predicate IsRun(hs: seq<Heap>, ops: seq<Op>) {
    |hs| == |ops| + 1 && forall i :: 0 <= i < |ops| ==> Step(hs[i], ops[i], hs[i + 1])
  }

  lemma {:induction false} RunInv(hs: seq<Heap>, ops: seq<Op>, i: nat)
    requires IsRun(hs, ops) && Inv(hs[0]) && i < |hs|
    ensures Inv(hs[i])
    decreases i
  {
    if i > 0 {
      var before := i - 1;
      RunInv(hs, ops, before);
      assert Step(hs[before], ops[before], hs[before + 1]);
      StepInv(hs[before], ops[before], hs[i]);
    }
  }

  lemma StepInv(h: Heap, op: Op, t: Heap)
    requires Inv(h) && Step(h, op, t)
    ensures Inv(t)
  {
    match op
    case Malloc(size, r) => KmallocTheorem(h, size, r, t);
    case Free(first) => KfreeTheorem(h, first, Freed, t);
  }

  /** Over all runs: live ranges are disjoint and are exactly the mapped pages; the page
      just below a raised break is mapped, so no hole ever reaches the break; and the
      reverse map is right for every heap address. */
  lemma KernelHeapTheorem(hs: seq<Heap>, ops: seq<Op>)
    requires IsRun(hs, ops) && IsStart(hs[0].m) && hs[0] == Heap(hs[0].m, FIRST, map[], map[])
    ensures var h := hs[|ops|];
      && FIRST <= h.brk
      && (forall a, b :: a in h.live && b in h.live && a < b ==> a + h.live[a] <= b)
      && (forall page: nat :: FIRST <= page < HEAP_LIMIT ==> (Mapped(h.m, page) <==> Owned(h.live, page)))
      && (forall hole: nat, n: nat :: IsHole(Used(h.m, h.brk), hole, n) ==> hole + n < |Used(h.m, h.brk)|)
      && (forall va: nat :: HEAP_FIRST * PAGE <= va < HEAP_LIMIT * PAGE && KheapPhysical(h.m, va) != 0 ==>
            KheapVirtual(h.m, KheapPhysical(h.m, va)) == va)
  {
    StartInv(hs[0].m);
    RunInv(hs, ops, |ops|);
    var h := hs[|ops|];
    NoTrailingHole(h);
    forall va: nat | HEAP_FIRST * PAGE <= va < HEAP_LIMIT * PAGE && KheapPhysical(h.m, va) != 0
      ensures KheapVirtual(h.m, KheapPhysical(h.m, va)) == va { LookupsInverse(h.m, va); }
  }

  /** The scan's case for a hole that ends at the break never arises. */
  lemma NoTrailingHole(h: Heap)
    requires Layout(h)
    ensures forall hole: nat, n: nat :: IsHole(Used(h.m, h.brk), hole, n) ==> hole + n < |Used(h.m, h.brk)|
  {
    var used := Used(h.m, h.brk);
    forall hole: nat, n: nat | IsHole(used, hole, n) ensures hole + n < |used| {
      assert used[|used| - 1] == Mapped(h.m, h.brk - 1);
    }
  }
}
