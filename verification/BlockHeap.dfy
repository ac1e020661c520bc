/** The size-class block allocator: the heap as one value, and what allocation and release
    do to it. Addresses are plain numbers. */
module BlockHeap {
  import opened Seqs

  const PAGE: nat := 4096
  const CLASSES: nat := 9
  const MAX_BLOCK: nat := 2048

  /** `blockSize` and `numFree` are the page-info array; `freePages` holds page numbers and
      `lists` the addresses of free blocks, one list per size class, head first. */
  datatype Heap = Heap(start: nat, blockSize: seq<nat>, numFree: seq<nat>, freePages: seq<nat>, lists: seq<seq<nat>>)

  datatype Result = Null | TooLarge | WouldBlock | Block(va: nat)

  // ----- size classes

  function Size(k: nat): (r: nat)
    ensures r >= 8
  {
    if k == 0 then 8 else 2 * Size(k - 1)
  }

  lemma SizeTable()
    ensures Size(0) == 8 && Size(1) == 16 && Size(2) == 32 && Size(3) == 64 && Size(4) == 128
    ensures Size(5) == 256 && Size(6) == 512 && Size(7) == 1024 && Size(8) == 2048
  {
    assert Size(2) == 2 * Size(1);
    assert Size(4) == 2 * Size(3) == 4 * Size(2);
    assert Size(6) == 2 * Size(5) == 4 * Size(4);
    assert Size(8) == 2 * Size(7) == 4 * Size(6);
  }

  predicate IsSize(s: nat) { s in {8, 16, 32, 64, 128, 256, 512, 1024, 2048} }

  function ClassOf(s: nat): (r: nat)
    requires IsSize(s)
    ensures r < CLASSES
  {
    if s == 8 then 0 else if s == 16 then 1 else if s == 32 then 2 else if s == 64 then 3
    else if s == 128 then 4 else if s == 256 then 5 else if s == 512 then 6 else if s == 1024 then 7 else 8
  }

  lemma ClassOfSize(k: nat)
    requires k < CLASSES
    ensures IsSize(Size(k)) && ClassOf(Size(k)) == k
  {
    SizeTable();
  }

  lemma SizeOfClass(s: nat)
    requires IsSize(s)
    ensures Size(ClassOf(s)) == s
  {
    SizeTable();
  }

  /** Blocks of size `s` in a page. */
  function Slots(s: nat): (r: nat)
    requires IsSize(s)
    ensures r * s == PAGE && r >= 2
  {
    PAGE / s
  }

  /** The least class that fits `size`. */
  function ClassFor(size: nat): (r: nat)
    requires 0 < size <= MAX_BLOCK
    ensures r < CLASSES && size <= Size(r)
    ensures forall k :: 0 <= k < r ==> Size(k) < size
  {
    SizeTable();
    if size <= 8 then 0 else if size <= 16 then 1 else if size <= 32 then 2 else if size <= 64 then 3
    else if size <= 128 then 4 else if size <= 256 then 5 else if size <= 512 then 6
    else if size <= 1024 then 7 else 8
  }

  // ----- addresses

  function NumPages(h: Heap): (r: nat) { |h.blockSize| }

  predicate InRange(h: Heap, a: nat) { h.start <= a < h.start + PAGE * NumPages(h) }

  function PageOf(h: Heap, a: nat): (r: nat)
    requires InRange(h, a)
    ensures r < NumPages(h)
  {
    (a - h.start) / PAGE
  }

  function Offset(h: Heap, a: nat): (r: nat)
    requires a >= h.start
    ensures r < PAGE
  {
    (a - h.start) % PAGE
  }

  function Addr(h: Heap, p: nat, o: nat): (r: nat) { h.start + PAGE * p + o }

  lemma AddrParts(h: Heap, p: nat, o: nat)
    requires p < NumPages(h) && o < PAGE
    ensures InRange(h, Addr(h, p, o)) && PageOf(h, Addr(h, p, o)) == p && Offset(h, Addr(h, p, o)) == o
  {
  }

  lemma AddrOf(h: Heap, a: nat)
    requires InRange(h, a)
    ensures a == Addr(h, PageOf(h, a), Offset(h, a))
  {
  }

  // ----- well-formed heaps

  ghost predicate PagesOk(h: Heap) {
    && |h.numFree| == NumPages(h) && |h.lists| == CLASSES
    && NoDup(h.freePages)
    && (forall p :: p in h.freePages ==> p < NumPages(h))
    && (forall p :: 0 <= p < NumPages(h) ==> h.blockSize[p] == 0 || IsSize(h.blockSize[p]))
    && (forall p :: 0 <= p < NumPages(h) ==> (h.blockSize[p] == 0 <==> p in h.freePages))
  }

  /** `a` is the first byte of a block: its page is carved and its offset is a multiple of
      the page's block size. */
  predicate IsBlock(h: Heap, a: nat) {
    InRange(h, a) && IsSize(h.blockSize[PageOf(h, a)]) && Offset(h, a) % h.blockSize[PageOf(h, a)] == 0
  }

  function SizeAt(h: Heap, a: nat): (r: nat)
    requires IsBlock(h, a)
  {
    h.blockSize[PageOf(h, a)]
  }

  predicate Listed(h: Heap, a: nat)
    requires |h.lists| == CLASSES
  {
    IsBlock(h, a) && a in h.lists[ClassOf(SizeAt(h, a))]
  }

  /** The free blocks of page `p`. */
  ghost function FreeIn(h: Heap, p: nat): (r: set<nat>)
    requires p < NumPages(h) && |h.lists| == CLASSES
  {
    if IsSize(h.blockSize[p])
    then set a | a in h.lists[ClassOf(h.blockSize[p])] && InRange(h, a) && PageOf(h, a) == p
    else {}
  }

  /** Every block is either live or on the free list of its class, never both, and the
      page counters are right. */
  ghost predicate Core(h: Heap, live: set<nat>) {
    && PagesOk(h)
    && (forall k :: 0 <= k < CLASSES ==> NoDup(h.lists[k]))
    && (forall k, a :: 0 <= k < CLASSES && a in h.lists[k] ==> IsBlock(h, a) && SizeAt(h, a) == Size(k))
    && (forall a :: a in live ==> IsBlock(h, a) && !Listed(h, a))
    && (forall a :: IsBlock(h, a) ==> a in live || Listed(h, a))
    && (forall p :: 0 <= p < NumPages(h) ==> h.numFree[p] == |FreeIn(h, p)|)
  }

  /** No carved page is entirely free: such a page is given back at once. */
  ghost predicate Reclaimed(h: Heap)
    requires |h.numFree| == NumPages(h)
  {
    forall p :: 0 <= p < NumPages(h) && IsSize(h.blockSize[p]) ==> h.numFree[p] < Slots(h.blockSize[p])
  }

  ghost predicate Inv(h: Heap, live: set<nat>) { Core(h, live) && Reclaimed(h) }

  // ----- alloc_block

  function Take(h: Heap, k: nat): (r: Heap)
    requires k < |h.lists| && h.lists[k] != [] && InRange(h, h.lists[k][0])
    requires |h.numFree| == NumPages(h) && h.numFree[PageOf(h, h.lists[k][0])] > 0
  {
    var p := PageOf(h, h.lists[k][0]);
    h.(lists := h.lists[k := h.lists[k][1..]], numFree := h.numFree[p := h.numFree[p] - 1])
  }

  /** The blocks of page `p` cut into class `k`, in address order. */
  function Cut(h: Heap, p: nat, k: nat): (r: seq<nat>)
    requires k < CLASSES
  {
    ClassOfSize(k);
    seq(Slots(Size(k)), i requires 0 <= i => Addr(h, p, i * Size(k)))
  }

  function Carve(h: Heap, k: nat): (r: Heap)
    requires k < CLASSES == |h.lists| && h.freePages != [] && h.freePages[0] < NumPages(h) == |h.numFree|
  {
    ClassOfSize(k);
    var p := h.freePages[0];
    h.(freePages := h.freePages[1..],
       blockSize := h.blockSize[p := Size(k)],
       numFree := h.numFree[p := Slots(Size(k))],
       lists := h.lists[k := h.lists[k] + Cut(h, p, k)])
  }

  // ----- taking a block off a list

  lemma ListHead(h: Heap, live: set<nat>, k: nat)
    requires Core(h, live) && k < CLASSES && h.lists[k] != []
    ensures var a := h.lists[k][0];
      && IsBlock(h, a) && SizeAt(h, a) == Size(k) && Listed(h, a)
      && a in FreeIn(h, PageOf(h, a)) && h.numFree[PageOf(h, a)] > 0
  {
    var a := h.lists[k][0];
    assert a in h.lists[k];
    assert IsBlock(h, a) && SizeAt(h, a) == Size(k);
    ClassOfSize(k);
    assert a in FreeIn(h, PageOf(h, a));
  }

  lemma TakeFreeIn(h: Heap, live: set<nat>, k: nat, p: nat)
    requires Core(h, live) && k < CLASSES && h.lists[k] != [] && p < NumPages(h)
    requires InRange(h, h.lists[k][0]) && h.numFree[PageOf(h, h.lists[k][0])] > 0
    ensures FreeIn(Take(h, k), p) == FreeIn(h, p) - {h.lists[k][0]}
  {
    var a := h.lists[k][0];
    ListHead(h, live, k);
    var t := Take(h, k);
    assert NoDup(h.lists[k]);
    assert h.lists[k] == [a] + h.lists[k][1..];
    ClassOfSize(k);
    if IsSize(h.blockSize[p]) && ClassOf(h.blockSize[p]) != k {
      assert PageOf(h, a) != p;
    }
  }

  lemma TakeListed(h: Heap, live: set<nat>, k: nat, b: nat)
    requires Core(h, live) && k < CLASSES && h.lists[k] != []
    requires InRange(h, h.lists[k][0]) && h.numFree[PageOf(h, h.lists[k][0])] > 0
    ensures Listed(Take(h, k), b) <==> Listed(h, b) && b != h.lists[k][0]
  {
    var a := h.lists[k][0];
    ListHead(h, live, k);
    assert NoDup(h.lists[k]);
    assert h.lists[k] == [a] + h.lists[k][1..];
    ClassOfSize(k);
  }

  /** Taking the head of a list makes it live and keeps everything else in place. */
  lemma TakeCore(h: Heap, live: set<nat>, k: nat)
    requires Core(h, live) && k < CLASSES && h.lists[k] != []
    ensures var a := h.lists[k][0];
      && InRange(h, a) && h.numFree[PageOf(h, a)] > 0 && a !in live
      && Core(Take(h, k), live + {a})
  {
    ListHead(h, live, k);
    TakeLive(h, live, k);
    TakeCounts(h, live, k);
    TakeLists(h, live, k);
  }

  lemma TakeLive(h: Heap, live: set<nat>, k: nat)
    requires Core(h, live) && k < CLASSES && h.lists[k] != []
    requires InRange(h, h.lists[k][0]) && h.numFree[PageOf(h, h.lists[k][0])] > 0
    ensures var a := h.lists[k][0]; var t := Take(h, k);
      && PagesOk(t)
      && (forall b :: b in live + {a} ==> IsBlock(t, b) && !Listed(t, b))
      && (forall b :: IsBlock(t, b) ==> b in live + {a} || Listed(t, b))
  {
    var a := h.lists[k][0];
    ListHead(h, live, k);
    var t := Take(h, k);
    forall b ensures IsBlock(t, b) <==> IsBlock(h, b) { SameBlocks(h, t, b); }
    forall b ensures Listed(t, b) <==> Listed(h, b) && b != a { TakeListed(h, live, k, b); }
  }

  lemma TakeCounts(h: Heap, live: set<nat>, k: nat)
    requires Core(h, live) && k < CLASSES && h.lists[k] != []
    requires InRange(h, h.lists[k][0]) && h.numFree[PageOf(h, h.lists[k][0])] > 0
    ensures forall p :: 0 <= p < NumPages(h) ==> Take(h, k).numFree[p] == |FreeIn(Take(h, k), p)|
  {
    var a := h.lists[k][0];
    ListHead(h, live, k);
    forall p | 0 <= p < NumPages(h) ensures Take(h, k).numFree[p] == |FreeIn(Take(h, k), p)| {
      TakeFreeIn(h, live, k, p);
      if p != PageOf(h, a) { assert a !in FreeIn(h, p); }
    }
  }

  lemma TakeLists(h: Heap, live: set<nat>, k: nat)
    requires Core(h, live) && k < CLASSES && h.lists[k] != []
    requires InRange(h, h.lists[k][0]) && h.numFree[PageOf(h, h.lists[k][0])] > 0
    ensures var t := Take(h, k);
      && (forall j :: 0 <= j < CLASSES ==> NoDup(t.lists[j]))
      && (forall j, b :: 0 <= j < CLASSES && b in t.lists[j] ==> IsBlock(t, b) && SizeAt(t, b) == Size(j))
  {
    var t := Take(h, k);
    forall j | 0 <= j < CLASSES ensures NoDup(t.lists[j]) { assert NoDup(h.lists[j]); }
    forall j, b | 0 <= j < CLASSES && b in t.lists[j] ensures IsBlock(t, b) && SizeAt(t, b) == Size(j) {
      assert b in h.lists[j];
      assert IsBlock(h, b) && SizeAt(h, b) == Size(j);
    }
  }

  // ----- cutting a page

  lemma CutAt(h: Heap, p: nat, k: nat, i: nat)
    requires k < CLASSES && i < |Cut(h, p, k)| && p < NumPages(h)
    ensures i * Size(k) + Size(k) <= PAGE
    ensures var a := Cut(h, p, k)[i];
      a == Addr(h, p, i * Size(k)) && InRange(h, a) && PageOf(h, a) == p && Offset(h, a) == i * Size(k)
    ensures (i * Size(k)) % Size(k) == 0 && (i * Size(k)) / Size(k) == i
  {
    ClassOfSize(k);
    var s := Size(k);
    assert (i + 1) * s <= Slots(s) * s;
    assert (i + 1) * s == i * s + s;
    AddrParts(h, p, i * s);
    Multiple(i, s);
  }

  lemma MulBounds(d: int, s: nat)
    ensures d >= 1 ==> d * s >= s
    ensures d <= -1 ==> d * s + s <= 0
    ensures d >= 0 ==> d * s >= 0
  {
  }

  lemma Multiple(i: nat, s: nat)
    requires s > 0
    ensures (i * s) % s == 0 && (i * s) / s == i
  {
    var q, r := (i * s) / s, (i * s) % s;
    assert (i - q) * s == r;
    MulBounds(i - q, s);
  }

  lemma SmallerFactor(i: nat, n: nat, s: nat)
    requires i * s < n * s
    ensures i < n
  {
    assert i * s - n * s == (i - n) * s;
    MulBounds(i - n, s);
  }

  lemma CutNoDup(h: Heap, p: nat, k: nat)
    requires k < CLASSES && p < NumPages(h)
    ensures NoDup(Cut(h, p, k))
  {
    forall i, j | 0 <= i < j < |Cut(h, p, k)| ensures Cut(h, p, k)[i] != Cut(h, p, k)[j] {
      CutAt(h, p, k, i);
      CutAt(h, p, k, j);
    }
  }

  /** An address of page `p` at a multiple of the block size is one of the cut. */
  lemma CutComplete(h: Heap, p: nat, k: nat, a: nat)
    requires k < CLASSES && p < NumPages(h)
    ensures a in Cut(h, p, k) <==> InRange(h, a) && PageOf(h, a) == p && Offset(h, a) % Size(k) == 0
  {
    var s := Size(k);
    ClassOfSize(k);
    if a in Cut(h, p, k) {
      var i :| 0 <= i < |Cut(h, p, k)| && Cut(h, p, k)[i] == a;
      CutAt(h, p, k, i);
    }
    if InRange(h, a) && PageOf(h, a) == p && Offset(h, a) % s == 0 {
      var i := Offset(h, a) / s;
      assert Offset(h, a) == i * s;
      SmallerFactor(i, Slots(s), s);
      AddrOf(h, a);
      assert Cut(h, p, k)[i] == a;
    }
  }

  /** The blocks of a carved page are as many as its size says. */
  lemma PageBlocks(h: Heap, p: nat) returns (blocks: set<nat>)
    requires p < NumPages(h) && IsSize(h.blockSize[p])
    ensures forall a :: a in blocks <==> IsBlock(h, a) && PageOf(h, a) == p
    ensures |blocks| == Slots(h.blockSize[p])
  {
    var k := ClassOf(h.blockSize[p]);
    SizeOfClass(h.blockSize[p]);
    var cut := Cut(h, p, k);
    blocks := set a | a in cut;
    CutNoDup(h, p, k);
    NoDupCardExact(cut, blocks);
    forall a ensures a in blocks <==> IsBlock(h, a) && PageOf(h, a) == p { CutComplete(h, p, k, a); }
  }

  // ----- carving a page

  lemma FirstFreePage(h: Heap)
    requires PagesOk(h) && h.freePages != []
    ensures h.freePages[0] < NumPages(h) && h.blockSize[h.freePages[0]] == 0
  {
    assert h.freePages[0] in h.freePages;
  }

  /** Carving does not disturb the blocks of other pages and turns the page's own
      addresses into free blocks. */
  lemma CarveBlocks(h: Heap, live: set<nat>, k: nat, a: nat)
    requires Core(h, live) && k < CLASSES && h.freePages != []
    ensures h.freePages[0] < NumPages(h)
    ensures IsBlock(Carve(h, k), a) <==> IsBlock(h, a) || a in Cut(h, h.freePages[0], k)
    ensures IsBlock(h, a) ==> PageOf(h, a) != h.freePages[0] && SizeAt(Carve(h, k), a) == SizeAt(h, a)
    ensures a in Cut(h, h.freePages[0], k) ==> !IsBlock(h, a) && SizeAt(Carve(h, k), a) == Size(k)
  {
    FirstFreePage(h);
    BlockAfter(h, Carve(h, k), h.freePages[0], k, a);
  }

  lemma BlockAfter(h: Heap, t: Heap, p: nat, k: nat, a: nat)
    requires p < NumPages(h) && h.blockSize[p] == 0 && k < CLASSES
    requires t.start == h.start && t.blockSize == h.blockSize[p := Size(k)]
    ensures IsBlock(t, a) <==> IsBlock(h, a) || a in Cut(h, p, k)
    ensures IsBlock(h, a) ==> PageOf(h, a) != p && SizeAt(t, a) == SizeAt(h, a)
    ensures a in Cut(h, p, k) ==> !IsBlock(h, a) && SizeAt(t, a) == Size(k)
  {
    ClassOfSize(k);
    CutComplete(h, p, k, a);
    if InRange(h, a) {
      assert PageOf(t, a) == PageOf(h, a) && Offset(t, a) == Offset(h, a);
    }
  }

  lemma CarveListed(h: Heap, live: set<nat>, k: nat, a: nat)
    requires Core(h, live) && k < CLASSES && h.freePages != []
    ensures h.freePages[0] < NumPages(h)
    ensures Listed(Carve(h, k), a) <==> Listed(h, a) || a in Cut(h, h.freePages[0], k)
  {
    CarveBlocks(h, live, k, a);
    ClassOfSize(k);
    if IsBlock(h, a) { SizeOfClass(SizeAt(h, a)); }
  }

  lemma CarveFreeIn(h: Heap, live: set<nat>, k: nat, q: nat)
    requires Core(h, live) && k < CLASSES && h.freePages != [] && q < NumPages(h)
    ensures h.freePages[0] < NumPages(h)
    ensures Carve(h, k).numFree[q] == |FreeIn(Carve(h, k), q)|
  {
    var p := h.freePages[0];
    assert p in h.freePages;
    var t := Carve(h, k);
    ClassOfSize(k);
    var cut := Cut(h, p, k);
    if q == p {
      CutNoDup(h, p, k);
      forall a ensures a in cut <==> a in FreeIn(t, p) {
        CutComplete(h, p, k, a);
        if a in h.lists[k] { assert IsBlock(h, a); }
      }
      NoDupCardExact(cut, FreeIn(t, p));
    } else {
      forall a ensures a in FreeIn(t, q) <==> a in FreeIn(h, q) { CutComplete(h, p, k, a); }
      assert FreeIn(t, q) == FreeIn(h, q);
    }
  }

  lemma CarveLists(h: Heap, live: set<nat>, k: nat)
    requires Core(h, live) && k < CLASSES && h.freePages != []
    ensures h.freePages[0] < NumPages(h)
    ensures var t := Carve(h, k);
      && (forall j :: 0 <= j < CLASSES ==> NoDup(t.lists[j]))
      && (forall j, b :: 0 <= j < CLASSES && b in t.lists[j] ==> IsBlock(t, b) && SizeAt(t, b) == Size(j))
  {
    var p := h.freePages[0];
    assert p in h.freePages;
    var t := Carve(h, k);
    forall j | 0 <= j < CLASSES ensures NoDup(t.lists[j]) {
      assert NoDup(h.lists[j]);
      if j == k {
        CutNoDup(h, p, k);
        forall a | a in h.lists[k] ensures a !in Cut(h, p, k) {
          assert IsBlock(h, a);
          CarveBlocks(h, live, k, a);
        }
        NoDupAppend(h.lists[k], Cut(h, p, k));
      }
    }
    forall j, b | 0 <= j < CLASSES && b in t.lists[j] ensures IsBlock(t, b) && SizeAt(t, b) == Size(j) {
      CarveBlocks(h, live, k, b);
      if b in h.lists[j] { assert IsBlock(h, b) && SizeAt(h, b) == Size(j); }
    }
  }

  lemma CarvePages(h: Heap, k: nat)
    requires PagesOk(h) && k < CLASSES && h.freePages != []
    ensures h.freePages[0] < NumPages(h) && PagesOk(Carve(h, k))
  {
    var p := h.freePages[0];
    assert p in h.freePages;
    ClassOfSize(k);
    var t := Carve(h, k);
    assert h.freePages == [p] + t.freePages;
    forall q | q in t.freePages ensures q < NumPages(t) { assert q in h.freePages; }
    forall q | 0 <= q < NumPages(t) ensures t.blockSize[q] == 0 <==> q in t.freePages {
      assert h.blockSize[q] == 0 <==> q in h.freePages;
    }
  }

  lemma CarveCore(h: Heap, live: set<nat>, k: nat)
    requires Core(h, live) && k < CLASSES && h.freePages != []
    ensures h.freePages[0] < NumPages(h) && Core(Carve(h, k), live)
  {
    CarvePages(h, k);
    CarveLists(h, live, k);
    var t := Carve(h, k);
    forall a ensures Listed(t, a) <==> Listed(h, a) || a in Cut(h, h.freePages[0], k) { CarveListed(h, live, k, a); }
    forall a | a in live ensures IsBlock(t, a) && !Listed(t, a) { CarveBlocks(h, live, k, a); }
    forall a | IsBlock(t, a) ensures a in live || Listed(t, a) { CarveBlocks(h, live, k, a); }
    forall q | 0 <= q < NumPages(t) ensures t.numFree[q] == |FreeIn(t, q)| { CarveFreeIn(h, live, k, q); }
  }

  // ----- alloc_block

  /** The heap together with the blocks handed out and not freed. */
  datatype State = State(h: Heap, live: set<nat>)

  ghost predicate Good(s: State) { Inv(s.h, s.live) }

  ghost function Took(s: State, k: nat): (r: (Result, State))
    requires Core(s.h, s.live) && k < CLASSES && s.h.lists[k] != []
  {
    TakeCore(s.h, s.live, k);
    var a := s.h.lists[k][0];
    (Block(a), State(Take(s.h, k), s.live + {a}))
  }

  /** The first class from `k` on with a free block, below the 2 KB class: the search of
      the third case stops there. */
  function Fallback(lists: seq<seq<nat>>, k: nat): (r: nat)
    requires |lists| == CLASSES
    ensures k < 8 ==> k <= r <= 8
    ensures r < 8 ==> k <= r && lists[r] != []
    ensures forall i :: k <= i < r && i < 8 ==> lists[i] == []
    decreases 8 - k
  {
    if k >= 8 then 8 else if lists[k] != [] then k else Fallback(lists, k + 1)
  }

  ghost function Alloc(s: State, size: nat): (r: (Result, State))
    requires Core(s.h, s.live)
  {
    if size > MAX_BLOCK then (TooLarge, s)
    else if size == 0 then (Null, s)
    else
      var k := ClassFor(size);
      if s.h.lists[k] != [] then Took(s, k)
      else if s.h.freePages != [] then
        CarveCore(s.h, s.live, k);
        CutNonEmpty(s.h, s.h.freePages[0], k);
        Took(State(Carve(s.h, k), s.live), k)
      else
        var i := Fallback(s.h.lists, k);
        if i < 8 then Took(s, i) else (WouldBlock, s)
  }

  lemma CutNonEmpty(h: Heap, p: nat, k: nat)
    requires k < CLASSES
    ensures |Cut(h, p, k)| >= 2 && Cut(h, p, k)[0] == Addr(h, p, 0)
  {
    ClassOfSize(k);
  }

  lemma SizeMonotone(j: nat, k: nat)
    requires j <= k < CLASSES
    ensures Size(j) <= Size(k)
  {
    SizeTable();
  }

  /** `va` is a new live block of `t`, aligned to a class at least as large as the
      request, and the blocks live in `s` are as they were. */
  ghost predicate Grants(s: State, t: State, va: nat, size: nat) {
    && va !in s.live && t.live == s.live + {va}
    && IsBlock(t.h, va) && size <= SizeAt(t.h, va)
    && (forall a :: a in s.live ==> IsBlock(s.h, a) && IsBlock(t.h, a) && SizeAt(t.h, a) == SizeAt(s.h, a))
  }

  lemma TookGrants(s: State, k: nat, size: nat)
    requires Good(s) && k < CLASSES && s.h.lists[k] != [] && size <= Size(k)
    ensures Good(Took(s, k).1) && Grants(s, Took(s, k).1, s.h.lists[k][0], size)
  {
    TakeCore(s.h, s.live, k);
    ListHead(s.h, s.live, k);
    TakeReclaimed(s.h, s.live, k);
    forall a | IsBlock(s.h, a)
      ensures IsBlock(Take(s.h, k), a) && SizeAt(Take(s.h, k), a) == SizeAt(s.h, a)
    {
      SameBlocks(s.h, Take(s.h, k), a);
    }
  }

  lemma TakeReclaimed(h: Heap, live: set<nat>, k: nat)
    requires Core(h, live) && Reclaimed(h) && k < CLASSES && h.lists[k] != []
    requires InRange(h, h.lists[k][0]) && h.numFree[PageOf(h, h.lists[k][0])] > 0
    ensures Reclaimed(Take(h, k))
  {
  }

  lemma CarvedReclaimed(s: State, k: nat)
    requires Good(s) && k < CLASSES && s.h.lists[k] == [] && s.h.freePages != []
    ensures s.h.freePages[0] < NumPages(s.h) && Core(Carve(s.h, k), s.live) && Carve(s.h, k).lists[k] != []
    ensures Good(Took(State(Carve(s.h, k), s.live), k).1)
  {
    FirstFreePage(s.h);
    CarveCore(s.h, s.live, k);
    ClassOfSize(k);
    var p := s.h.freePages[0];
    CutNonEmpty(s.h, p, k);
    CutAt(s.h, p, k, 0);
    TakeCore(Carve(s.h, k), s.live, k);
    ListHead(Carve(s.h, k), s.live, k);
  }

  lemma CarvedOldBlocks(s: State, k: nat)
    requires Core(s.h, s.live) && k < CLASSES && s.h.freePages != []
    ensures s.h.freePages[0] < NumPages(s.h)
    ensures forall a :: a in s.live ==>
      IsBlock(s.h, a) && IsBlock(Carve(s.h, k), a) && SizeAt(Carve(s.h, k), a) == SizeAt(s.h, a)
  {
    FirstFreePage(s.h);
    forall a | a in s.live
      ensures IsBlock(s.h, a) && IsBlock(Carve(s.h, k), a) && SizeAt(Carve(s.h, k), a) == SizeAt(s.h, a)
    {
      CarveBlocks(s.h, s.live, k, a);
    }
  }

  /** Blocks depend only on where the heap starts and how its pages are cut. */
  lemma SameBlocks(h: Heap, t: Heap, a: nat)
    requires t.start == h.start && t.blockSize == h.blockSize
    ensures IsBlock(t, a) <==> IsBlock(h, a)
    ensures IsBlock(h, a) ==> SizeAt(t, a) == SizeAt(h, a)
  {
  }

  lemma CarvedGrants(s: State, k: nat, size: nat)
    requires Good(s) && k < CLASSES && s.h.lists[k] == [] && s.h.freePages != [] && size <= Size(k)
    ensures s.h.freePages[0] < NumPages(s.h) && Core(Carve(s.h, k), s.live) && Carve(s.h, k).lists[k] != []
    ensures var (r, t) := Took(State(Carve(s.h, k), s.live), k);
      r == Block(Addr(s.h, s.h.freePages[0], 0)) && Grants(s, t, r.va, size)
  {
    CarvedReclaimed(s, k);
    var c := Carve(s.h, k);
    CutNonEmpty(s.h, s.h.freePages[0], k);
    ListHead(c, s.live, k);
    TakeCore(c, s.live, k);
    var t := Take(c, k);
    CarvedOldBlocks(s, k);
    forall a ensures (IsBlock(t, a) <==> IsBlock(c, a)) && (IsBlock(c, a) ==> SizeAt(t, a) == SizeAt(c, a)) {
      SameBlocks(c, t, a);
    }
  }

  /** What an allocation promises: the invariant is kept and a returned block is granted
      as above; anything else changes nothing. */
  lemma AllocTheorem(s: State, size: nat)
    requires Good(s)
    ensures Good(Alloc(s, size).1)
    ensures Alloc(s, size).0.Block? ==> Grants(s, Alloc(s, size).1, Alloc(s, size).0.va, size)
    ensures !Alloc(s, size).0.Block? ==> Alloc(s, size).1 == s
    ensures (Alloc(s, size).0 == TooLarge <==> size > 2048) && (Alloc(s, size).0 == Null <==> size == 0)
  {
    if 0 < size <= MAX_BLOCK {
      var k := ClassFor(size);
      if s.h.lists[k] != [] {
        TookGrants(s, k, size);
      } else if s.h.freePages != [] {
        CarvedReclaimed(s, k);
        CarvedGrants(s, k, size);
      } else {
        var i := Fallback(s.h.lists, k);
        if i < 8 {
          SizeMonotone(k, i);
          TookGrants(s, i, size);
        }
      }
    }
  }

  /** When an allocation has to wait: no free page and nothing in the classes from the
      request's own up to 1 KB (or in the 2 KB class for a request that needs it). */
  lemma BlocksIff(s: State, size: nat)
    requires Good(s) && 0 < size <= MAX_BLOCK
    ensures Alloc(s, size).0 == WouldBlock <==>
      && s.h.freePages == []
      && (forall i :: ClassFor(size) <= i < 8 ==> s.h.lists[i] == [])
      && s.h.lists[ClassFor(size)] == []
  {
  }

  /** The least class with room for `size`. */
  ghost predicate Fits(k: nat, size: nat) { k < CLASSES && size <= Size(k) && (k == 0 || Size(k - 1) < size) }

  lemma FitsIs(k: nat, size: nat)
    requires Fits(k, size) && 0 < size <= MAX_BLOCK
    ensures k == ClassFor(size)
  {
    SizeTable();
  }

  /** The head of list `i` has been handed out: only that list and the counter of its page
      have changed. */
  ghost predicate TakesHead(s: State, t: State, i: nat, r: Result)
    requires Good(s) && i < CLASSES
  {
    && s.h.lists[i] != []
    && var a := s.h.lists[i][0];
    && r == Block(a) && t.live == s.live + {a} && IsBlock(s.h, a) && SizeAt(s.h, a) == Size(i)
    && |t.h.lists| == CLASSES && t.h.lists[i] == s.h.lists[i][1..]
    && (forall j :: 0 <= j < CLASSES && j != i ==> t.h.lists[j] == s.h.lists[j])
    && t.h.start == s.h.start && t.h.blockSize == s.h.blockSize && t.h.freePages == s.h.freePages
    && |t.h.numFree| == NumPages(s.h) && t.h.numFree[PageOf(s.h, a)] + 1 == s.h.numFree[PageOf(s.h, a)]
    && (forall p :: 0 <= p < NumPages(s.h) && p != PageOf(s.h, a) ==> t.h.numFree[p] == s.h.numFree[p])
  }

  /** The first free page has been cut into blocks of class `k`, the first block of it handed
      out and the others listed; nothing else has changed. */
  ghost predicate TakesPage(s: State, t: State, k: nat, r: Result)
    requires Good(s) && k < CLASSES
  {
    && s.h.freePages != []
    && var p := s.h.freePages[0];
    && p < NumPages(s.h) && r == Block(s.h.start + PAGE * p) && t.live == s.live + {r.va}
    && IsBlock(t.h, r.va) && SizeAt(t.h, r.va) == Size(k)
    && t.h.start == s.h.start && t.h.freePages == s.h.freePages[1..]
    && t.h.blockSize == s.h.blockSize[p := Size(k)]
    && IsSize(Size(k)) && t.h.numFree == s.h.numFree[p := Slots(Size(k)) - 1]
    && |t.h.lists| == CLASSES && |t.h.lists[k]| == Slots(Size(k)) - 1
    && (forall i :: 0 <= i < |t.h.lists[k]| ==> t.h.lists[k][i] == r.va + (i + 1) * Size(k))
    && (forall j :: 0 <= j < CLASSES && j != k ==> t.h.lists[j] == s.h.lists[j])
  }

  lemma TookTakesHead(s: State, i: nat)
    requires Good(s) && i < CLASSES && s.h.lists[i] != []
    ensures TakesHead(s, Took(s, i).1, i, Took(s, i).0)
  {
    TakeCore(s.h, s.live, i);
    ListHead(s.h, s.live, i);
  }

  lemma CarveTakesPage(s: State, size: nat)
    requires Good(s) && 0 < size <= MAX_BLOCK && s.h.lists[ClassFor(size)] == [] && s.h.freePages != []
    ensures TakesPage(s, Alloc(s, size).1, ClassFor(size), Alloc(s, size).0)
  {
    CarvedState(s, size);
    AllocTheorem(s, size);
    var k, p, t := ClassFor(size), s.h.freePages[0], Alloc(s, size).1;
    AddrParts(t.h, p, 0);
    forall i | 0 <= i < |t.h.lists[k]| ensures t.h.lists[k][i] == Alloc(s, size).0.va + (i + 1) * Size(k) {
      CutAt(s.h, p, k, i + 1);
    }
  }

  /** Where a block comes from, in every case: the head of the list of the least class that
      fits; if that is empty, the first free page, cut for that class; and if there is none,
      the head of the first list with a block above that class and below the 2 KB class. */
  lemma AllocClass(s: State, size: nat, k: nat)
    requires Good(s) && 0 < size <= MAX_BLOCK && Fits(k, size)
    ensures s.h.lists[k] != [] ==> TakesHead(s, Alloc(s, size).1, k, Alloc(s, size).0)
    ensures s.h.lists[k] == [] && s.h.freePages != [] ==> TakesPage(s, Alloc(s, size).1, k, Alloc(s, size).0)
    ensures s.h.lists[k] == [] && s.h.freePages == [] ==>
      forall i: nat :: k < i < 8 && s.h.lists[i] != [] && (forall j :: k < j < i ==> s.h.lists[j] == []) ==>
        TakesHead(s, Alloc(s, size).1, i, Alloc(s, size).0)
  {
    FitsIs(k, size);
    if s.h.lists[k] != [] {
      TookTakesHead(s, k);
    } else if s.h.freePages != [] {
      CarveTakesPage(s, size);
    } else {
      forall i: nat | k < i < 8 && s.h.lists[i] != [] && (forall j :: k < j < i ==> s.h.lists[j] == [])
        ensures TakesHead(s, Alloc(s, size).1, i, Alloc(s, size).0)
      {
        assert Fallback(s.h.lists, k) == i;
        TookTakesHead(s, i);
      }
    }
  }

  // ----- free_block

  /** The addresses of `q` outside page `p`. */
  function Outside(h: Heap, q: seq<nat>, p: nat): (r: seq<nat>) { Only(q, OutsideSet(h, q, p)) }

  function OutsideSet(h: Heap, q: seq<nat>, p: nat): (r: set<nat>) {
    set a: nat | a in q && !(Addr(h, p, 0) <= a < Addr(h, p, 0) + PAGE)
  }

  /** Every block of the page is free once `a` is. */
  predicate Fills(h: Heap, a: nat)
    requires IsBlock(h, a) && |h.numFree| == NumPages(h)
  {
    h.numFree[PageOf(h, a)] + 1 >= Slots(SizeAt(h, a))
  }

  function Freed(h: Heap, a: nat): (r: Heap)
    requires IsBlock(h, a) && |h.numFree| == NumPages(h) && |h.lists| == CLASSES
  {
    var p := PageOf(h, a);
    var k := ClassOf(SizeAt(h, a));
    if Fills(h, a) then
      h.(lists := h.lists[k := Outside(h, h.lists[k], p)],
         freePages := [p] + h.freePages,
         numFree := h.numFree[p := 0],
         blockSize := h.blockSize[p := 0])
    else
      h.(lists := h.lists[k := h.lists[k] + [a]], numFree := h.numFree[p := h.numFree[p] + 1])
  }

  ghost function Free(s: State, a: nat): (r: State)
    requires Good(s) && a in s.live
  {
    State(Freed(s.h, a), s.live - {a})
  }

  /** Live blocks of a page that is about to be entirely free: only the one being freed. */
  lemma FillsAlone(s: State, a: nat, b: nat)
    requires Good(s) && a in s.live && Fills(s.h, a)
    requires b in s.live && PageOf(s.h, b) == PageOf(s.h, a)
    ensures b == a
  {
    var p := PageOf(s.h, a);
    var blocks := PageBlocks(s.h, p);
    var free := FreeIn(s.h, p);
    forall x | x in free ensures x in blocks && x != a && x != b {
      SizeOfClass(s.h.blockSize[p]);
      assert x in s.h.lists[ClassOf(s.h.blockSize[p])];
      assert Listed(s.h, x);
    }
    if b != a {
      assert free + {a} + {b} <= blocks;
      SubsetCard(free + {a} + {b}, blocks);
    }
  }


  // ----- a block goes back to its list

  lemma ReturnListed(s: State, a: nat, b: nat)
    requires Good(s) && a in s.live && !Fills(s.h, a)
    ensures Listed(Freed(s.h, a), b) <==> Listed(s.h, b) || b == a
  {
    SameBlocks(s.h, Freed(s.h, a), b);
    if IsBlock(s.h, b) {
      SizeOfClass(SizeAt(s.h, b));
      SizeOfClass(SizeAt(s.h, a));
    }
  }

  lemma ReturnFreeIn(s: State, a: nat, p: nat)
    requires Good(s) && a in s.live && !Fills(s.h, a) && p < NumPages(s.h)
    ensures FreeIn(Freed(s.h, a), p) == FreeIn(s.h, p) + if p == PageOf(s.h, a) then {a} else {}
  {
    var t := Freed(s.h, a);
    forall b ensures b in FreeIn(t, p) <==> b in FreeIn(s.h, p) || (p == PageOf(s.h, a) && b == a) {
      ReturnMember(s, a, p, b);
    }
  }

  lemma ReturnMember(s: State, a: nat, p: nat, b: nat)
    requires Good(s) && a in s.live && !Fills(s.h, a) && p < NumPages(s.h)
    ensures b in FreeIn(Freed(s.h, a), p) <==> b in FreeIn(s.h, p) || (p == PageOf(s.h, a) && b == a)
  {
    var t := Freed(s.h, a);
    if IsSize(s.h.blockSize[p]) {
      SizeOfClass(SizeAt(s.h, a));
      SizeOfClass(s.h.blockSize[p]);
      var j, k := ClassOf(s.h.blockSize[p]), ClassOf(SizeAt(s.h, a));
      assert t.lists[j] == if j == k then s.h.lists[j] + [a] else s.h.lists[j];
      if j != k { assert p != PageOf(s.h, a); }
    }
  }

  lemma ReturnNoDup(s: State, a: nat, j: nat)
    requires Good(s) && a in s.live && !Fills(s.h, a) && j < CLASSES
    ensures NoDup(Freed(s.h, a).lists[j])
  {
    var k := ClassOf(SizeAt(s.h, a));
    assert NoDup(s.h.lists[j]) && !Listed(s.h, a);
    if j == k { NoDupAppend(s.h.lists[k], [a]); }
  }

  lemma ReturnLists(s: State, a: nat)
    requires Good(s) && a in s.live && !Fills(s.h, a)
    ensures var t := Freed(s.h, a);
      && (forall j :: 0 <= j < CLASSES ==> NoDup(t.lists[j]))
      && (forall j, b :: 0 <= j < CLASSES && b in t.lists[j] ==> IsBlock(t, b) && SizeAt(t, b) == Size(j))
  {
    var t := Freed(s.h, a);
    SizeOfClass(SizeAt(s.h, a));
    forall j | 0 <= j < CLASSES ensures NoDup(t.lists[j]) { ReturnNoDup(s, a, j); }
    forall j, b | 0 <= j < CLASSES && b in t.lists[j] ensures IsBlock(t, b) && SizeAt(t, b) == Size(j) {
      SameBlocks(s.h, t, b);
      if b in s.h.lists[j] { assert IsBlock(s.h, b) && SizeAt(s.h, b) == Size(j); }
    }
  }

  lemma ReturnCounts(s: State, a: nat)
    requires Good(s) && a in s.live && !Fills(s.h, a)
    ensures var t := Freed(s.h, a); forall p :: 0 <= p < NumPages(t) ==> t.numFree[p] == |FreeIn(t, p)|
  {
    var t := Freed(s.h, a);
    assert a !in FreeIn(s.h, PageOf(s.h, a));
    forall p | 0 <= p < NumPages(t) ensures t.numFree[p] == |FreeIn(t, p)| { ReturnFreeIn(s, a, p); }
  }

  lemma ReturnGood(s: State, a: nat)
    requires Good(s) && a in s.live && !Fills(s.h, a)
    ensures Good(Free(s, a))
  {
    var t := Freed(s.h, a);
    ReturnLists(s, a);
    forall b ensures IsBlock(t, b) <==> IsBlock(s.h, b) { SameBlocks(s.h, t, b); }
    forall b ensures Listed(t, b) <==> Listed(s.h, b) || b == a { ReturnListed(s, a, b); }
    ReturnCounts(s, a);
  }

  // ----- a page goes back to the free pages

  lemma ReclaimBlocks(s: State, a: nat, b: nat)
    requires Good(s) && a in s.live && Fills(s.h, a)
    ensures IsBlock(Freed(s.h, a), b) <==> IsBlock(s.h, b) && PageOf(s.h, b) != PageOf(s.h, a)
    ensures IsBlock(Freed(s.h, a), b) ==> SizeAt(Freed(s.h, a), b) == SizeAt(s.h, b)
  {
    var t := Freed(s.h, a);
    if InRange(s.h, b) { assert PageOf(t, b) == PageOf(s.h, b) && Offset(t, b) == Offset(s.h, b); }
  }

  lemma OutsideMember(h: Heap, q: seq<nat>, p: nat, b: nat)
    requires InRange(h, b) && p < NumPages(h)
    ensures b in Outside(h, q, p) <==> b in q && PageOf(h, b) != p
  {
    OnlyMember(q, OutsideSet(h, q, p), b);
  }

  lemma ReclaimListed(s: State, a: nat, b: nat)
    requires Good(s) && a in s.live && Fills(s.h, a)
    ensures Listed(Freed(s.h, a), b) <==> Listed(s.h, b) && PageOf(s.h, b) != PageOf(s.h, a)
  {
    ReclaimBlocks(s, a, b);
    var k := ClassOf(SizeAt(s.h, a));
    if InRange(s.h, b) { OutsideMember(s.h, s.h.lists[k], PageOf(s.h, a), b); }
  }

  lemma ReclaimFreeIn(s: State, a: nat, p: nat)
    requires Good(s) && a in s.live && Fills(s.h, a) && p < NumPages(s.h)
    ensures FreeIn(Freed(s.h, a), p) == if p == PageOf(s.h, a) then {} else FreeIn(s.h, p)
  {
    var t := Freed(s.h, a);
    var k := ClassOf(SizeAt(s.h, a));
    if p != PageOf(s.h, a) {
      forall b ensures b in FreeIn(t, p) <==> b in FreeIn(s.h, p) {
        if InRange(s.h, b) { OutsideMember(s.h, s.h.lists[k], PageOf(s.h, a), b); }
      }
    }
  }

  lemma ReclaimNoDup(s: State, a: nat, j: nat)
    requires Good(s) && a in s.live && Fills(s.h, a) && j < CLASSES
    ensures NoDup(Freed(s.h, a).lists[j])
  {
    var k := ClassOf(SizeAt(s.h, a));
    assert NoDup(s.h.lists[j]);
    if j == k { OnlyNoDup(s.h.lists[k], OutsideSet(s.h, s.h.lists[k], PageOf(s.h, a))); }
  }

  lemma ReclaimBlock(s: State, a: nat, j: nat, b: nat)
    requires Good(s) && a in s.live && Fills(s.h, a) && j < CLASSES && b in Freed(s.h, a).lists[j]
    ensures var t := Freed(s.h, a); IsBlock(t, b) && SizeAt(t, b) == Size(j) && PageOf(s.h, b) != PageOf(s.h, a)
  {
    var p := PageOf(s.h, a);
    var k := ClassOf(SizeAt(s.h, a));
    SizeOfClass(SizeAt(s.h, a));
    if j == k { OnlyMember(s.h.lists[k], OutsideSet(s.h, s.h.lists[k], p), b); }
    assert b in s.h.lists[j];
    assert IsBlock(s.h, b) && SizeAt(s.h, b) == Size(j);
    if j == k { OutsideMember(s.h, s.h.lists[k], p, b); } else { ClassOfSize(j); }
    ReclaimBlocks(s, a, b);
  }

  lemma ReclaimLists(s: State, a: nat)
    requires Good(s) && a in s.live && Fills(s.h, a)
    ensures var t := Freed(s.h, a);
      && (forall j :: 0 <= j < CLASSES ==> NoDup(t.lists[j]))
      && (forall j, b :: 0 <= j < CLASSES && b in t.lists[j] ==>
            IsBlock(t, b) && SizeAt(t, b) == Size(j) && PageOf(s.h, b) != PageOf(s.h, a))
  {
    var t := Freed(s.h, a);
    forall j | 0 <= j < CLASSES ensures NoDup(t.lists[j]) { ReclaimNoDup(s, a, j); }
    forall j, b | 0 <= j < CLASSES && b in t.lists[j]
      ensures IsBlock(t, b) && SizeAt(t, b) == Size(j) && PageOf(s.h, b) != PageOf(s.h, a)
    {
      ReclaimBlock(s, a, j, b);
    }
  }

  lemma ReclaimPages(s: State, a: nat)
    requires Good(s) && a in s.live && Fills(s.h, a)
    ensures PagesOk(Freed(s.h, a))
  {
    var t := Freed(s.h, a);
    var p := PageOf(s.h, a);
    assert p !in s.h.freePages;
    NoDupAppend([p], s.h.freePages);
  }

  lemma ReclaimGood(s: State, a: nat)
    requires Good(s) && a in s.live && Fills(s.h, a)
    ensures Good(Free(s, a))
  {
    var t := Freed(s.h, a);
    ReclaimPages(s, a);
    ReclaimLists(s, a);
    forall b ensures Listed(t, b) <==> Listed(s.h, b) && PageOf(s.h, b) != PageOf(s.h, a) { ReclaimListed(s, a, b); }
    forall b | b in s.live && b != a ensures IsBlock(t, b) && !Listed(t, b) {
      ReclaimBlocks(s, a, b);
      if PageOf(s.h, b) == PageOf(s.h, a) { FillsAlone(s, a, b); }
    }
    forall b | IsBlock(t, b) ensures b in s.live - {a} || Listed(t, b) { ReclaimBlocks(s, a, b); }
    forall p | 0 <= p < NumPages(t) ensures t.numFree[p] == |FreeIn(t, p)| { ReclaimFreeIn(s, a, p); }
  }

  /** Freeing a live block keeps the invariant. */
  lemma FreeTheorem(s: State, a: nat)
    requires Good(s) && a in s.live
    ensures Good(Free(s, a))
    ensures a !in Free(s, a).live
  {
    if Fills(s.h, a) { ReclaimGood(s, a); } else { ReturnGood(s, a); }
  }

  predicate OnPage(h: Heap, b: nat, p: nat) { InRange(h, b) && PageOf(h, b) == p }

  /** A page is given back exactly when its last live block is freed. */
  lemma FillsIff(s: State, a: nat)
    requires Good(s) && a in s.live
    ensures Fills(s.h, a) <==> forall b :: b in s.live && OnPage(s.h, b, PageOf(s.h, a)) ==> b == a
  {
    if Fills(s.h, a) {
      forall b | b in s.live && OnPage(s.h, b, PageOf(s.h, a)) ensures b == a { FillsAlone(s, a, b); }
    }
    if forall b :: b in s.live && OnPage(s.h, b, PageOf(s.h, a)) ==> b == a {
      var p := PageOf(s.h, a);
      var blocks := PageBlocks(s.h, p);
      SizeOfClass(s.h.blockSize[p]);
      forall x | x in blocks ensures x in FreeIn(s.h, p) + {a} {
        assert x in s.live || Listed(s.h, x);
      }
      SubsetCard(blocks, FreeIn(s.h, p) + {a});
    }
  }

  /** Where a freed block goes: to the tail of its class's list, or its whole page to the
      head of the free pages. */
  lemma FreedIs(s: State, a: nat)
    requires Good(s) && a in s.live
    ensures var t := Free(s, a); var k := ClassOf(SizeAt(s.h, a)); var p := PageOf(s.h, a);
      && t.live == s.live - {a} && t.h.start == s.h.start && |t.h.lists| == CLASSES
      && (forall j :: 0 <= j < CLASSES && j != k ==> t.h.lists[j] == s.h.lists[j])
      && (if exists b :: b in s.live && b != a && OnPage(s.h, b, p)
          then
            && t.h.lists[k] == s.h.lists[k] + [a] && t.h.freePages == s.h.freePages
            && t.h.blockSize == s.h.blockSize && t.h.numFree == s.h.numFree[p := s.h.numFree[p] + 1]
          else
            && t.h.freePages == [p] + s.h.freePages
            && t.h.blockSize == s.h.blockSize[p := 0] && t.h.numFree == s.h.numFree[p := 0]
            && (forall b :: b in t.h.lists[k] <==> b in s.h.lists[k] && !OnPage(s.h, b, p)))
  {
    FillsIff(s, a);
    var k, p := ClassOf(SizeAt(s.h, a)), PageOf(s.h, a);
    if Fills(s.h, a) {
      forall b ensures b in Outside(s.h, s.h.lists[k], p) <==> b in s.h.lists[k] && !OnPage(s.h, b, p) {
        OnlyMember(s.h.lists[k], OutsideSet(s.h, s.h.lists[k], p), b);
        if b in s.h.lists[k] {
          assert IsBlock(s.h, b);
          OutsideMember(s.h, s.h.lists[k], p, b);
        }
      }
    }
  }

  // ----- what the invariant means

  ghost predicate Covers(h: Heap, a: nat, b: nat) { IsBlock(h, a) && a <= b < a + SizeAt(h, a) }

  lemma BlockInPage(h: Heap, a: nat)
    requires IsBlock(h, a)
    ensures Offset(h, a) + SizeAt(h, a) <= PAGE
    ensures exists i: nat :: Offset(h, a) == i * SizeAt(h, a)
  {
    var s := SizeAt(h, a);
    var i := Offset(h, a) / s;
    assert Offset(h, a) == i * s;
    SmallerFactor(i, Slots(s), s);
    assert (i + 1) * s <= Slots(s) * s by { MulBounds(Slots(s) - i - 1, s); }
    assert (i + 1) * s == i * s + s;
  }

  /** Two different blocks never overlap. */
  lemma BlocksDisjoint(h: Heap, a: nat, b: nat)
    requires IsBlock(h, a) && IsBlock(h, b) && a < b
    ensures a + SizeAt(h, a) <= b
  {
    BlockInPage(h, a);
    AddrOf(h, a);
    AddrOf(h, b);
    if PageOf(h, a) == PageOf(h, b) {
      var s := SizeAt(h, a);
      var i, j := Offset(h, a) / s, Offset(h, b) / s;
      assert Offset(h, a) == i * s && Offset(h, b) == j * s;
      SmallerFactor(i, j, s);
      assert (i + 1) * s <= j * s by { MulBounds(j - i - 1, s); }
      assert (i + 1) * s == i * s + s;
    }
  }

  /** Every byte of a carved page is in exactly one block. */
  lemma BlockOfByte(h: Heap, b: nat) returns (a: nat)
    requires InRange(h, b) && IsSize(h.blockSize[PageOf(h, b)])
    ensures Covers(h, a, b)
    ensures forall x :: Covers(h, x, b) ==> x == a
  {
    var p, s := PageOf(h, b), h.blockSize[PageOf(h, b)];
    var i := Offset(h, b) / s;
    assert i * s <= Offset(h, b) < i * s + s;
    Multiple(i, s);
    AddrParts(h, p, i * s);
    AddrOf(h, b);
    a := Addr(h, p, i * s);
    forall x: nat | Covers(h, x, b) ensures x == a {
      if x < a { BlocksDisjoint(h, x, a); } else if a < x { BlocksDisjoint(h, a, x); }
    }
  }

  lemma NoBlockInFreePage(h: Heap, a: nat, b: nat)
    requires InRange(h, b) && h.blockSize[PageOf(h, b)] == 0
    ensures !Covers(h, a, b)
  {
    if IsBlock(h, a) {
      BlockInPage(h, a);
      AddrOf(h, a);
      AddrOf(h, b);
    }
  }

  /** Live blocks, free-list blocks and free pages tile the region: each byte is in
      exactly one of them. */
  lemma Tiling(s: State, b: nat)
    requires Good(s) && InRange(s.h, b)
    ensures PageOf(s.h, b) in s.h.freePages ==> forall a :: !Covers(s.h, a, b)
    ensures PageOf(s.h, b) !in s.h.freePages ==>
      exists a :: Covers(s.h, a, b) && (a in s.live <==> !Listed(s.h, a)) && forall x :: Covers(s.h, x, b) ==> x == a
  {
    if PageOf(s.h, b) in s.h.freePages {
      forall a: nat ensures !Covers(s.h, a, b) { NoBlockInFreePage(s.h, a, b); }
    } else {
      var a := BlockOfByte(s.h, b);
      assert Covers(s.h, a, b) && (a in s.live <==> !Listed(s.h, a));
    }
  }

  /** Live blocks never overlap. */
  lemma LiveDisjoint(s: State, a: nat, b: nat)
    requires Good(s) && a in s.live && b in s.live && a != b
    ensures a + SizeAt(s.h, a) <= b || b + SizeAt(s.h, b) <= a
  {
    if a < b { BlocksDisjoint(s.h, a, b); } else { BlocksDisjoint(s.h, b, a); }
  }

  /** With nothing live, every page is back on the free-page list and every block list is
      empty. */
  lemma NothingLive(s: State)
    requires Good(s) && s.live == {}
    ensures forall p :: 0 <= p < NumPages(s.h) ==> p in s.h.freePages
    ensures forall k :: 0 <= k < CLASSES ==> s.h.lists[k] == []
  {
    forall p | 0 <= p < NumPages(s.h) ensures s.h.blockSize[p] == 0 {
      if IsSize(s.h.blockSize[p]) {
        var blocks := PageBlocks(s.h, p);
        forall a | a in blocks ensures a in FreeIn(s.h, p) { assert Listed(s.h, a); }
        SubsetCard(blocks, FreeIn(s.h, p));
        assert false;
      }
    }
    forall k | 0 <= k < CLASSES ensures s.h.lists[k] == [] {
      if s.h.lists[k] != [] {
        ListHead(s.h, s.live, k);
        assert false;
      }
    }
  }

  lemma {:induction false} OutsideNone(h: Heap, q: seq<nat>, p: nat)
    requires p < NumPages(h) && forall a :: a in q ==> InRange(h, a) && PageOf(h, a) == p
    ensures Outside(h, q, p) == []
  {
    OnlyNone(q, OutsideSet(h, q, p));
  }

  /** The heap right after an allocation that carved page `p` for class `k`. */
  lemma CarvedState(s: State, size: nat)
    requires Good(s) && 0 < size <= MAX_BLOCK
    requires s.h.lists[ClassFor(size)] == [] && s.h.freePages != []
    ensures var k := ClassFor(size); var p := s.h.freePages[0]; var (r, t) := Alloc(s, size);
      && IsSize(Size(k)) && p < NumPages(s.h) && s.h.blockSize[p] == 0 && |s.h.numFree| == NumPages(s.h)
      && |Cut(s.h, p, k)| >= 2 && r == Block(Addr(s.h, p, 0)) && t.live == s.live + {r.va} && r.va !in s.live
      && t.h == s.h.(lists := s.h.lists[k := Cut(s.h, p, k)[1..]], freePages := s.h.freePages[1..],
                     blockSize := s.h.blockSize[p := Size(k)],
                     numFree := s.h.numFree[p := Slots(Size(k)) - 1])
  {
    var k := ClassFor(size);
    CarvedGrants(s, k, size);
    FirstFreePage(s.h);
    ClassOfSize(k);
    var p := s.h.freePages[0];
    TakeFromCut(s.h, k);
  }

  lemma TakeFromCut(h: Heap, k: nat)
    requires k < CLASSES == |h.lists| && IsSize(Size(k)) && h.lists[k] == []
    requires h.freePages != [] && h.freePages[0] < NumPages(h) == |h.numFree|
    ensures var p := h.freePages[0]; var c := Carve(h, k);
      && |Cut(h, p, k)| >= 2 && c.lists[k] == Cut(h, p, k) && InRange(c, c.lists[k][0])
      && PageOf(c, c.lists[k][0]) == p && c.numFree[p] > 0
      && Take(c, k) == h.(lists := h.lists[k := Cut(h, p, k)[1..]], freePages := h.freePages[1..],
                          blockSize := h.blockSize[p := Size(k)], numFree := h.numFree[p := Slots(Size(k)) - 1])
  {
    var p := h.freePages[0];
    CutNonEmpty(h, p, k);
    var c := Carve(h, k);
    assert c.lists[k] == Cut(h, p, k);
    AddrParts(c, p, 0);
    var t := Take(c, k);
    assert t.lists == h.lists[k := Cut(h, p, k)[1..]];
    assert t.numFree == h.numFree[p := Slots(Size(k)) - 1];
  }

  /** Giving back the only live block of a page that was carved for it. */
  lemma UncarveHeap(h: Heap, p: nat, k: nat, a: nat)
    requires PagesOk(h) && k < CLASSES && IsSize(Size(k)) && h.freePages != [] && p == h.freePages[0]
    requires p < NumPages(h) && h.blockSize[p] == 0 && h.numFree[p] == 0 && h.lists[k] == []
    requires |Cut(h, p, k)| >= 2 && a == Addr(h, p, 0)
    ensures var t := h.(lists := h.lists[k := Cut(h, p, k)[1..]], freePages := h.freePages[1..],
                        blockSize := h.blockSize[p := Size(k)], numFree := h.numFree[p := Slots(Size(k)) - 1]);
      IsBlock(t, a) && Freed(t, a) == h
  {
    var t := h.(lists := h.lists[k := Cut(h, p, k)[1..]], freePages := h.freePages[1..],
                blockSize := h.blockSize[p := Size(k)], numFree := h.numFree[p := Slots(Size(k)) - 1]);
    AddrParts(t, p, 0);
    ClassOfSize(k);
    forall x | x in t.lists[k] ensures InRange(t, x) && PageOf(t, x) == p { CutComplete(h, p, k, x); }
    OutsideNone(t, t.lists[k], p);
    assert Fills(t, a);
    var u := Freed(t, a);
    assert u.lists == h.lists && u.freePages == h.freePages;
    assert u.blockSize == h.blockSize && u.numFree == h.numFree;
  }

  /** Freeing a block right after the allocation that carved its page restores the heap
      exactly, lists and their order included. */
  lemma CarveThenFree(s: State, size: nat)
    requires Good(s) && 0 < size <= MAX_BLOCK
    requires s.h.lists[ClassFor(size)] == [] && s.h.freePages != []
    ensures Alloc(s, size).0.Block? && Good(Alloc(s, size).1)
    ensures Free(Alloc(s, size).1, Alloc(s, size).0.va) == s
  {
    AllocTheorem(s, size);
    CarvedState(s, size);
    var p := s.h.freePages[0];
    assert s.h.numFree[p] == |FreeIn(s.h, p)| == 0;
    UncarveHeap(s.h, p, ClassFor(size), Alloc(s, size).0.va);
    assert Alloc(s, size).1.live - {Alloc(s, size).0.va} == s.live;
  }

  // ----- whole runs

  function Fresh(start: nat, pages: nat): (h: Heap) {
    Heap(start, seq(pages, _ => 0), seq(pages, _ => 0), seq(pages, i => i), seq(CLASSES, _ => []))
  }

  lemma FreshGood(start: nat, pages: nat)
    ensures Good(State(Fresh(start, pages), {}))
  {
    var h := Fresh(start, pages);
    forall p | 0 <= p < pages ensures p in h.freePages { assert h.freePages[p] == p; }
    forall k | 0 <= k < CLASSES ensures h.lists[k] == [] { }
  }

  /** The heap after `initialize_dynamic_allocator`, with nothing live. */
  ghost function Start(start: nat, pages: nat): (s: State)
    ensures Good(s)
  {
    FreshGood(start, pages);
    State(Fresh(start, pages), {})
  }

  /** The first block handed out is the first of the region. */
  lemma FirstBlock(start: nat, pages: nat, size: nat)
    requires pages > 0 && 0 < size <= MAX_BLOCK
    ensures Alloc(Start(start, pages), size).0 == Block(start)
  {
    var s := Start(start, pages);
    assert s.h.freePages[0] == 0;
    CarvedState(s, size);
  }

  datatype Op = Allocate(size: nat) | Release(va: nat)

  /** A caller may free only what is live. */
  ghost predicate IsRun(s: State, ops: seq<Op>)
    requires Good(s)
    decreases |ops|
  {
    ops == [] ||
    match ops[0]
    case Allocate(n) => AllocTheorem(s, n); IsRun(Alloc(s, n).1, ops[1..])
    case Release(a) => a in s.live && (FreeTheorem(s, a); IsRun(Free(s, a), ops[1..]))
  }

  ghost function After(s: State, ops: seq<Op>): (t: State)
    requires Good(s) && IsRun(s, ops)
    ensures Good(t)
    decreases |ops|
  {
    if ops == [] then s
    else
      match ops[0]
      case Allocate(n) => AllocTheorem(s, n); After(Alloc(s, n).1, ops[1..])
      case Release(a) => FreeTheorem(s, a); After(Free(s, a), ops[1..])
  }

  /** From initialisation on, any sequence of allocations and releases of live blocks
      leaves live blocks disjoint and, once nothing is live, the whole region free. */
  lemma HeapTheorem(start: nat, pages: nat, ops: seq<Op>)
    requires IsRun(Start(start, pages), ops)
    ensures var s := After(Start(start, pages), ops);
      && (forall a :: a in s.live ==> IsBlock(s.h, a))
      && (forall a, b :: a in s.live && b in s.live && a < b ==> a + SizeAt(s.h, a) <= b)
      && (s.live == {} ==>
           && (forall p :: 0 <= p < NumPages(s.h) ==> p in s.h.freePages)
           && (forall k :: 0 <= k < CLASSES ==> s.h.lists[k] == []))
  {
    var s := After(Start(start, pages), ops);
    forall a, b | a in s.live && b in s.live && a < b ensures a + SizeAt(s.h, a) <= b { LiveDisjoint(s, a, b); }
    if s.live == {} { NothingLive(s); }
  }

  /** The fallback search stops short of the 2 KB class, so a request is refused although
      a large enough block is free exactly when only that class has one. */
  lemma RefusedThoughFreeIff(s: State, size: nat)
    requires Good(s) && 0 < size <= MAX_BLOCK
    ensures
      (Alloc(s, size).0 == WouldBlock && exists i :: ClassFor(size) <= i < CLASSES && s.h.lists[i] != [])
      <==>
      (ClassFor(size) < 8 && s.h.freePages == [] && s.h.lists[8] != [] &&
       forall i :: ClassFor(size) <= i < 8 ==> s.h.lists[i] == [])
  {
    BlocksIff(s, size);
  }

  /** It happens on a one-page heap: 2 KB, then 8 bytes. */
  lemma RefusalExample()
    ensures Good(State(Fresh(0, 1), {}))
    ensures var s := Alloc(State(Fresh(0, 1), {}), 2048).1;
      Good(s) && s.h.lists[8] != [] && Alloc(s, 8).0 == WouldBlock
  {
    FreshGood(0, 1);
    var s0 := State(Fresh(0, 1), {});
    AllocTheorem(s0, 2048);
    SizeTable();
    assert ClassFor(2048) == 8 && ClassFor(8) == 0;
    CarvedGrants(s0, 8, 2048);
    CutNonEmpty(s0.h, 0, 8);
    var s := Alloc(s0, 2048).1;
    assert s.h.freePages == [];
    assert s.h.lists[8] == Cut(s0.h, 0, 8)[1..];
    BlocksIff(s, 8);
  }
}
