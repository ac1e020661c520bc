/** The block allocator's code: page-info arrays and lists updated in place, proved to do
    what `BlockHeap` specifies. */
module BlockAllocator {
  import opened Seqs
  import opened BlockHeap

  class Allocator {
    const start: nat
    const blockSize: array<nat>
    const numFree: array<nat>
    var freePages: seq<nat>
    var lists: seq<seq<nat>>
    ghost var live: set<nat>

    ghost function TheHeap(): (h: Heap)
      reads this, blockSize, numFree
    {
      Heap(start, blockSize[..], numFree[..], freePages, lists)
    }

    ghost function Contents(): (s: State)
      reads this, blockSize, numFree
    {
      State(TheHeap(), live)
    }

    ghost predicate Valid()
      reads this, blockSize, numFree
    {
      blockSize != numFree && Good(Contents())
    }

    /** `initialize_dynamic_allocator`. */
    constructor (daStart: nat, daEnd: nat)
      requires daStart <= daEnd
      ensures Valid() && fresh(blockSize) && fresh(numFree)
      ensures Contents() == State(Fresh(daStart, (daEnd - daStart) / PAGE), {})
    {
      start := daStart;
      var pages := (daEnd - daStart) / PAGE;
      var sizes, counts := new nat[pages], new nat[pages];
      var all: seq<nat> := [];
      for i := 0 to pages
        invariant |all| == i && forall j :: 0 <= j < i ==> all[j] == j
        invariant forall j :: 0 <= j < i ==> sizes[j] == 0 && counts[j] == 0
      {
        sizes[i] := 0;
        counts[i] := 0;
        all := all + [i];
      }
      blockSize, numFree, freePages, live := sizes, counts, all, {};
      lists := seq(CLASSES, _ => []);
      new;
      FreshGood(daStart, pages);
      assert blockSize[..] == seq(pages, _ => 0) && numFree[..] == seq(pages, _ => 0);
      assert freePages == seq(pages, i => i);
    }

    /** `get_block_size` of an address in the region. */
    method GetBlockSize(va: nat) returns (size: nat)
      requires Valid() && InRange(TheHeap(), va)
      ensures size == blockSize[PageOf(TheHeap(), va)]
      ensures IsBlock(TheHeap(), va) ==> size == SizeAt(TheHeap(), va)
    {
      size := blockSize[(va - start) / PAGE];
    }

    /** `LIST_FIRST`, `LIST_REMOVE` and the counter of the block's page. */
    method TakeHead(k: nat) returns (va: nat)
      requires blockSize != numFree && Core(TheHeap(), live) && k < CLASSES && lists[k] != []
      modifies this`lists, this`live, numFree
      ensures (Block(va), Contents()) == Took(old(Contents()), k)
    {
      TakeCore(TheHeap(), live, k);
      va := lists[k][0];
      lists := lists[k := lists[k][1..]];
      var page := (va - start) / PAGE;
      numFree[page] := numFree[page] - 1;
      live := live + {va};
    }

    /** The second case of `alloc_block` up to the carved list: take the first free page
        and append its blocks one by one. */
    method CarvePage(k: nat, size: nat)
      requires Valid() && k < CLASSES && size == Size(k) && freePages != []
      modifies this`lists, this`freePages, blockSize, numFree
      ensures old(freePages)[0] < blockSize.Length
      ensures TheHeap() == Carve(old(TheHeap()), k)
      ensures Core(TheHeap(), live)
    {
      ghost var h := TheHeap();
      FirstFreePage(h);
      CarveCore(h, live, k);
      ClassOfSize(k);
      var page := freePages[0];
      freePages := freePages[1..];
      var blocks := PAGE / size;
      blockSize[page] := size;
      numFree[page] := blocks;
      ghost var cut := Cut(h, page, k);
      for i := 0 to blocks
        invariant freePages == h.freePages[1..]
        invariant blockSize[..] == h.blockSize[page := size] && numFree[..] == h.numFree[page := blocks]
        invariant |lists| == CLASSES && lists[k] == h.lists[k] + cut[..i]
        invariant forall j :: 0 <= j < CLASSES && j != k ==> lists[j] == h.lists[j]
      {
        assert cut[..i + 1] == cut[..i] + [cut[i]];
        lists := lists[k := lists[k] + [start + page * PAGE + i * size]];
      }
      assert cut[..blocks] == cut;
      assert lists == h.lists[k := h.lists[k] + cut];
    }

    /** The doubling loop: the least class that fits. */
    method FindClass(size: nat) returns (k: nat, blockBytes: nat)
      requires 0 < size <= MAX_BLOCK
      ensures k == ClassFor(size) && blockBytes == Size(k)
    {
      k, blockBytes := 0, 8;
      SizeTable();
      while blockBytes < size && blockBytes < MAX_BLOCK
        invariant k < CLASSES && blockBytes == Size(k)
        invariant forall j :: 0 <= j < k ==> Size(j) < size
        decreases CLASSES - k
      {
        k, blockBytes := k + 1, blockBytes * 2;
      }
      ClassForIs(size, k);
    }

    /** `alloc_block`. Waiting for a free block is reported instead of spinning. */
    method AllocBlock(size: nat) returns (r: Result)
      requires Valid()
      modifies this, blockSize, numFree
      ensures Valid()
      ensures (r, Contents()) == Alloc(old(Contents()), size)
    {
      AllocTheorem(Contents(), size);
      if size > MAX_BLOCK { return TooLarge; }
      if size == 0 { return Null; }
      var k, bytes := FindClass(size);
      if lists[k] != [] {
        var va := TakeHead(k);
        return Block(va);
      }
      if freePages != [] {
        ghost var s := Contents();
        CarvedReclaimed(s, k);
        CarvePage(k, bytes);
        var va := TakeHead(k);
        return Block(va);
      }
      var i := k;
      while i < 8
        invariant k <= i <= 8
        invariant forall j :: k <= j < i ==> lists[j] == []
        invariant Contents() == old(Contents())
      {
        if lists[i] != [] {
          FallbackIs(lists, k, i);
          var va := TakeHead(i);
          return Block(va);
        }
        i := i + 1;
      }
      FallbackIs(lists, k, 8);
      return WouldBlock;
    }

    /** Unlink every block of page `p` from list `k`, walking the list once. */
    method UnlinkPage(k: nat, p: nat)
      requires k < CLASSES == |lists| && NoDup(lists[k])
      modifies this`lists
      ensures lists == old(lists)[k := Outside(old(TheHeap()), old(lists[k]), p)]
    {
      ghost var h := TheHeap();
      var q := lists[k];
      var base := start + p * PAGE;
      ghost var out := OutsideSet(h, q, p);
      var j := 0;
      UnlinkEnds(q, out);
      assert lists == h.lists[k := q];
      while j < |q|
        invariant 0 <= j <= |q|
        invariant lists == h.lists[k := Only(q[..j], out) + q[j..]]
      {
        var block := q[j];
        StaysIff(h, q, p, j);
        UnlinkStep(q, j, out);
        if base <= block < base + PAGE {
          lists := lists[k := Without<nat>(lists[k], block)];
        }
        j := j + 1;
      }
    }

    /** The shifting loop of `free_block`: the class of a block size. */
    method FindList(size: nat) returns (k: nat)
      requires IsSize(size)
      ensures k == ClassOf(size)
    {
      var bytes := 8;
      k := 0;
      SizeTable();
      SizeOfClass(size);
      while bytes < size
        invariant k <= ClassOf(size) && bytes == Size(k)
        decreases CLASSES - k
      {
        k, bytes := k + 1, bytes * 2;
      }
      ClassOfSize(k);
    }

    /** The page of a freed block is entirely free: back to the free pages. */
    method ReturnPage(k: nat, page: nat)
      requires k < CLASSES == |lists| && NoDup(lists[k])
      requires blockSize != numFree && page < blockSize.Length == numFree.Length
      modifies this, blockSize, numFree
      ensures var h := old(TheHeap());
        TheHeap() == h.(lists := h.lists[k := Outside(h, h.lists[k], page)], freePages := [page] + h.freePages,
                        numFree := h.numFree[page := 0], blockSize := h.blockSize[page := 0])
      ensures live == old(live)
    {
      UnlinkPage(k, page);
      freePages := [page] + freePages;
      numFree[page] := 0;
      blockSize[page] := 0;
    }

    /** `free_block` of a live block. */
    method FreeBlock(va: nat)
      requires Valid() && va in live
      modifies this, blockSize, numFree
      ensures Valid()
      ensures Contents() == Free(old(Contents()), va)
    {
      ghost var s := Contents();
      FreeTheorem(s, va);
      var page := (va - start) / PAGE;
      var size := blockSize[page];
      var k := FindList(size);
      if numFree[page] + 1 >= PAGE / size {
        ReturnPage(k, page);
      } else {
        numFree[page] := numFree[page] + 1;
        lists := lists[k := lists[k] + [va]];
      }
      assert TheHeap() == Freed(s.h, va);
      live := live - {va};
    }
  }

  lemma StaysIff(h: Heap, q: seq<nat>, p: nat, j: nat)
    requires j < |q|
    ensures q[j] in OutsideSet(h, q, p) <==> !(h.start + p * PAGE <= q[j] < h.start + p * PAGE + PAGE)
  {
    var a := q[j];
    assert a in q;
  }

  lemma ClassForIs(size: nat, k: nat)
    requires 0 < size <= MAX_BLOCK && k < CLASSES && size <= Size(k)
    requires forall j :: 0 <= j < k ==> Size(j) < size
    ensures ClassFor(size) == k
  {
    assert size <= Size(ClassFor(size));
  }

  lemma {:induction false} FallbackIs(lists: seq<seq<nat>>, k: nat, i: nat)
    requires |lists| == CLASSES && k <= i <= 8 && (i < 8 ==> lists[i] != [])
    requires forall j :: k <= j < i ==> lists[j] == []
    ensures Fallback(lists, k) == i
    decreases i - k
  {
    if k < i { FallbackIs(lists, k + 1, i); }
  }
}
