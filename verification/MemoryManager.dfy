/** The memory manager's code over its frame array, free list and page tables. */
module MemoryManager {
  import opened Seqs
  import opened Memory

  lemma TableKept(m: Mem, k: Key, spot: nat)
    requires RefInv(m) && (TableOf(k) !in m.tables ==> TableSpot(m, spot))
    ensures RefInv(EnsureTable(m, k, spot))
  {
  }

  /** The tables of the kernel's directory, from `KERNEL_BASE` to the top. */
  function BootTables(): (r: set<Key>) { set d: nat | 960 <= d < 1024 :: Key(KERNEL, d) }

  /** Memory in which nothing is mapped and the kernel's tables exist. */
  lemma FreshMemory(m: Mem)
    requires FramesOk(m) && m.pt == map[] && m.hand == {} && m.tables == BootTables()
    requires forall f :: f in m.pool <==> f in m.free
    requires forall f :: 0 <= f < |m.refs| ==> m.va[f] == 0
    requires forall f :: f in m.pool ==> m.refs[f] == 0
    ensures RefInv(m) && ReverseInv(m)
  {
    forall f | f in m.pool ensures Counted(m, f) { assert Mappers(m, f) == {}; }
  }

  class Manager {
    const refs: array<nat>
    const va: array<nat>
    var free: seq<nat>
    var pt: map<Key, Entry>
    var tables: set<Key>
    ghost var hand: set<nat>
    ghost const pool: set<nat>

    ghost function State(): (m: Mem)
      reads this, refs, va
    {
      Mem(refs[..], va[..], free, hand, pool, pt, tables)
    }

    ghost predicate Valid()
      reads this, refs, va
    {
      refs != va && RefInv(State())
    }

    /** `initialize_paging`, after `initialize_kernel_VM` has created the kernel's page
        tables: of `count` frames the first three, those of the I/O hole from `low` and those
        up to `kernelEnd` are in use; the others are pushed on the head of the list. */
    constructor (count: nat, low: nat, kernelEnd: nat)
      requires 3 <= low <= kernelEnd <= count
      ensures Valid() && fresh(refs) && fresh(va)
      ensures refs.Length == va.Length == count
      ensures forall f :: f in pool <==> 3 <= f < low || kernelEnd <= f < count
      ensures forall f :: 0 <= f < count ==> State().refs[f] == if f in pool then 0 else 1
      ensures State().hand == {} && State().pt == map[] && State().tables == BootTables()
      ensures ReverseInv(State())
    {
      var r, v := new nat[count](_ => 0), new nat[count](_ => 0);
      r[0], r[1], r[2] := 1, 1, 1;
      var list: seq<nat> := [];
      var i := 3;
      while i < low
        invariant 3 <= i <= low
        invariant (forall f :: 0 <= f < 3 ==> r[f] == 1) && (forall f :: 3 <= f < count ==> r[f] == 0)
        invariant forall f :: 0 <= f < count ==> v[f] == 0
        invariant NoDup(list) && forall f :: f in list <==> 3 <= f < i
      {
        r[i], v[i] := 0, 0;
        NoDupAppend([i], list);
        list := [i] + list;
        i := i + 1;
      }
      while i < kernelEnd
        invariant low <= i <= kernelEnd
        invariant forall f :: 0 <= f < count ==> r[f] == if f < 3 || low <= f < i then 1 else 0
        invariant forall f :: 0 <= f < count ==> v[f] == 0
      {
        r[i] := 1;
        i := i + 1;
      }
      while i < count
        invariant kernelEnd <= i <= count
        invariant forall f :: 0 <= f < count ==> r[f] == if f < 3 || low <= f < kernelEnd then 1 else 0
        invariant forall f :: 0 <= f < count ==> v[f] == 0
        invariant NoDup(list) && forall f :: f in list <==> 3 <= f < low || kernelEnd <= f < i
      {
        r[i], v[i] := 0, 0;
        NoDupAppend([i], list);
        list := [i] + list;
        i := i + 1;
      }
      refs, va, free, pt, tables := r, v, list, map[], BootTables();
      hand, pool := {}, set f | f in list;
      new;
      FreshMemory(State());
    }

    /** `allocate_frame`; an empty list is a kernel panic. */
    method Allocate() returns (f: Option<nat>)
      requires Valid()
      modifies this`free, this`hand, refs, va
      ensures old(free) == [] ==> f == None && State() == old(State())
      ensures old(free) != [] ==>
        && f == Some(old(free)[0]) && f.value < refs.Length
        && State() == AllocateFrame(old(State())) && Valid() && f.value in hand
    {
      if free == [] { return None; }
      AllocateInv(State());
      f := Some(free[0]);
      free := free[1..];
      refs[f.value], va[f.value] := 0, 0;
      hand := hand + {f.value};
    }

    /** `free_frame`. */
    method Release(f: nat)
      requires refs != va && f < refs.Length == va.Length
      modifies this`free, this`hand, refs, va
      ensures State() == FreeFrame(old(State()), f)
    {
      refs[f], va[f] := 0, 0;
      free := [f] + free;
      hand := hand - {f};
    }

    /** `unmap_frame`, with `decrement_references`. */
    method Unmap(k: Key)
      requires Valid()
      modifies this`free, this`hand, this`pt, refs, va
      ensures UnmapFrame.requires(old(State()), k)
      ensures State() == UnmapFrame(old(State()), k) && Valid()
    {
      UnmapInv(State(), k);
      var e := if k in pt then pt[k] else Entry(0, {});
      if e.frame != 0 || PRESENT in e.bits || BUFFERED in e.bits {
        refs[e.frame] := refs[e.frame] - 1;
        if refs[e.frame] == 0 {
          Release(e.frame);
        }
        pt := pt[k := Entry(0, e.bits * AVAILABLE)];
      }
    }

    /** The end of `map_frame`. */
    method WriteEntry(f: nat, k: Key, perm: Bits)
      requires refs != va && f < refs.Length
      modifies this`hand, this`pt, refs
      ensures State() == Install(old(State()), f, k, perm)
    {
      var kept := if k in pt then pt[k].bits * AVAILABLE else {};
      assert kept == EntryAt(State(), k).bits * AVAILABLE;
      refs[f] := refs[f] + 1;
      hand := hand - {f};
      pt := pt[k := Entry(f, kept + perm + {PRESENT})];
    }

    /** `map_frame` where the page table exists. */
    method MapAt(f: nat, k: Key, perm: Bits)
      requires Valid() && f in pool && f !in free && BUFFERED !in perm
      modifies this`free, this`hand, this`pt, refs, va
      ensures MapFrame.requires(old(State()), f, k, perm)
      ensures State() == MapFrame(old(State()), f, k, perm) && Valid()
    {
      MapInv(State(), f, k, perm);
      VaInv(State(), f, k.page * PAGE);
      va[f] := k.page * PAGE;
      if k in pt && PRESENT in pt[k].bits {
        if pt[k].frame == f { return; }
        Unmap(k);
      }
      WriteEntry(f, k, perm);
    }

    /** `create_page_table` if the table of `k` is missing, in the kernel page `spot` that
        `kmalloc` returns; running out of frames is a kernel panic. */
    method EnsureTableAt(k: Key, spot: nat) returns (ok: bool)
      requires Valid() && (TableOf(k) !in tables ==> InHeap(spot) && !IsPresent(State(), Key(KERNEL, spot)))
      modifies this`free, this`hand, this`pt, this`tables, refs, va
      ensures ok <==> TableOf(k) in old(tables) || old(free) != []
      ensures ok ==> State() == EnsureTable(old(State()), k, spot) && Valid()
    {
      if TableOf(k) in tables { return true; }
      if free == [] { return false; }
      ghost var m := State();
      TableKept(m, k, spot);
      var r := NewPageAt(Key(KERNEL, spot), {WRITEABLE, PRESENT});
      tables := tables + {TableOf(k)};
      return true;
    }

    /** `map_frame`. */
    method Map(f: nat, k: Key, perm: Bits, spot: nat) returns (ok: bool)
      requires Valid() && f in pool && f !in free && BUFFERED !in perm
      requires TableOf(k) !in tables ==> InHeap(spot) && !IsPresent(State(), Key(KERNEL, spot))
      modifies this`free, this`hand, this`pt, this`tables, refs, va
      ensures ok <==> TableOf(k) in old(tables) || old(free) != []
      ensures ok ==>
        && MapFrame.requires(EnsureTable(old(State()), k, spot), f, k, perm)
        && State() == MapFrame(EnsureTable(old(State()), k, spot), f, k, perm) && Valid()
    {
      if TableOf(k) in tables || free != [] { EnsureTableEffect(State(), k, spot, f); }
      ok := EnsureTableAt(k, spot);
      if ok { MapAt(f, k, perm); }
    }

    /** `alloc_page` where the page table exists: 1 if already mapped, 0 on success. */
    method NewPageAt(k: Key, perm: Bits) returns (r: Option<int>)
      requires Valid() && BUFFERED !in perm
      modifies this`free, this`hand, this`pt, refs, va
      ensures r == None <==> !IsPresent(old(State()), k) && old(free) == []
      ensures r.Some? ==> State() == AllocPage(old(State()), k, perm) && Valid()
      ensures r.Some? ==> r.value == if IsPresent(old(State()), k) then 1 else 0
    {
      HasFrameIsPresent(State(), k);
      var e := if k in pt then pt[k] else Entry(0, {});
      if e.frame != 0 || PRESENT in e.bits || BUFFERED in e.bits { return Some(1); }
      var f := Allocate();
      if f == None { return None; }
      MapAt(f.value, k, perm);
      return Some(0);
    }

    /** `kheap_virtual_address`. */
    method VirtualAddress(pa: nat) returns (x: nat)
      requires Valid()
      ensures x == KheapVirtual(State(), pa)
      ensures ReverseInv(State()) && x != 0 ==> KheapPhysical(State(), x) == pa
    {
      if ReverseInv(State()) { LookupsInverseBack(State(), pa); }
      if pa >= refs.Length * PAGE { return 0; }
      var record := va[pa / PAGE];
      if record == 0 { return 0; }
      if record < HEAP_FIRST * PAGE { return 0; }
      if record >= HEAP_LIMIT * PAGE { return 0; }
      return record + pa % PAGE;
    }

    /** `kheap_physical_address`. */
    method PhysicalAddress(x: nat) returns (pa: nat)
      requires Valid()
      ensures pa == KheapPhysical(State(), x)
    {
      if x < HEAP_FIRST * PAGE || x >= HEAP_LIMIT * PAGE { return 0; }
      var k := Key(KERNEL, x / PAGE);
      if TableOf(k) !in tables { return 0; }
      if k in pt && PRESENT in pt[k].bits { return pt[k].frame * PAGE + x % PAGE; }
      return 0;
    }
  }
}
