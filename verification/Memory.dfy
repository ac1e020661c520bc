/** Physical frames, page-table entries and the reverse map: the memory manager's state
    as one value and what each operation does to it. */
module Memory {
  import opened Seqs

  const PAGE: nat := 4096

  /** Flag bits of a page-table entry, by position. */
  type Bits = set<nat>
  const PRESENT: nat := 0
  const WRITEABLE: nat := 1
  const USER: nat := 2
  const BUFFERED: nat := 9
  const AVAILABLE: Bits := {9, 10, 11}

  /** The kernel's own page directory, and the page range of the kernel heap. */
  const KERNEL: int := 0
  const HEAP_FIRST: nat := 0xF6000
  const HEAP_LIMIT: nat := 0xFFFFF

  datatype Entry = Entry(frame: nat, bits: Bits)

  /** A virtual page of one page directory. */
  datatype Key = Key(dir: int, page: nat)

  /** `refs` and `va` are fields of `frames_info`; `free` is the free-frame list, head
      first; `hand` the frames allocated and not mapped yet; `pool` the frames that were
      free after boot; `tables` the page tables that exist. */
  datatype Mem = Mem(refs: seq<nat>, va: seq<nat>, free: seq<nat>, hand: set<nat>, pool: set<nat>,
                     pt: map<Key, Entry>, tables: set<Key>)

  function EntryAt(m: Mem, k: Key): (r: Entry) { if k in m.pt then m.pt[k] else Entry(0, {}) }

  predicate IsPresent(m: Mem, k: Key) { PRESENT in EntryAt(m, k).bits }

  /** `get_frame_info`: a non-zero frame number, or present or buffered. */
  predicate HasFrame(m: Mem, k: Key) {
    EntryAt(m, k).frame != 0 || PRESENT in EntryAt(m, k).bits || BUFFERED in EntryAt(m, k).bits
  }

  /** The table of a page: one per 1024 pages. */
  function TableOf(k: Key): (r: Key) { Key(k.dir, k.page / 1024) }

  /** The places where frame `f` is mapped. */
  ghost function Mappers(m: Mem, f: nat): (r: set<Key>) {
    set k | k in m.pt && PRESENT in m.pt[k].bits && m.pt[k].frame == f
  }

  // ----- operations

  function AllocateFrame(m: Mem): (r: Mem)
    requires m.free != [] && m.free[0] < |m.refs| == |m.va|
  {
    var f := m.free[0];
    m.(free := m.free[1..], refs := m.refs[f := 0], va := m.va[f := 0], hand := m.hand + {f})
  }

  function FreeFrame(m: Mem, f: nat): (r: Mem)
    requires f < |m.refs| == |m.va|
  {
    m.(free := [f] + m.free, refs := m.refs[f := 0], va := m.va[f := 0], hand := m.hand - {f})
  }

  function Decrement(m: Mem, f: nat): (r: Mem)
    requires f < |m.refs| == |m.va| && m.refs[f] > 0
  {
    if m.refs[f] == 1 then FreeFrame(m, f) else m.(refs := m.refs[f := m.refs[f] - 1])
  }

  /** `unmap_frame`: only the available bits of the entry survive. */
  function UnmapFrame(m: Mem, k: Key): (r: Mem)
    requires HasFrame(m, k) ==> var f := EntryAt(m, k).frame; f < |m.refs| == |m.va| && m.refs[f] > 0
  {
    if HasFrame(m, k) then
      var t := Decrement(m, EntryAt(m, k).frame);
      t.(pt := m.pt[k := Entry(0, EntryAt(m, k).bits * AVAILABLE)])
    else m
  }

  /** The end of `map_frame`: count the reference and write the entry. */
  function Install(m: Mem, f: nat, k: Key, perm: Bits): (r: Mem)
    requires f < |m.refs|
  {
    m.(refs := m.refs[f := m.refs[f] + 1], hand := m.hand - {f},
       pt := m.pt[k := Entry(f, EntryAt(m, k).bits * AVAILABLE + perm + {PRESENT})])
  }

  /** `map_frame` when the page table exists. */
  function MapFrame(m: Mem, f: nat, k: Key, perm: Bits): (r: Mem)
    requires f < |m.refs| == |m.va|
    requires IsPresent(m, k) ==> var g := EntryAt(m, k).frame; g < |m.refs| && m.refs[g] > 0
  {
    var v := m.(va := m.va[f := k.page * PAGE]);
    if IsPresent(m, k) then
      if EntryAt(m, k).frame == f then v else Install(UnmapFrame(v, k), f, k, perm)
    else Install(v, f, k, perm)
  }

  // ----- reference counts

  ghost predicate FramesOk(m: Mem) {
    && |m.va| == |m.refs|
    && 0 !in m.pool
    && (forall f :: f in m.pool ==> f < |m.refs|)
    && NoDup(m.free)
    && (forall f :: f in m.free ==> f in m.pool && f !in m.hand)
    && m.hand <= m.pool
  }

  /** Entries either map a pool frame or hold nothing but available bits. */
  ghost predicate EntriesOk(m: Mem) {
    forall k :: k in m.pt ==>
      && BUFFERED !in m.pt[k].bits
      && (PRESENT in m.pt[k].bits ==> m.pt[k].frame in m.pool)
      && (PRESENT !in m.pt[k].bits ==> m.pt[k].frame == 0)
  }

  ghost predicate Counted(m: Mem, f: nat)
    requires f < |m.refs|
  {
    && m.refs[f] == |Mappers(m, f)|
    && (f in m.free || f in m.hand <==> Mappers(m, f) == {})
  }

  /** Each run-time frame's count is the number of entries that map it, and a frame is
      free (or just allocated) exactly when nothing maps it. */
  ghost predicate RefInv(m: Mem) {
    && FramesOk(m) && EntriesOk(m)
    && (forall f :: f in m.pool ==> Counted(m, f))
  }

  lemma PresentFrame(m: Mem, k: Key)
    requires RefInv(m) && IsPresent(m, k)
    ensures var f := EntryAt(m, k).frame;
      f in m.pool && k in Mappers(m, f) && f < |m.refs| && m.refs[f] > 0 && f !in m.free && f !in m.hand
  {
    var f := EntryAt(m, k).frame;
    assert k in m.pt && k in Mappers(m, f);
    assert Counted(m, f);
  }

  lemma HasFrameIsPresent(m: Mem, k: Key)
    requires EntriesOk(m)
    ensures HasFrame(m, k) <==> IsPresent(m, k)
  {
  }

  lemma AllocateInv(m: Mem)
    requires RefInv(m) && m.free != []
    ensures m.free[0] < |m.refs| && m.free[0] in m.pool && m.free[0] !in m.hand
    ensures RefInv(AllocateFrame(m))
    ensures Mappers(m, m.free[0]) == {}
  {
    var f := m.free[0];
    assert f in m.free;
    assert Counted(m, f);
    var t := AllocateFrame(m);
    assert m.free == [f] + t.free;
    forall g | g in t.pool ensures Counted(t, g) {
      assert Counted(m, g);
      assert Mappers(t, g) == Mappers(m, g);
    }
  }

  lemma FreeInv(m: Mem, f: nat)
    requires RefInv(m) && f in m.hand
    ensures f < |m.refs| && RefInv(FreeFrame(m, f))
  {
    assert f in m.pool;
    var t := FreeFrame(m, f);
    assert f !in m.free;
    NoDupAppend([f], m.free);
    forall g | g in t.pool ensures Counted(t, g) {
      assert Counted(m, g);
      assert Mappers(t, g) == Mappers(m, g);
    }
  }

  lemma UnmapMappers(m: Mem, k: Key, g: nat)
    requires RefInv(m) && IsPresent(m, k)
    ensures var f := EntryAt(m, k).frame; f < |m.refs| == |m.va| && m.refs[f] > 0
    ensures Mappers(UnmapFrame(m, k), g) == Mappers(m, g) - {k}
    ensures g != EntryAt(m, k).frame ==> k !in Mappers(m, g)
  {
    PresentFrame(m, k);
    HasFrameIsPresent(m, k);
  }

  lemma UnmapInv(m: Mem, k: Key)
    requires RefInv(m)
    ensures HasFrame(m, k) ==> var f := EntryAt(m, k).frame; f < |m.refs| == |m.va| && m.refs[f] > 0
    ensures RefInv(UnmapFrame(m, k)) && !IsPresent(UnmapFrame(m, k), k)
  {
    HasFrameIsPresent(m, k);
    if IsPresent(m, k) {
      PresentFrame(m, k);
      var f := EntryAt(m, k).frame;
      var t := UnmapFrame(m, k);
      NoDupAppend([f], m.free);
      forall g | g in t.pool ensures Counted(t, g) {
        assert Counted(m, g);
        UnmapMappers(m, k, g);
      }
    }
  }

  lemma InstallMappers(m: Mem, f: nat, k: Key, perm: Bits, g: nat)
    requires f < |m.refs| && !IsPresent(m, k)
    ensures Mappers(Install(m, f, k, perm), g) == Mappers(m, g) + if g == f then {k} else {}
    ensures k !in Mappers(m, g)
  {
  }

  lemma InstallCounted(m: Mem, f: nat, k: Key, perm: Bits, g: nat)
    requires RefInv(m) && f in m.pool && f !in m.free && !IsPresent(m, k) && g in m.pool
    ensures f < |m.refs| && Counted(Install(m, f, k, perm), g)
  {
    assert Counted(m, g);
    InstallMappers(m, f, k, perm, g);
  }

  lemma InstallInv(m: Mem, f: nat, k: Key, perm: Bits)
    requires RefInv(m) && f in m.pool && f !in m.free && !IsPresent(m, k) && BUFFERED !in perm
    ensures f < |m.refs| && RefInv(Install(m, f, k, perm))
  {
    var t := Install(m, f, k, perm);
    forall g | g in t.pool ensures Counted(t, g) { InstallCounted(m, f, k, perm, g); }
  }

  /** The free list is a stack: a frame given back is the next one handed out. */
  lemma FreedFirst(m: Mem, f: nat)
    requires RefInv(m) && f in m.hand
    ensures FreeFrame.requires(m, f) && AllocateFrame.requires(FreeFrame(m, f))
    ensures f in AllocateFrame(FreeFrame(m, f)).hand && AllocateFrame(FreeFrame(m, f)).free == m.free
  {
    FreeInv(m, f);
  }

  /** Rewriting `va` of one frame does not concern the counts. */
  lemma VaInv(m: Mem, f: nat, x: nat)
    requires RefInv(m) && f < |m.va|
    ensures RefInv(m.(va := m.va[f := x]))
  {
    var t := m.(va := m.va[f := x]);
    forall g | g in t.pool ensures Counted(t, g) {
      assert Counted(m, g);
      assert Mappers(t, g) == Mappers(m, g);
    }
  }

  lemma MapInv(m: Mem, f: nat, k: Key, perm: Bits)
    requires RefInv(m) && f in m.pool && f !in m.free && BUFFERED !in perm
    ensures f < |m.refs| == |m.va|
    ensures IsPresent(m, k) ==> var g := EntryAt(m, k).frame; g < |m.refs| && m.refs[g] > 0
    ensures RefInv(MapFrame(m, f, k, perm))
    ensures EntryAt(MapFrame(m, f, k, perm), k).frame == f && IsPresent(MapFrame(m, f, k, perm), k)
  {
    if IsPresent(m, k) { PresentFrame(m, k); }
    VaInv(m, f, k.page * PAGE);
    var v := m.(va := m.va[f := k.page * PAGE]);
    if IsPresent(m, k) {
      if EntryAt(m, k).frame != f {
        UnmapInv(v, k);
        HasFrameIsPresent(v, k);
        InstallInv(UnmapFrame(v, k), f, k, perm);
      }
    } else {
      InstallInv(v, f, k, perm);
    }
  }

  /** The entry after a mapping: the frame, the permissions, the present bit, the available
      bits of before and no other; but when the frame is already mapped there, the entry is
      not written at all. */
  lemma MapKeepsAvailable(m: Mem, f: nat, k: Key, perm: Bits)
    requires RefInv(m) && f in m.pool && f !in m.free && BUFFERED !in perm
    ensures MapFrame.requires(m, f, k, perm)
    ensures var t := MapFrame(m, f, k, perm);
      && (IsPresent(m, k) && EntryAt(m, k).frame == f ==> t.pt == m.pt)
      && (!(IsPresent(m, k) && EntryAt(m, k).frame == f) ==>
            EntryAt(t, k) == Entry(f, EntryAt(m, k).bits * {9, 10, 11} + perm + {0}))
      && (forall j :: j != k ==> EntryAt(t, j) == EntryAt(m, j))
  {
    MapInv(m, f, k, perm);
    HasFrameIsPresent(m, k);
  }

  /** Unmapping keeps exactly the available bits, not the frame, and touches no other entry. */
  lemma UnmapKeepsAvailable(m: Mem, k: Key)
    requires RefInv(m)
    ensures UnmapFrame.requires(m, k)
    ensures IsPresent(m, k) ==> EntryAt(UnmapFrame(m, k), k) == Entry(0, EntryAt(m, k).bits * {9, 10, 11})
    ensures !IsPresent(m, k) ==> UnmapFrame(m, k) == m
    ensures forall j :: j != k ==> EntryAt(UnmapFrame(m, k), j) == EntryAt(m, j)
  {
    UnmapInv(m, k);
    HasFrameIsPresent(m, k);
  }

  // ----- alloc_page and on-demand page tables

  /** `alloc_page` where the page table exists. */
  ghost function AllocPage(m: Mem, k: Key, perm: Bits): (r: Mem)
    requires RefInv(m) && (IsPresent(m, k) || m.free != []) && BUFFERED !in perm
    ensures RefInv(r) && IsPresent(r, k)
  {
    if IsPresent(m, k) then m
    else
      AllocateInv(m);
      MapInv(AllocateFrame(m), m.free[0], k, perm);
      MapFrame(AllocateFrame(m), m.free[0], k, perm)
  }

  /** Where `kmalloc` may put a page table: an unmapped page of the kernel heap. */
  ghost predicate TableSpot(m: Mem, page: nat) {
    && HEAP_FIRST <= page < HEAP_LIMIT
    && !IsPresent(m, Key(KERNEL, page)) && m.free != []
  }

  /** `create_page_table` if the table of `k` is missing. */
  ghost function EnsureTable(m: Mem, k: Key, spot: nat): (r: Mem)
    requires RefInv(m) && (TableOf(k) !in m.tables ==> TableSpot(m, spot))
    ensures RefInv(r) && TableOf(k) in r.tables
  {
    if TableOf(k) in m.tables then m
    else
      var t := AllocPage(m, Key(KERNEL, spot), {WRITEABLE, PRESENT});
      TablesInv(t, t.tables + {TableOf(k)});
      t.(tables := t.tables + {TableOf(k)})
  }

  lemma TablesInv(m: Mem, tables: set<Key>)
    requires RefInv(m)
    ensures RefInv(m.(tables := tables))
  {
    var t := m.(tables := tables);
    forall g | g in t.pool ensures Counted(t, g) {
      assert Counted(m, g);
      assert Mappers(t, g) == Mappers(m, g);
    }
  }

  /** What a new table changes besides its own kernel page: a frame leaves the free list. */
  lemma EnsureTableEffect(m: Mem, k: Key, spot: nat, f: nat)
    requires RefInv(m) && (TableOf(k) !in m.tables ==> TableSpot(m, spot)) && f in m.pool && f !in m.free
    ensures var t := EnsureTable(m, k, spot);
      && t.pool == m.pool && f !in t.free && |t.refs| == |m.refs|
      && (forall j :: j != Key(KERNEL, spot) ==> EntryAt(t, j) == EntryAt(m, j))
      && t.va[f] == m.va[f]
      && (m.hand - {f} <= t.hand)
  {
    if TableOf(k) !in m.tables {
      AllocateInv(m);
      MapInv(AllocateFrame(m), m.free[0], Key(KERNEL, spot), {WRITEABLE, PRESENT});
    }
  }

  /** `alloc_page` of an unmapped page takes the first free frame and gives it exactly the
      permissions asked for. */
  lemma NewPageIs(m: Mem, k: Key, perm: Bits)
    requires RefInv(m) && !IsPresent(m, k) && m.free != [] && BUFFERED !in perm
    ensures var t := AllocPage(m, k, perm);
      && t.free == m.free[1..] && EntryAt(t, k) == Entry(m.free[0], EntryAt(m, k).bits * {9, 10, 11} + perm + {0})
      && (forall j :: j != k ==> EntryAt(t, j) == EntryAt(m, j))
  {
    AllocateInv(m);
    MapKeepsAvailable(AllocateFrame(m), m.free[0], k, perm);
  }

  /** A missing page table takes one kernel page, open to the kernel alone, and the first
      free frame, and serves the 1024 pages around; an existing one takes nothing. */
  lemma TableIs(m: Mem, k: Key, spot: nat)
    requires RefInv(m) && (TableOf(k) !in m.tables ==> TableSpot(m, spot))
    ensures forall l: Key :: TableOf(l) in EnsureTable(m, k, spot).tables <==>
      TableOf(l) in m.tables || (l.dir == k.dir && k.page - k.page % 1024 <= l.page < k.page - k.page % 1024 + 1024)
    ensures var t := EnsureTable(m, k, spot);
      if TableOf(k) in m.tables then t == m
      else
        && t.tables == m.tables + {TableOf(k)} && t.free == m.free[1..]
        && EntryAt(t, Key(KERNEL, spot)) == Entry(m.free[0], EntryAt(m, Key(KERNEL, spot)).bits * {9, 10, 11} + {0, 1})
        && (forall j :: j != Key(KERNEL, spot) ==> EntryAt(t, j) == EntryAt(m, j))
  {
    if TableOf(k) !in m.tables { NewPageIs(m, Key(KERNEL, spot), {WRITEABLE, PRESENT}); }
    forall l: Key
      ensures TableOf(l) == TableOf(k) <==>
        l.dir == k.dir && k.page - k.page % 1024 <= l.page < k.page - k.page % 1024 + 1024
    {
      assert k.page - k.page % 1024 == 1024 * (k.page / 1024);
    }
  }

  // ----- runs

  datatype Op =
    | Allocate
    | Release(f: nat)
    | Map(f: nat, k: Key, perm: Bits, spot: nat)
    | Unmap(k: Key)
    | NewPage(k: Key, perm: Bits, spot: nat)

  /** What the source demands: a frame to give, a frame that was allocated, permissions
      without the buffering mark, and room for a missing page table. */
  ghost predicate Enabled(m: Mem, op: Op)
    requires RefInv(m)
  {
    match op
    case Allocate => m.free != []
    case Release(f) => f in m.hand
    case Map(f, k, perm, spot) =>
      && f in m.pool && f !in m.free && BUFFERED !in perm
      && (TableOf(k) !in m.tables ==> TableSpot(m, spot) && k != Key(KERNEL, spot))
    case Unmap(k) => true
    case NewPage(k, perm, spot) =>
      && BUFFERED !in perm
      && (!IsPresent(m, k) ==>
           && |m.free| >= 1
           && (TableOf(k) !in m.tables ==> |m.free| >= 2 && TableSpot(m, spot) && k != Key(KERNEL, spot)))
  }

  ghost function Next(m: Mem, op: Op): (r: Mem)
    requires RefInv(m) && Enabled(m, op)
    ensures RefInv(r)
  {
    match op
    case Allocate => AllocateInv(m); AllocateFrame(m)
    case Release(f) => FreeInv(m, f); FreeFrame(m, f)
    case Map(f, k, perm, spot) =>
      EnsureTableEffect(m, k, spot, f);
      MapInv(EnsureTable(m, k, spot), f, k, perm);
      MapFrame(EnsureTable(m, k, spot), f, k, perm)
    case Unmap(k) => UnmapInv(m, k); UnmapFrame(m, k)
    case NewPage(k, perm, spot) =>
      if IsPresent(m, k) then m
      else
        AllocateInv(m);
        var t := AllocateFrame(m);
        EnsureTableEffect(t, k, spot, m.free[0]);
        MapInv(EnsureTable(t, k, spot), m.free[0], k, perm);
        MapFrame(EnsureTable(t, k, spot), m.free[0], k, perm)
  }

  ghost predicate IsRun(m: Mem, ops: seq<Op>)
    requires RefInv(m)
    decreases |ops|
  {
    ops == [] || (Enabled(m, ops[0]) && IsRun(Next(m, ops[0]), ops[1..]))
  }

  ghost function After(m: Mem, ops: seq<Op>): (r: Mem)
    requires RefInv(m) && IsRun(m, ops)
    ensures RefInv(r)
    decreases |ops|
  {
    if ops == [] then m else After(Next(m, ops[0]), ops[1..])
  }

  ghost function MappedFrames(m: Mem): (r: set<nat>) { set f | f in m.pool && Mappers(m, f) != {} }

  lemma FreeOrMapped(m: Mem, f: nat)
    requires RefInv(m) && f in m.pool
    ensures f in MappedFrames(m) <==> f !in m.free && f !in m.hand
  {
    assert Counted(m, f);
  }

  /** No frame is lost or duplicated: free, in hand and mapped frames partition the pool. */
  lemma Conservation(m: Mem)
    requires RefInv(m)
    ensures |m.free| + |m.hand| + |MappedFrames(m)| == |m.pool|
  {
    var listed := set f | f in m.free;
    NoDupCardExact(m.free, listed);
    forall f ensures f in MappedFrames(m) <==> f in m.pool && f !in m.free && f !in m.hand {
      if f in m.pool { FreeOrMapped(m, f); }
    }
    PartitionCard(listed, m.hand, MappedFrames(m), m.pool);
  }

  lemma {:induction false} PoolKept(m: Mem, ops: seq<Op>)
    requires RefInv(m) && IsRun(m, ops)
    ensures After(m, ops).pool == m.pool
    decreases |ops|
  {
    if ops != [] {
      NextPool(m, ops[0]);
      PoolKept(Next(m, ops[0]), ops[1..]);
    }
  }

  lemma NextPool(m: Mem, op: Op)
    requires RefInv(m) && Enabled(m, op)
    ensures Next(m, op).pool == m.pool
  {
  }

  /** Over any run, on any number of directories: reference counts are mapping counts, a
      frame is free or in hand exactly when unmapped, and the total is constant. */
  lemma ReferenceTheorem(m: Mem, ops: seq<Op>)
    requires RefInv(m) && IsRun(m, ops)
    ensures var t := After(m, ops);
      && (forall f :: f in m.pool ==>
            f < |t.refs| && t.refs[f] == |Mappers(t, f)| && (t.refs[f] == 0 <==> f in t.free || f in t.hand))
      && |t.free| + |t.hand| + |MappedFrames(t)| == |m.pool|
  {
    PoolKept(m, ops);
    var t := After(m, ops);
    Conservation(t);
    forall f | f in m.pool ensures f < |t.refs| && t.refs[f] == |Mappers(t, f)| &&
      (t.refs[f] == 0 <==> f in t.free || f in t.hand) { assert Counted(t, f); }
  }

  // ----- the reverse map

  predicate InHeap(page: nat) { HEAP_FIRST <= page < HEAP_LIMIT }

  /** `kheap_virtual_address`. */
  function KheapVirtual(m: Mem, pa: nat): (va: nat) {
    var f := pa / PAGE;
    if f >= |m.va| then 0
    else if m.va[f] < HEAP_FIRST * PAGE || m.va[f] >= HEAP_LIMIT * PAGE then 0
    else m.va[f] + pa % PAGE
  }

  /** `kheap_physical_address`. */
  function KheapPhysical(m: Mem, va: nat): (pa: nat) {
    var k := Key(KERNEL, va / PAGE);
    if va < HEAP_FIRST * PAGE || va >= HEAP_LIMIT * PAGE then 0
    else if TableOf(k) !in m.tables || !IsPresent(m, k) then 0
    else EntryAt(m, k).frame * PAGE + va % PAGE
  }

  /** Entry `k` is a present page of the kernel heap and the frame's record agrees. */
  ghost predicate HeapEntryOk(m: Mem, k: Key) {
    k.dir == KERNEL && InHeap(k.page) && IsPresent(m, k) ==>
      var f := EntryAt(m, k).frame;
      f < |m.va| && m.va[f] == k.page * PAGE && Mappers(m, f) == {k}
  }

  ghost predicate HeapRecordOk(m: Mem, f: nat) {
    f < |m.va| && HEAP_FIRST * PAGE <= m.va[f] < HEAP_LIMIT * PAGE ==>
      m.va[f] % PAGE == 0 &&
      var k := Key(KERNEL, m.va[f] / PAGE); IsPresent(m, k) && EntryAt(m, k).frame == f
  }

  ghost predicate HeapTables(m: Mem) {
    forall page :: InHeap(page) ==> TableOf(Key(KERNEL, page)) in m.tables
  }

  /** The records in `FrameInfo.va` and the kernel's page tables say the same about the
      kernel heap. */
  ghost predicate ReverseInv(m: Mem) {
    && HeapTables(m)
    && (forall k :: HeapEntryOk(m, k))
    && (forall f :: HeapRecordOk(m, f))
  }

  /** Both lookups undo each other on mapped addresses, offset included, and give 0
      exactly for what is not mapped. */
  lemma LookupsInverse(m: Mem, va: nat)
    requires RefInv(m) && ReverseInv(m)
    ensures !(HEAP_FIRST * PAGE <= va < HEAP_LIMIT * PAGE) ==> KheapPhysical(m, va) == 0
    ensures HEAP_FIRST * PAGE <= va < HEAP_LIMIT * PAGE ==>
      var k := Key(KERNEL, va / PAGE);
      && (IsPresent(m, k) ==>
            && KheapPhysical(m, va) != 0 && KheapVirtual(m, KheapPhysical(m, va)) == va
            && KheapPhysical(m, va) / PAGE == EntryAt(m, k).frame && KheapPhysical(m, va) % PAGE == va % PAGE)
      && (!IsPresent(m, k) ==> KheapPhysical(m, va) == 0)
  {
    var k := Key(KERNEL, va / PAGE);
    if InHeap(k.page) && IsPresent(m, k) {
      PresentFrame(m, k);
      assert HeapEntryOk(m, k);
      var f := EntryAt(m, k).frame;
      assert (f * PAGE + va % PAGE) / PAGE == f;
    }
  }

  lemma LookupsInverseBack(m: Mem, pa: nat)
    requires RefInv(m) && ReverseInv(m)
    ensures var x := KheapVirtual(m, pa);
      x != 0 ==>
        && KheapPhysical(m, x) == pa && InHeap(x / PAGE) && x % PAGE == pa % PAGE
        && IsPresent(m, Key(KERNEL, x / PAGE)) && EntryAt(m, Key(KERNEL, x / PAGE)).frame == pa / PAGE
    ensures KheapVirtual(m, pa) == 0 <==>
      !exists page :: InHeap(page) && IsPresent(m, Key(KERNEL, page)) && EntryAt(m, Key(KERNEL, page)).frame == pa / PAGE
  {
    var f := pa / PAGE;
    assert HeapRecordOk(m, f);
    if KheapVirtual(m, pa) != 0 {
      var page := m.va[f] / PAGE;
      assert m.va[f] == page * PAGE;
      assert InHeap(page) && IsPresent(m, Key(KERNEL, page)) && EntryAt(m, Key(KERNEL, page)).frame == f;
      assert (m.va[f] + pa % PAGE) / PAGE == page;
    }
    forall page | InHeap(page) && IsPresent(m, Key(KERNEL, page)) && EntryAt(m, Key(KERNEL, page)).frame == f
      ensures KheapVirtual(m, pa) != 0
    {
      assert HeapEntryOk(m, Key(KERNEL, page));
    }
  }

  predicate HeapKey(k: Key) { k.dir == KERNEL && InHeap(k.page) }

  /** What `UnmapFrame` does to records and mappings. */
  lemma UnmapEffect(m: Mem, k: Key)
    requires RefInv(m) && IsPresent(m, k)
    ensures UnmapFrame.requires(m, k)
    ensures var f := EntryAt(m, k).frame; var t := UnmapFrame(m, k);
      && |t.va| == |m.va| && t.tables == m.tables
      && (forall g :: 0 <= g < |m.va| && g != f ==> t.va[g] == m.va[g])
      && t.va[f] == (if Mappers(m, f) == {k} then 0 else m.va[f])
      && (forall g :: Mappers(t, g) == Mappers(m, g) - {k})
      && (forall j :: j != k ==> EntryAt(t, j) == EntryAt(m, j)) && !IsPresent(t, k)
  {
    PresentFrame(m, k);
    HasFrameIsPresent(m, k);
    var f := EntryAt(m, k).frame;
    assert Counted(m, f);
    assert m.refs[f] == 1 <==> Mappers(m, f) == {k} by { OneElement(Mappers(m, f), k); }
    forall g: nat ensures Mappers(UnmapFrame(m, k), g) == Mappers(m, g) - {k} { UnmapMappers(m, k, g); }
  }

  lemma OneElement(s: set<Key>, k: Key)
    requires k in s
    ensures |s| == 1 <==> s == {k}
  {
    assert s == {k} + (s - {k});
  }

  lemma AllocateReverse(m: Mem)
    requires RefInv(m) && ReverseInv(m) && m.free != []
    ensures m.free[0] < |m.refs| && ReverseInv(AllocateFrame(m))
  {
    AllocateInv(m);
    var t := AllocateFrame(m);
    var f := m.free[0];
    forall k ensures HeapEntryOk(t, k) {
      assert HeapEntryOk(m, k);
      if HeapKey(k) && IsPresent(m, k) {
        PresentFrame(m, k);
        assert Mappers(t, EntryAt(m, k).frame) == Mappers(m, EntryAt(m, k).frame);
      }
    }
    forall g: nat ensures HeapRecordOk(t, g) { assert HeapRecordOk(m, g); }
  }

  lemma ReleaseReverse(m: Mem, f: nat)
    requires RefInv(m) && ReverseInv(m) && f in m.hand
    ensures f < |m.refs| && ReverseInv(FreeFrame(m, f))
  {
    FreeInv(m, f);
    var t := FreeFrame(m, f);
    assert Counted(m, f);
    forall k ensures HeapEntryOk(t, k) {
      assert HeapEntryOk(m, k);
      if HeapKey(k) && IsPresent(m, k) {
        PresentFrame(m, k);
        assert Mappers(t, EntryAt(m, k).frame) == Mappers(m, EntryAt(m, k).frame);
      }
    }
    forall g: nat ensures HeapRecordOk(t, g) { assert HeapRecordOk(m, g); }
  }

  lemma UnmapReverse(m: Mem, k: Key)
    requires RefInv(m) && ReverseInv(m)
    ensures UnmapFrame.requires(m, k) && ReverseInv(UnmapFrame(m, k))
  {
    UnmapInv(m, k);
    HasFrameIsPresent(m, k);
    if IsPresent(m, k) {
      UnmapEffect(m, k);
      var f := EntryAt(m, k).frame;
      var t := UnmapFrame(m, k);
      forall j ensures HeapEntryOk(t, j) {
        assert HeapEntryOk(m, j);
        if j != k && HeapKey(j) && IsPresent(m, j) { PresentFrame(m, j); PresentFrame(m, k); }
      }
      forall g: nat ensures HeapRecordOk(t, g) {
        assert HeapRecordOk(m, g);
        if g < |m.va| && HEAP_FIRST * PAGE <= m.va[g] < HEAP_LIMIT * PAGE {
          assert HeapEntryOk(m, Key(KERNEL, m.va[g] / PAGE));
        }
      }
    }
  }

  /** `f` may be mapped at `k` without spoiling the reverse map: a heap frame has one
      mapping, and heap addresses are mapped through the kernel's directory only. */
  ghost predicate Clean(m: Mem, f: nat, k: Key) {
    && (InHeap(k.page) ==> k.dir == KERNEL)
    && (forall j :: j in Mappers(m, f) && HeapKey(j) ==> j == k)
    && (HeapKey(k) ==> Mappers(m, f) <= {k})
  }

  /** The frame records after `f` has been mapped at `k`. */
  ghost predicate RecordsAt(m: Mem, t: Mem, f: nat, k: Key)
    requires f < |m.va|
  {
    && |t.va| == |m.va| && t.tables == m.tables && t.va[f] == k.page * PAGE
    && (forall g :: 0 <= g < |m.va| && g != f ==>
          t.va[g] == if k in Mappers(m, g) && Mappers(m, g) == {k} then 0 else m.va[g])
  }

  /** `t` is `m` with `f` mapped at `k`: records, mappings and entries. */
  ghost predicate MappedAt(m: Mem, t: Mem, f: nat, k: Key)
    requires f < |m.va|
  {
    && RecordsAt(m, t, f, k)
    && (forall g :: Mappers(t, g) == Mappers(m, g) - {k} + if g == f then {k} else {})
    && (forall j :: j != k ==> EntryAt(t, j) == EntryAt(m, j))
    && IsPresent(t, k) && EntryAt(t, k).frame == f
  }

  lemma InstallRecords(m: Mem, f: nat, k: Key, perm: Bits)
    requires f < |m.refs| == |m.va| && !IsPresent(m, k) && m.va[f] == k.page * PAGE
    ensures RecordsAt(m, Install(m, f, k, perm), f, k)
  {
    forall g: nat ensures k !in Mappers(m, g) { }
  }

  lemma InstallEffect(m: Mem, f: nat, k: Key, perm: Bits)
    requires f < |m.refs| == |m.va| && !IsPresent(m, k) && m.va[f] == k.page * PAGE
    ensures MappedAt(m, Install(m, f, k, perm), f, k)
  {
    InstallRecords(m, f, k, perm);
    forall g: nat ensures Mappers(Install(m, f, k, perm), g) == Mappers(m, g) - {k} + if g == f then {k} else {} {
      InstallMappers(m, f, k, perm, g);
    }
  }

  lemma ReplaceMappers(m: Mem, f: nat, k: Key, perm: Bits, g: nat)
    requires RefInv(m) && f in m.pool && IsPresent(m, k)
    ensures UnmapFrame.requires(m, k)
    ensures Mappers(Install(UnmapFrame(m, k), f, k, perm), g) == Mappers(m, g) - {k} + if g == f then {k} else {}
  {
    UnmapEffect(m, k);
    InstallMappers(UnmapFrame(m, k), f, k, perm, g);
  }

  lemma ReplaceRecords(m: Mem, f: nat, k: Key, perm: Bits)
    requires RefInv(m) && f in m.pool && IsPresent(m, k) && EntryAt(m, k).frame != f && m.va[f] == k.page * PAGE
    ensures UnmapFrame.requires(m, k)
    ensures RecordsAt(m, Install(UnmapFrame(m, k), f, k, perm), f, k)
  {
    UnmapEffect(m, k);
    forall g: nat | k in Mappers(m, g) ensures g == EntryAt(m, k).frame { }
  }

  lemma ReplaceEffect(m: Mem, f: nat, k: Key, perm: Bits)
    requires RefInv(m) && f in m.pool && IsPresent(m, k) && EntryAt(m, k).frame != f && m.va[f] == k.page * PAGE
    ensures UnmapFrame.requires(m, k)
    ensures MappedAt(m, Install(UnmapFrame(m, k), f, k, perm), f, k)
  {
    ReplaceRecords(m, f, k, perm);
    UnmapKeepsAvailable(m, k);
    var t := Install(UnmapFrame(m, k), f, k, perm);
    forall g: nat ensures Mappers(t, g) == Mappers(m, g) - {k} + if g == f then {k} else {} {
      ReplaceMappers(m, f, k, perm, g);
    }
  }

  lemma VaMappers(m: Mem, f: nat, x: nat, t: Mem, k: Key)
    requires f < |m.va| && MappedAt(m.(va := m.va[f := x]), t, f, k)
    ensures MappedAt(m, t, f, k)
  {
    var v := m.(va := m.va[f := x]);
    forall g: nat ensures Mappers(v, g) == Mappers(m, g) { }
    forall j ensures EntryAt(v, j) == EntryAt(m, j) { }
  }

  lemma MapEffect(m: Mem, f: nat, k: Key, perm: Bits)
    requires RefInv(m) && f in m.pool && f !in m.free && BUFFERED !in perm
    ensures MapFrame.requires(m, f, k, perm)
    ensures MappedAt(m, MapFrame(m, f, k, perm), f, k)
  {
    MapInv(m, f, k, perm);
    var x := k.page * PAGE;
    VaInv(m, f, x);
    var v := m.(va := m.va[f := x]);
    if IsPresent(m, k) && EntryAt(m, k).frame == f {
      PresentFrame(m, k);
      assert Mappers(v, f) == Mappers(v, f) + {k};
      assert MappedAt(v, v, f, k);
    } else if IsPresent(m, k) {
      ReplaceEffect(v, f, k, perm);
    } else {
      InstallEffect(v, f, k, perm);
    }
    VaMappers(m, f, x, MapFrame(m, f, k, perm), k);
  }

  lemma MapEntryOk(m: Mem, t: Mem, f: nat, k: Key, j: Key)
    requires RefInv(m) && HeapEntryOk(m, j) && f < |m.va| && MappedAt(m, t, f, k) && Clean(m, f, k)
    ensures HeapEntryOk(t, j)
  {
    if j != k && HeapKey(j) && IsPresent(m, j) {
      PresentFrame(m, j);
      var g := EntryAt(m, j).frame;
      assert Mappers(m, g) == {j};
      assert Mappers(t, g) == Mappers(m, g);
    }
    if j == k { assert HeapKey(k) ==> Mappers(t, f) == {k}; }
  }

  lemma MapRecordOk(m: Mem, t: Mem, f: nat, k: Key, g: nat)
    requires ReverseInv(m) && f < |m.va| && MappedAt(m, t, f, k) && Clean(m, f, k)
    ensures HeapRecordOk(t, g)
  {
    assert HeapRecordOk(m, g);
    if g == f {
      if HEAP_FIRST * PAGE <= t.va[f] < HEAP_LIMIT * PAGE {
        assert t.va[f] / PAGE == k.page && InHeap(k.page);
      }
    } else if g < |m.va| && HEAP_FIRST * PAGE <= m.va[g] < HEAP_LIMIT * PAGE {
      assert HeapEntryOk(m, Key(KERNEL, m.va[g] / PAGE));
    }
  }

  lemma MapReverse(m: Mem, f: nat, k: Key, perm: Bits)
    requires RefInv(m) && ReverseInv(m) && f in m.pool && f !in m.free && BUFFERED !in perm && Clean(m, f, k)
    ensures MapFrame.requires(m, f, k, perm) && ReverseInv(MapFrame(m, f, k, perm))
  {
    MapEffect(m, f, k, perm);
    var t := MapFrame(m, f, k, perm);
    forall j ensures HeapEntryOk(t, j) {
      assert HeapEntryOk(m, j);
      MapEntryOk(m, t, f, k, j);
    }
    forall g: nat ensures HeapRecordOk(t, g) { MapRecordOk(m, t, f, k, g); }
  }

  /** `map_frame` keeps the reverse map exactly for clean mappings: mapping a heap frame a
      second time overwrites its record. */
  lemma MapReverseIff(m: Mem, f: nat, k: Key, perm: Bits)
    requires RefInv(m) && ReverseInv(m) && f in m.pool && f !in m.free && BUFFERED !in perm
    ensures MapFrame.requires(m, f, k, perm)
    ensures ReverseInv(MapFrame(m, f, k, perm)) <==> Clean(m, f, k)
  {
    MapEffect(m, f, k, perm);
    if Clean(m, f, k) {
      MapReverse(m, f, k, perm);
    } else {
      UncleanBreaks(m, f, k, perm);
    }
  }

  lemma UncleanBreaks(m: Mem, f: nat, k: Key, perm: Bits)
    requires RefInv(m) && ReverseInv(m) && f in m.pool && f !in m.free && BUFFERED !in perm && !Clean(m, f, k)
    ensures MapFrame.requires(m, f, k, perm) && !ReverseInv(MapFrame(m, f, k, perm))
  {
    MapEffect(m, f, k, perm);
    var t := MapFrame(m, f, k, perm);
    if InHeap(k.page) && k.dir != KERNEL {
      var j := Key(KERNEL, k.page);
      assert t.va[f] / PAGE == k.page;
      assert HeapRecordOk(t, f) ==> IsPresent(t, j) && EntryAt(t, j).frame == f;
      assert HeapEntryOk(t, j) ==> !(IsPresent(t, j) && EntryAt(t, j).frame == f);
    } else if exists j :: j in Mappers(m, f) && HeapKey(j) && j != k {
      var j :| j in Mappers(m, f) && HeapKey(j) && j != k;
      assert IsPresent(t, j) && EntryAt(t, j).frame == f && Mappers(t, f) != {j};
      assert !HeapEntryOk(t, j);
    } else {
      var j :| j in Mappers(m, f) && j != k;
      assert j in Mappers(t, f);
      assert !HeapEntryOk(t, k);
    }
  }

  lemma TablesReverse(m: Mem, more: set<Key>)
    requires ReverseInv(m)
    ensures ReverseInv(m.(tables := m.tables + more))
  {
    var t := m.(tables := m.tables + more);
    forall k ensures HeapEntryOk(t, k) {
      assert HeapEntryOk(m, k);
      assert Mappers(t, EntryAt(m, k).frame) == Mappers(m, EntryAt(m, k).frame);
    }
    forall f: nat ensures HeapRecordOk(t, f) { assert HeapRecordOk(m, f); }
  }

  lemma AllocPageReverse(m: Mem, k: Key, perm: Bits)
    requires RefInv(m) && ReverseInv(m) && (IsPresent(m, k) || m.free != []) && BUFFERED !in perm
    requires InHeap(k.page) ==> k.dir == KERNEL
    ensures ReverseInv(AllocPage(m, k, perm))
  {
    if !IsPresent(m, k) {
      AllocateInv(m);
      AllocateReverse(m);
      var t := AllocateFrame(m);
      assert Mappers(t, m.free[0]) == {} by { assert Mappers(t, m.free[0]) == Mappers(m, m.free[0]); }
      MapReverse(t, m.free[0], k, perm);
    }
  }

  lemma EnsureTableReverse(m: Mem, k: Key, spot: nat)
    requires RefInv(m) && ReverseInv(m) && (TableOf(k) !in m.tables ==> TableSpot(m, spot))
    ensures ReverseInv(EnsureTable(m, k, spot))
  {
    if TableOf(k) !in m.tables {
      AllocPageReverse(m, Key(KERNEL, spot), {WRITEABLE, PRESENT});
      TablesReverse(AllocPage(m, Key(KERNEL, spot), {WRITEABLE, PRESENT}), {TableOf(k)});
    }
  }

  /** The operation maps no heap frame twice and no heap address outside the kernel. */
  ghost predicate CleanOp(m: Mem, op: Op)
    requires RefInv(m) && Enabled(m, op)
  {
    match op
    case Map(f, k, perm, spot) => EnsureTableEffect(m, k, spot, f); Clean(EnsureTable(m, k, spot), f, k)
    case NewPage(k, perm, spot) => InHeap(k.page) ==> k.dir == KERNEL
    case _ => true
  }

  lemma NextReverse(m: Mem, op: Op)
    requires RefInv(m) && ReverseInv(m) && Enabled(m, op) && CleanOp(m, op)
    ensures ReverseInv(Next(m, op))
  {
    match op
    case Allocate => AllocateReverse(m);
    case Release(f) => ReleaseReverse(m, f);
    case Unmap(k) => UnmapReverse(m, k);
    case Map(f, k, perm, spot) =>
      EnsureTableReverse(m, k, spot);
      EnsureTableEffect(m, k, spot, f);
      MapReverse(EnsureTable(m, k, spot), f, k, perm);
    case NewPage(k, perm, spot) =>
      if !IsPresent(m, k) { NewPageReverse(m, k, perm, spot); }
  }

  lemma NewPageReverse(m: Mem, k: Key, perm: Bits, spot: nat)
    requires RefInv(m) && ReverseInv(m) && Enabled(m, NewPage(k, perm, spot)) && !IsPresent(m, k)
    requires InHeap(k.page) ==> k.dir == KERNEL
    ensures ReverseInv(Next(m, NewPage(k, perm, spot)))
  {
    AllocateInv(m);
    AllocateReverse(m);
    var f := m.free[0];
    var t := AllocateFrame(m);
    assert Mappers(t, f) == Mappers(m, f) == {};
    EnsureTableReverse(t, k, spot);
    EnsureTableEffect(t, k, spot, f);
    EnsureTableKeeps(t, k, spot, f);
    MapReverse(EnsureTable(t, k, spot), f, k, perm);
  }

  /** A frame in hand stays unmapped while a page table is created. */
  lemma EnsureTableKeeps(m: Mem, k: Key, spot: nat, f: nat)
    requires RefInv(m) && (TableOf(k) !in m.tables ==> TableSpot(m, spot)) && f in m.hand
    ensures Mappers(EnsureTable(m, k, spot), f) == {}
  {
    assert Counted(m, f);
    if TableOf(k) !in m.tables {
      AllocateInv(m);
      var t := AllocateFrame(m);
      assert Mappers(t, f) == Mappers(m, f);
      MapEffect(t, m.free[0], Key(KERNEL, spot), {WRITEABLE, PRESENT});
      assert Mappers(EnsureTable(m, k, spot), f) == Mappers(AllocPage(m, Key(KERNEL, spot), {WRITEABLE, PRESENT}), f);
    }
  }

  ghost predicate CleanRun(m: Mem, ops: seq<Op>)
    requires RefInv(m) && IsRun(m, ops)
    decreases |ops|
  {
    ops == [] || (CleanOp(m, ops[0]) && CleanRun(Next(m, ops[0]), ops[1..]))
  }

  /** Over any clean run the reverse map agrees with the page tables. */
  lemma {:induction false} ReverseTheorem(m: Mem, ops: seq<Op>)
    requires RefInv(m) && ReverseInv(m) && IsRun(m, ops) && CleanRun(m, ops)
    ensures ReverseInv(After(m, ops))
    decreases |ops|
  {
    if ops != [] {
      NextReverse(m, ops[0]);
      ReverseTheorem(Next(m, ops[0]), ops[1..]);
    }
  }
}
