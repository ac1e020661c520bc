/** Shared objects over the memory manager: creating, attaching, and what every run of the
    two keeps. */
module Shares {
  import opened Seqs
  import opened Memory

  /** `struct Share`; `frames` is `framesStorage`. */
  datatype Share = Share(id: int, owner: int, name: string, size: nat, refs: nat, writable: bool, frames: seq<nat>)

  /** A range of pages at which an object was attached, by its creator or by a get. */
  datatype Att = Att(id: int, dir: int, page: nat, viaGet: bool)

  /** `shares` is `shares_list`, newest first. */
  datatype Sys = Sys(m: Mem, shares: seq<Share>, atts: seq<Att>)

  /** What `strncpy` with 63 characters keeps of a name. */
  function Stored(name: string): (r: string) { if |name| <= 63 then name else name[..63] }

  /** A size in bytes rounded up, in 32 bits. */
  function Rounded(size: nat): (r: nat) { (size + PAGE - 1) % 0x1_0000_0000 }

  /** Frames of a new object: the size is unsigned when an object is created ... */
  function FramesFor(size: nat): (n: nat) { Rounded(size) / PAGE }

  /** ... and signed when it is attached, so the loop does nothing from 2^31 on. */
  function GetPages(size: nat): (n: nat) { if IsSmall(size) then FramesFor(size) else 0 }

  /** The size, rounded up in 32 bits, is below 2^31: sizes up to 0x7FFFF000, and those above
      0xFFFFF000, which round to 0. */
  predicate IsSmall(size: nat) { Rounded(size) < 0x8000_0000 }

  /** An object has as many frames as its size takes, unless its size is above 0xFFFFF000; and
      these and the sizes up to 0x7FFFF000 are the small ones. */
  lemma FramesForIs(size: nat)
    requires size < 0x1_0000_0000
    ensures size <= 0xFFFFF000 ==> (FramesFor(size) - 1) * PAGE < size <= FramesFor(size) * PAGE
    ensures size > 0xFFFFF000 ==> FramesFor(size) == 0
    ensures IsSmall(size) <==> size <= 0x7FFFF000 || size > 0xFFFFF000
  {
  }

  /** `find_share`: the first object of that owner with exactly that name. */
  function Find(q: seq<Share>, owner: int, name: string): (r: Option<nat>)
    ensures r.Some? ==> r.value < |q| && q[r.value].owner == owner && q[r.value].name == name
    ensures r.Some? ==> forall i :: 0 <= i < r.value ==> !(q[i].owner == owner && q[i].name == name)
    ensures r.None? ==> forall i :: 0 <= i < |q| ==> !(q[i].owner == owner && q[i].name == name)
  {
    if q == [] then None
    else if q[0].owner == owner && q[0].name == name then Some(0)
    else match Find(q[1..], owner, name)
      case None => None
      case Some(i) => Some(i + 1)
  }

  const CREATE_PERM: Bits := {USER, WRITEABLE, PRESENT}

  function GetPerm(writable: bool): (r: Bits) { if writable then {USER, PRESENT, WRITEABLE} else {USER, PRESENT} }

  // ----- mapping one page

  /** `k` maps `f`, writable and open to user code or not as `perm` says. */
  ghost predicate Linked(m: Mem, f: nat, k: Key, perm: Bits) {
    && IsPresent(m, k) && EntryAt(m, k).frame == f
    && (WRITEABLE in EntryAt(m, k).bits <==> WRITEABLE in perm)
    && (USER in EntryAt(m, k).bits <==> USER in perm)
  }

  /** `k` maps one of the frames `keep`. */
  ghost predicate Holds(m: Mem, k: Key, keep: set<nat>) { IsPresent(m, k) && EntryAt(m, k).frame in keep }

  /** `t` keeps whatever maps one of the frames `keep`, and frees none of them. */
  ghost predicate Extends(m: Mem, t: Mem, keep: set<nat>) {
    && RefInv(t) && t.pool == m.pool
    && (forall j :: Holds(m, j, keep) ==> EntryAt(t, j) == EntryAt(m, j))
    && (forall g :: g in t.free && g in keep ==> g in m.free)
    && m.tables <= t.tables
  }

  /** `t` is `m` with `f` mapped at `k`; if its page table was missing, the new one has taken
      the kernel page `spot` and a free frame. */
  ghost predicate Maps(m: Mem, t: Mem, f: nat, k: Key, perm: Bits, spot: nat, keep: set<nat>) {
    && Extends(m, t, keep) && Linked(t, f, k, perm)
    && t.tables == m.tables + {TableOf(k)}
    && (forall j :: EntryAt(t, j) != EntryAt(m, j) ==>
          j == k || (TableOf(k) !in m.tables && j == Key(KERNEL, spot)))
    && (forall g: nat :: g in keep && g !in m.free ==> Mappers(t, g) == Mappers(m, g) + if g == f then {k} else {})
  }

  /** If the page table of `k` is missing, `spot` is an unmapped kernel page for it. */
  ghost predicate TableReady(m: Mem, k: Key, spot: nat) {
    TableOf(k) !in m.tables ==> InHeap(spot) && !IsPresent(m, Key(KERNEL, spot))
  }

  /** A page in a process's own directory, mapped or not, that can get a page table. */
  ghost predicate Target(m: Mem, k: Key, spot: nat) { k.dir != KERNEL && TableReady(m, k, spot) }

  lemma TableMappers(m: Mem, k: Key, spot: nat, g: nat)
    requires RefInv(m) && (TableOf(k) !in m.tables ==> TableSpot(m, spot)) && g !in m.free
    ensures Mappers(EnsureTable(m, k, spot), g) == Mappers(m, g)
  {
    if TableOf(k) !in m.tables {
      AllocateInv(m);
      var f := m.free[0];
      assert f in m.free;
      var a := AllocateFrame(m);
      assert Mappers(a, g) == Mappers(m, g);
      MapEffect(a, f, Key(KERNEL, spot), {WRITEABLE, PRESENT});
      var t := AllocPage(m, Key(KERNEL, spot), {WRITEABLE, PRESENT});
      assert Key(KERNEL, spot) !in Mappers(m, g);
      assert Mappers(EnsureTable(m, k, spot), g) == Mappers(t, g);
    }
  }

  lemma TableFree(m: Mem, k: Key, spot: nat, g: nat)
    requires RefInv(m) && (TableOf(k) !in m.tables ==> TableSpot(m, spot)) && g in EnsureTable(m, k, spot).free
    ensures g in m.free
  {
    if TableOf(k) !in m.tables {
      AllocateInv(m);
      assert g in m.free[1..];
    }
  }

  /** The new page table, if one was needed, is the only change. */
  lemma TableEntries(m: Mem, k: Key, spot: nat, f: nat)
    requires RefInv(m) && TableReady(m, k, spot) && f in m.pool && f !in m.free
    requires TableOf(k) !in m.tables ==> m.free != []
    ensures var e := EnsureTable(m, k, spot);
      && e.pool == m.pool && f !in e.free
      && (forall j :: j != Key(KERNEL, spot) || TableOf(k) in m.tables ==> EntryAt(e, j) == EntryAt(m, j))
      && e.tables == m.tables + {TableOf(k)}
      && (forall g: nat :: g in e.free ==> g in m.free)
      && (forall g: nat :: g !in m.free ==> Mappers(e, g) == Mappers(m, g))
  {
    EnsureTableEffect(m, k, spot, f);
    var e := EnsureTable(m, k, spot);
    forall g: nat | g in e.free ensures g in m.free { TableFree(m, k, spot, g); }
    forall g: nat | g !in m.free ensures Mappers(e, g) == Mappers(m, g) { TableMappers(m, k, spot, g); }
  }

  lemma MapBits(m: Mem, f: nat, k: Key, perm: Bits)
    requires RefInv(m) && f in m.pool && f !in m.free && BUFFERED !in perm
    requires IsPresent(m, k) ==> EntryAt(m, k).frame != f
    ensures MapFrame.requires(m, f, k, perm)
    ensures Linked(MapFrame(m, f, k, perm), f, k, perm)
  {
    MapInv(m, f, k, perm);
  }

  /** Only the frame that was mapped there before can become free. */
  lemma MapFree(m: Mem, f: nat, k: Key, perm: Bits)
    requires RefInv(m) && f in m.pool && f !in m.free && BUFFERED !in perm
    ensures MapFrame.requires(m, f, k, perm)
    ensures var t := MapFrame(m, f, k, perm);
      && t.pool == m.pool && t.tables == m.tables
      && forall g: nat :: g in t.free ==> g in m.free || (IsPresent(m, k) && g == EntryAt(m, k).frame)
  {
    MapInv(m, f, k, perm);
  }

  /** `map_frame` where the page table exists, over a page that maps none of `keep` but
      possibly `f` itself. */
  lemma MapKeeps(m: Mem, f: nat, k: Key, perm: Bits, keep: set<nat>)
    requires RefInv(m) && f in m.pool && f !in m.free && BUFFERED !in perm
    requires Holds(m, k, keep) ==> EntryAt(m, k).frame == f
    ensures MapFrame.requires(m, f, k, perm)
    ensures var t := MapFrame(m, f, k, perm);
      && RefInv(t) && t.pool == m.pool && t.tables == m.tables
      && (forall j :: j != k || Holds(m, k, keep) ==> EntryAt(t, j) == EntryAt(m, j))
      && (forall g: nat :: g in t.free && g in keep ==> g in m.free)
      && (forall g: nat :: g in keep ==> Mappers(t, g) == Mappers(m, g) + if g == f then {k} else {})
  {
    MapInv(m, f, k, perm);
    MapEffect(m, f, k, perm);
    MapFree(m, f, k, perm);
    var t := MapFrame(m, f, k, perm);
    MapPlaces(m, t, f, k, keep);
    if Holds(m, k, keep) { MapAgain(m, f, k, perm); }
    forall g: nat | g in t.free && g in keep ensures g in m.free { if g == f { PresentFrame(t, k); } }
  }

  /** Mapping a frame where it is already mapped changes no entry. */
  lemma MapAgain(m: Mem, f: nat, k: Key, perm: Bits)
    requires RefInv(m) && IsPresent(m, k) && EntryAt(m, k).frame == f
    ensures MapFrame.requires(m, f, k, perm) && MapFrame(m, f, k, perm).pt == m.pt
  {
    PresentFrame(m, k);
  }

  lemma MapPlaces(m: Mem, t: Mem, f: nat, k: Key, keep: set<nat>)
    requires f < |m.va| && MappedAt(m, t, f, k) && (Holds(m, k, keep) ==> EntryAt(m, k).frame == f)
    ensures forall g: nat :: g in keep ==> Mappers(t, g) == Mappers(m, g) + if g == f then {k} else {}
  {
    forall g: nat | g in keep ensures Mappers(t, g) == Mappers(m, g) + if g == f then {k} else {} {
      assert k in Mappers(m, g) ==> g == f;
      assert Mappers(t, g) == Mappers(m, g) - {k} + if g == f then {k} else {};
    }
  }

  /** `map_frame` of a frame of `keep` at a target that maps no other. */
  lemma MapNew(m: Mem, f: nat, k: Key, perm: Bits, spot: nat, keep: set<nat>)
    requires RefInv(m) && Target(m, k, spot) && !Holds(m, k, keep)
    requires f in m.pool && f !in m.free && f in keep && BUFFERED !in perm
    requires TableOf(k) !in m.tables ==> m.free != []
    ensures MapFrame.requires(EnsureTable(m, k, spot), f, k, perm)
    ensures Maps(m, MapFrame(EnsureTable(m, k, spot), f, k, perm), f, k, perm, spot, keep)
  {
    TableEntries(m, k, spot, f);
    var e := EnsureTable(m, k, spot);
    assert EntryAt(e, k) == EntryAt(m, k);
    MapKeeps(e, f, k, perm, keep);
    MapBits(e, f, k, perm);
    var t := MapFrame(e, f, k, perm);
    forall j | Holds(m, j, keep) ensures EntryAt(t, j) == EntryAt(m, j) {
      assert j != k && (j != Key(KERNEL, spot) || TableOf(k) in m.tables);
    }
  }

  // ----- attaching a range

  function Spot(dir: int, page: nat, i: nat): (k: Key) { Key(dir, page + i) }

  /** The pages of the range at which `frames` puts `g`. */
  ghost function Placed(frames: seq<nat>, dir: int, page: nat, n: nat, g: nat): (r: set<Key>)
    requires n <= |frames|
  {
    set i: nat | i < n && frames[i] == g :: Spot(dir, page, i)
  }

  /** The kernel page that is going to hold the page table of `k`. */
  function SpotFor(spots: map<Key, nat>, k: Key): (r: nat) { if TableOf(k) in spots then spots[TableOf(k)] else 0 }

  /** `j` is one of the first `n` pages of the range, or the kernel page of a table that was
      missing for them. */
  ghost predicate Taken(m: Mem, j: Key, dir: int, page: nat, n: nat, spots: map<Key, nat>) {
    || (j.dir == dir && page <= j.page < page + n)
    || (exists i: nat :: i < n && NewTable(m, j, Spot(dir, page, i), spots))
  }

  ghost predicate NewTable(m: Mem, j: Key, k: Key, spots: map<Key, nat>) {
    TableOf(k) !in m.tables && j == Key(KERNEL, SpotFor(spots, k))
  }

  /** The page tables of the first `n` pages exist. */
  ghost predicate HasTables(m: Mem, dir: int, page: nat, n: nat) {
    forall i: nat :: i < n ==> TableOf(Spot(dir, page, i)) in m.tables
  }

  /** The first `n` of `frames` have been mapped at the range. */
  ghost predicate Attached(m: Mem, t: Mem, frames: seq<nat>, dir: int, page: nat, perm: Bits, spots: map<Key, nat>,
                           keep: set<nat>, n: nat)
  {
    && n <= |frames| && Extends(m, t, keep) && HasTables(t, dir, page, n)
    && LinkedAll(t, frames, dir, page, perm, n)
    && TakesOnly(m, t, dir, page, n, spots)
    && PlacesAll(m, t, frames, dir, page, keep, n)
  }

  ghost predicate LinkedAll(t: Mem, frames: seq<nat>, dir: int, page: nat, perm: Bits, n: nat)
    requires n <= |frames|
  {
    forall i: nat :: i < n ==> Linked(t, frames[i], Spot(dir, page, i), perm)
  }

  /** No other entry has changed. */
  ghost predicate TakesOnly(m: Mem, t: Mem, dir: int, page: nat, n: nat, spots: map<Key, nat>) {
    forall j :: EntryAt(t, j) != EntryAt(m, j) ==> Taken(m, j, dir, page, n, spots)
  }

  ghost predicate PlacesAll(m: Mem, t: Mem, frames: seq<nat>, dir: int, page: nat, keep: set<nat>, n: nat)
    requires n <= |frames|
  {
    forall g: nat :: PlacesOn(m, t, frames, dir, page, keep, n, g)
  }

  /** A frame of `keep` in use is mapped where it was, and where the range puts it. */
  ghost predicate PlacesOn(m: Mem, t: Mem, frames: seq<nat>, dir: int, page: nat, keep: set<nat>, n: nat, g: nat)
    requires n <= |frames|
  {
    g in keep && g !in m.free ==> Mappers(t, g) == Mappers(m, g) + Placed(frames, dir, page, n, g)
  }

  /** The start of the loop, which carries `Attached` as an equation so that the verifier does
      not unfold its quantifiers at every turn. */
  lemma AttachNone(m: Mem, frames: seq<nat>, dir: int, page: nat, perm: Bits, spots: map<Key, nat>, keep: set<nat>)
    requires RefInv(m)
    ensures Attached(m, m, frames, dir, page, perm, spots, keep, 0) == true
  {
    forall g: nat ensures PlacesOn(m, m, frames, dir, page, keep, 0, g) { assert Placed(frames, dir, page, 0, g) == {}; }
  }

  /** A kernel page of its own for each page table of the range that is missing. */
  ghost predicate Room(m: Mem, dir: int, page: nat, n: nat, spots: map<Key, nat>) {
    && (forall i: nat :: i < n ==> TargetAt(m, Spot(dir, page, i), spots))
    && (forall a, b :: Differ(spots, a, b))
  }

  ghost predicate TargetAt(m: Mem, k: Key, spots: map<Key, nat>) { Target(m, k, SpotFor(spots, k)) }

  ghost predicate Differ(spots: map<Key, nat>, a: Key, b: Key) {
    a in spots && b in spots && a != b ==> spots[a] != spots[b]
  }

  /** No page of the range maps one of the frames `keep`. */
  ghost predicate Clear(m: Mem, dir: int, page: nat, n: nat, keep: set<nat>) {
    forall i: nat :: i < n ==> !Holds(m, Spot(dir, page, i), keep)
  }

  lemma StillTarget(m: Mem, t: Mem, dir: int, page: nat, n: nat, spots: map<Key, nat>, i: nat)
    requires Room(m, dir, page, n, spots) && i < n && m.tables <= t.tables && HasTables(t, dir, page, i)
    requires TakesOnly(m, t, dir, page, i, spots)
    ensures Target(t, Spot(dir, page, i), SpotFor(spots, Spot(dir, page, i)))
    ensures EntryAt(t, Spot(dir, page, i)) == EntryAt(m, Spot(dir, page, i))
  {
    var k := Spot(dir, page, i);
    assert TargetAt(m, k, spots);
    forall x: nat | x < i ensures !NewTable(m, k, Spot(dir, page, x), spots) { }
    assert !Taken(m, k, dir, page, i, spots);
    if TableOf(k) !in t.tables { SpotUntaken(m, t, dir, page, n, spots, i); }
  }

  /** Two missing tables have two spots, so this one's is still free. */
  lemma SpotUntaken(m: Mem, t: Mem, dir: int, page: nat, n: nat, spots: map<Key, nat>, i: nat)
    requires Room(m, dir, page, n, spots) && i < n && m.tables <= t.tables && HasTables(t, dir, page, i)
    requires TableOf(Spot(dir, page, i)) !in t.tables
    requires TakesOnly(m, t, dir, page, i, spots)
    ensures InHeap(SpotFor(spots, Spot(dir, page, i)))
    ensures !IsPresent(t, Key(KERNEL, SpotFor(spots, Spot(dir, page, i))))
  {
    var k := Spot(dir, page, i);
    var j := Key(KERNEL, SpotFor(spots, k));
    assert TargetAt(m, k, spots);
    forall x: nat | x < i ensures !NewTable(m, j, Spot(dir, page, x), spots) {
      var l := Spot(dir, page, x);
      assert TargetAt(m, l, spots) && Differ(spots, TableOf(k), TableOf(l));
      assert TableOf(l) in t.tables;
    }
    assert !Taken(m, j, dir, page, i, spots);
  }

  lemma PlacedStep(frames: seq<nat>, dir: int, page: nat, i: nat, g: nat)
    requires i < |frames|
    ensures Placed(frames, dir, page, i + 1, g) ==
      Placed(frames, dir, page, i, g) + if frames[i] == g then {Spot(dir, page, i)} else {}
  {
  }

  lemma ExtendsTwice(m: Mem, t: Mem, u: Mem, keep: set<nat>)
    requires Extends(m, t, keep) && Extends(t, u, keep)
    ensures Extends(m, u, keep)
  {
    forall j | Holds(m, j, keep) ensures EntryAt(u, j) == EntryAt(m, j) {
      assert EntryAt(t, j) == EntryAt(m, j);
      assert Holds(t, j, keep);
    }
  }

  lemma TakenStep(m: Mem, t: Mem, u: Mem, dir: int, page: nat, spots: map<Key, nat>, i: nat)
    requires m.tables <= t.tables
    requires TakesOnly(m, t, dir, page, i, spots)
    requires forall j :: EntryAt(u, j) != EntryAt(t, j) ==>
      j == Spot(dir, page, i) || NewTable(t, j, Spot(dir, page, i), spots)
    ensures TakesOnly(m, u, dir, page, i + 1, spots)
  {
    forall j | EntryAt(u, j) != EntryAt(m, j) ensures Taken(m, j, dir, page, i + 1, spots) {
      if EntryAt(t, j) != EntryAt(m, j) {
        assert Taken(m, j, dir, page, i, spots);
        if x: nat :| x < i && NewTable(m, j, Spot(dir, page, x), spots) { assert x < i + 1; }
      } else if j != Spot(dir, page, i) {
        assert NewTable(m, j, Spot(dir, page, i), spots);
      }
    }
  }

  lemma TablesStep(t: Mem, u: Mem, dir: int, page: nat, i: nat)
    requires HasTables(t, dir, page, i) && u.tables == t.tables + {TableOf(Spot(dir, page, i))}
    ensures HasTables(u, dir, page, i + 1)
  {
  }

  /** All of `frames` are among `keep`. */
  ghost predicate Among(frames: seq<nat>, keep: set<nat>) { forall i: nat :: i < |frames| ==> frames[i] in keep }

  /** One more turn of the mapping loop of `get_shared_object`. */
  lemma AttachStep(m: Mem, t: Mem, u: Mem, frames: seq<nat>, dir: int, page: nat, perm: Bits, spots: map<Key, nat>,
                   keep: set<nat>, i: nat)
    requires Attached(m, t, frames, dir, page, perm, spots, keep, i) && i < |frames| && Among(frames, keep)
    requires Maps(t, u, frames[i], Spot(dir, page, i), perm, SpotFor(spots, Spot(dir, page, i)), keep)
    ensures Attached(m, u, frames, dir, page, perm, spots, keep, i + 1)
  {
    ExtendsTwice(m, t, u, keep);
    TakenStep(m, t, u, dir, page, spots, i);
    TablesStep(t, u, dir, page, i);
    LinksStep(t, u, frames, dir, page, perm, keep, i);
    AttachAllMappers(m, t, u, frames, dir, page, perm, spots, keep, i);
  }

  lemma AttachAllMappers(m: Mem, t: Mem, u: Mem, frames: seq<nat>, dir: int, page: nat, perm: Bits,
                         spots: map<Key, nat>, keep: set<nat>, i: nat)
    requires Attached(m, t, frames, dir, page, perm, spots, keep, i) && i < |frames|
    requires Maps(t, u, frames[i], Spot(dir, page, i), perm, SpotFor(spots, Spot(dir, page, i)), keep)
    ensures PlacesAll(m, u, frames, dir, page, keep, i + 1)
  {
    var next := i + 1;
    forall g: nat ensures PlacesOn(m, u, frames, dir, page, keep, next, g) {
      if g in keep && g !in m.free { AttachMappers(m, t, u, frames, dir, page, perm, spots, keep, i, g); }
    }
  }

  /** Entries of frames of `keep` are kept, so the links made so far are. */
  lemma LinksStep(t: Mem, u: Mem, frames: seq<nat>, dir: int, page: nat, perm: Bits, keep: set<nat>, i: nat)
    requires i < |frames| && Extends(t, u, keep) && Linked(u, frames[i], Spot(dir, page, i), perm)
    requires LinkedAll(t, frames, dir, page, perm, i) && Among(frames, keep)
    ensures LinkedAll(u, frames, dir, page, perm, i + 1)
  {
    forall x: nat | x < i + 1 ensures Linked(u, frames[x], Spot(dir, page, x), perm) {
      if x < i { assert Linked(t, frames[x], Spot(dir, page, x), perm) && Holds(t, Spot(dir, page, x), keep); }
    }
  }

  lemma AttachMappers(m: Mem, t: Mem, u: Mem, frames: seq<nat>, dir: int, page: nat, perm: Bits, spots: map<Key, nat>,
                      keep: set<nat>, i: nat, g: nat)
    requires Attached(m, t, frames, dir, page, perm, spots, keep, i) && i < |frames| && g in keep && g !in m.free
    requires Maps(t, u, frames[i], Spot(dir, page, i), perm, SpotFor(spots, Spot(dir, page, i)), keep)
    ensures Mappers(u, g) == Mappers(m, g) + Placed(frames, dir, page, i + 1, g)
  {
    assert g !in t.free && PlacesAll(m, t, frames, dir, page, keep, i) && PlacesOn(m, t, frames, dir, page, keep, i, g);
    var more := if g == frames[i] then {Spot(dir, page, i)} else {};
    assert Mappers(u, g) == Mappers(t, g) + more;
    PlacedStep(frames, dir, page, i, g);
    Regroup(Mappers(m, g), Placed(frames, dir, page, i, g), more);
  }

  lemma Regroup(a: set<Key>, b: set<Key>, c: set<Key>)
    ensures a + b + c == a + (b + c)
  {
  }

  // ----- building an object

  /** `f` has been taken from the free list and is mapped at `k` alone. */
  ghost predicate NewFrame(m: Mem, t: Mem, f: nat, k: Key, keep: set<nat>) {
    && (f in keep ==> f in m.free) && f !in t.free
    && Mappers(t, f) == {k} && k !in Mappers(m, f)
  }

  /** New frames `frames` have been mapped at the range, and nowhere else. */
  ghost predicate Built(m: Mem, t: Mem, frames: seq<nat>, dir: int, page: nat, perm: Bits, spots: map<Key, nat>,
                        keep: set<nat>)
  {
    && Extends(m, t, keep) && NoDup(frames) && HasTables(t, dir, page, |frames|)
    && LinkedAll(t, frames, dir, page, perm, |frames|)
    && TakesOnly(m, t, dir, page, |frames|, spots)
    && AllNew(m, t, frames, dir, page, keep)
    && (forall g: nat :: g in keep && g !in m.free ==> Mappers(t, g) == Mappers(m, g))
  }

  ghost predicate AllNew(m: Mem, t: Mem, frames: seq<nat>, dir: int, page: nat, keep: set<nat>) {
    forall i: nat :: i < |frames| ==> NewFrame(m, t, frames[i], Spot(dir, page, i), keep)
  }

  /** A frame has been taken from the free list. */
  lemma AllocateExtends(m: Mem, keep: set<nat>)
    requires RefInv(m) && m.free != []
    ensures m.free[0] < |m.refs| == |m.va| && m.free[0] in m.free
    ensures var f := m.free[0]; var a := AllocateFrame(m);
      && Extends(m, a, keep) && f in a.pool && f !in a.free && Mappers(a, f) == {}
      && (forall g: nat :: Mappers(a, g) == Mappers(m, g)) && (forall j :: EntryAt(a, j) == EntryAt(m, j))
      && (forall g: nat :: g in a.free ==> g in m.free)
      && a.tables == m.tables
  {
    AllocateInv(m);
    var f := m.free[0];
    assert f in m.free;
    var a := AllocateFrame(m);
    assert m.free == [f] + a.free;
    forall g: nat ensures Mappers(a, g) == Mappers(m, g) { }
  }

  /** What the next turn of the building loop must not touch. */
  ghost function Kept(keep: set<nat>, frames: seq<nat>, f: nat): (r: set<nat>) {
    keep + (set x | x in frames) + {f}
  }

  /** The target of the next turn maps neither `keep` nor a frame of this object. */
  lemma NextClear(m: Mem, t: Mem, a: Mem, frames: seq<nat>, dir: int, page: nat, perm: Bits, spots: map<Key, nat>, keep: set<nat>)
    requires Built(m, t, frames, dir, page, perm, spots, keep) && RefInv(t) && t.free != []
    requires t.free[0] < |t.refs| == |t.va| && a == AllocateFrame(t)
    requires EntryAt(t, Spot(dir, page, |frames|)) == EntryAt(m, Spot(dir, page, |frames|))
    requires !Holds(m, Spot(dir, page, |frames|), keep)
    ensures !Holds(a, Spot(dir, page, |frames|), Kept(keep, frames, t.free[0]))
    ensures Spot(dir, page, |frames|) !in Mappers(m, t.free[0])
  {
    AllocateExtends(t, keep);
    var k := Spot(dir, page, |frames|);
    assert EntryAt(a, k) == EntryAt(m, k);
    if IsPresent(a, k) {
      var g := EntryAt(a, k).frame;
      assert k in Mappers(t, g);
      forall x: nat | x < |frames| ensures frames[x] != g {
        assert NewFrame(m, t, frames[x], Spot(dir, page, x), keep);
      }
    }
  }

  /** The frames of the earlier turns stay where they are ... */
  lemma StillNew(m: Mem, t: Mem, u: Mem, f: nat, k: Key, g: nat, l: Key, keep: set<nat>, more: set<nat>)
    requires NewFrame(m, t, f, k, keep) && f in more && f != g
    requires Extends(t, u, more)
    requires forall x: nat :: x in more && x !in t.free ==> Mappers(u, x) == Mappers(t, x) + if x == g then {l} else {}
    ensures NewFrame(m, u, f, k, keep)
  {
  }

  /** ... and the one just taken is mapped at the next page. */
  lemma BuildFrames(m: Mem, t: Mem, a: Mem, u: Mem, frames: seq<nat>, dir: int, page: nat, perm: Bits, spots: map<Key, nat>,
                    keep: set<nat>)
    requires Extends(m, t, keep) && AllNew(m, t, frames, dir, page, keep) && NoDup(frames) && RefInv(t) && t.free != []
    requires t.free[0] < |t.refs| == |t.va| && a == AllocateFrame(t)
    requires Maps(a, u, t.free[0], Spot(dir, page, |frames|), perm, SpotFor(spots, Spot(dir, page, |frames|)),
                  Kept(keep, frames, t.free[0]))
    requires Spot(dir, page, |frames|) !in Mappers(m, t.free[0])
    ensures NoDup(frames + [t.free[0]]) && AllNew(m, u, frames + [t.free[0]], dir, page, keep)
  {
    AllocateExtends(t, keep);
    var f := t.free[0];
    var k := Spot(dir, page, |frames|);
    var kept := Kept(keep, frames, f);
    forall i: nat | i < |frames| ensures frames[i] != f && NewFrame(m, u, frames[i], Spot(dir, page, i), keep) {
      assert NewFrame(m, t, frames[i], Spot(dir, page, i), keep);
      assert Maps(a, u, f, k, perm, SpotFor(spots, k), kept);
      assert NewFrame(m, a, frames[i], Spot(dir, page, i), keep);
      StillNew(m, a, u, frames[i], Spot(dir, page, i), f, k, keep, kept);
    }
    LastNew(m, t, a, u, f, k, perm, SpotFor(spots, k), keep, kept);
    var more := frames + [f];
    forall i: nat | i < |more| ensures NewFrame(m, u, more[i], Spot(dir, page, i), keep) {
      if i < |frames| { assert more[i] == frames[i]; } else { assert more[i] == f; }
    }
  }

  lemma LastNew(m: Mem, t: Mem, a: Mem, u: Mem, f: nat, k: Key, perm: Bits, spot: nat, keep: set<nat>, more: set<nat>)
    requires Extends(m, t, keep) && f in t.free && f !in a.free && Mappers(a, f) == {} && f in more
    requires Maps(a, u, f, k, perm, spot, more) && k !in Mappers(m, f)
    ensures NewFrame(m, u, f, k, keep)
  {
  }

  lemma BuildLinks(t: Mem, a: Mem, u: Mem, frames: seq<nat>, f: nat, dir: int, page: nat, perm: Bits, keep: set<nat>)
    requires LinkedAll(t, frames, dir, page, perm, |frames|) && Extends(a, u, Kept(keep, frames, f))
    requires forall j :: EntryAt(a, j) == EntryAt(t, j)
    requires Linked(u, f, Spot(dir, page, |frames|), perm)
    ensures LinkedAll(u, frames + [f], dir, page, perm, |frames| + 1)
  {
    var more := frames + [f];
    forall x: nat | x < |more| ensures Linked(u, more[x], Spot(dir, page, x), perm) {
      if x < |frames| {
        var k := Spot(dir, page, x);
        assert Linked(t, frames[x], k, perm) && EntryAt(a, k) == EntryAt(t, k);
        assert Holds(a, k, Kept(keep, frames, f));
      }
    }
  }

  lemma ExtendsLess(m: Mem, t: Mem, more: set<nat>, keep: set<nat>)
    requires Extends(m, t, more) && keep <= more
    ensures Extends(m, t, keep)
  {
    forall j | Holds(m, j, keep) ensures EntryAt(t, j) == EntryAt(m, j) { assert Holds(m, j, more); }
  }

  /** One more turn of the loop of `create_shared_object`. */
  lemma BuildStep(m: Mem, t: Mem, a: Mem, u: Mem, frames: seq<nat>, dir: int, page: nat, perm: Bits, spots: map<Key, nat>,
                  keep: set<nat>)
    requires Built(m, t, frames, dir, page, perm, spots, keep) && RefInv(t) && t.free != []
    requires t.free[0] < |t.refs| == |t.va| && a == AllocateFrame(t)
    requires Maps(a, u, t.free[0], Spot(dir, page, |frames|), perm, SpotFor(spots, Spot(dir, page, |frames|)),
                  Kept(keep, frames, t.free[0]))
    requires Spot(dir, page, |frames|) !in Mappers(m, t.free[0])
    ensures Built(m, u, frames + [t.free[0]], dir, page, perm, spots, keep)
  {
    AllocateExtends(t, keep);
    var f := t.free[0];
    BuildFrames(m, t, a, u, frames, dir, page, perm, spots, keep);
    ExtendsTwice(m, t, a, keep);
    ExtendsLess(a, u, Kept(keep, frames, f), keep);
    ExtendsTwice(m, a, u, keep);
    TakenStep(m, t, u, dir, page, spots, |frames|);
    TablesStep(t, u, dir, page, |frames|);
    BuildLinks(t, a, u, frames, f, dir, page, perm, keep);
    forall g: nat | g in keep && g !in m.free ensures Mappers(u, g) == Mappers(m, g) {
      assert g !in t.free && g !in a.free && g in Kept(keep, frames, f);
    }
  }

  // ----- the system

  /** The pages at which page `i` of an object is attached. */
  ghost function Where(atts: seq<Att>, id: int, i: nat): (r: set<Key>) {
    set x | 0 <= x < |atts| && atts[x].id == id :: Spot(atts[x].dir, atts[x].page, i)
  }

  /** How often an object is attached. */
  function Attachments(atts: seq<Att>, id: int): (r: nat) {
    if atts == [] then 0
    else Attachments(atts[..|atts| - 1], id) + if atts[|atts| - 1].id == id then 1 else 0
  }

  /** Each stored frame is mapped exactly where the object is attached, and as often as
      `references` says. */
  ghost predicate ShareOk(m: Mem, s: Share, atts: seq<Att>) {
    && |s.frames| == FramesFor(s.size) && s.refs == Attachments(atts, s.id)
    && (forall i: nat :: i < |s.frames| ==>
          && s.frames[i] in m.pool && s.frames[i] !in m.free
          && Mappers(m, s.frames[i]) == Where(atts, s.id, i)
          && |Mappers(m, s.frames[i])| == s.refs)
  }

  /** An attachment maps page `i` to frame `i` of its object; one made by a get is writable
      only if the object is, the creator's always. */
  ghost predicate AttOk(m: Mem, s: Share, a: Att) {
    forall i: nat :: i < |s.frames| ==>
      Linked(m, s.frames[i], Spot(a.dir, a.page, i), if a.viaGet then GetPerm(s.writable) else CREATE_PERM)
  }

  ghost predicate IdsDistinct(q: seq<Share>) { forall x, y :: 0 <= x < y < |q| ==> q[x].id != q[y].id }

  /** No frame belongs to two objects, or twice to one. */
  ghost predicate FramesApart(q: seq<Share>) {
    forall x, y, i, j :: 0 <= x < |q| && 0 <= y < |q| && 0 <= i < |q[x].frames| && 0 <= j < |q[y].frames| ==>
      q[x].frames[i] == q[y].frames[j] ==> x == y && i == j
  }

  ghost predicate Known(q: seq<Share>, id: int) { exists x :: 0 <= x < |q| && q[x].id == id }

  ghost predicate Inv(s: Sys) {
    && RefInv(s.m)
    && IdsDistinct(s.shares) && FramesApart(s.shares)
    && (forall x :: 0 <= x < |s.shares| ==> ShareOk(s.m, s.shares[x], s.atts))
    && (forall x, y :: 0 <= x < |s.shares| && 0 <= y < |s.atts| && s.atts[y].id == s.shares[x].id ==>
          AttOk(s.m, s.shares[x], s.atts[y]))
    && (forall y :: 0 <= y < |s.atts| ==> Known(s.shares, s.atts[y].id))
  }

  /** An owner's names are distinct. */
  ghost predicate Unique(q: seq<Share>) {
    forall x, y :: 0 <= x < y < |q| ==> !(q[x].owner == q[y].owner && q[x].name == q[y].name)
  }

  // ----- operations

  datatype CreateResult = Created(id: int) | AlreadyExists | NoShare
  datatype GetResult = Got(id: int) | DoesNotExist

  function NewShare(id: int, owner: int, name: string, size: nat, writable: bool, frames: seq<nat>): (s: Share) {
    Share(id, owner, Stored(name), size, 1, writable, frames)
  }

  ghost function SharedFrames(q: seq<Share>): (r: set<nat>) {
    set x, i | 0 <= x < |q| && 0 <= i < |q[x].frames| :: q[x].frames[i]
  }

  /** Some page of the range maps a frame of an object. */
  ghost predicate Overlaps(m: Mem, q: seq<Share>, dir: int, page: nat, n: nat) {
    !Clear(m, dir, page, n, SharedFrames(q))
  }

  /** The frames of objects that mapping the range does not take out of it. */
  ghost function Spared(m: Mem, q: seq<Share>, dir: int, page: nat, n: nat): (r: set<nat>) {
    set g | g in SharedFrames(q) && Clear(m, dir, page, n, {g})
  }

  lemma SparedClear(m: Mem, q: seq<Share>, dir: int, page: nat, n: nat)
    ensures Clear(m, dir, page, n, Spared(m, q, dir, page, n))
    ensures !Overlaps(m, q, dir, page, n) ==> Spared(m, q, dir, page, n) == SharedFrames(q)
  {
    forall i: nat | i < n ensures !Holds(m, Spot(dir, page, i), Spared(m, q, dir, page, n)) {
      var g := EntryAt(m, Spot(dir, page, i)).frame;
      if g in Spared(m, q, dir, page, n) { assert !Holds(m, Spot(dir, page, i), {g}); }
    }
    if !Overlaps(m, q, dir, page, n) {
      forall g | g in SharedFrames(q) ensures Clear(m, dir, page, n, {g}) {
        forall i: nat | i < n ensures !Holds(m, Spot(dir, page, i), {g}) {
          assert !Holds(m, Spot(dir, page, i), SharedFrames(q));
        }
      }
    }
  }

  /** What the two `kmalloc` calls of `alloc_share` come to; the second asks for nothing, and
      gets nothing, if the object has no frames. */
  function Made(size: nat, id: Option<int>): (r: Option<int>) { if FramesFor(size) == 0 then None else id }

  /** `create_shared_object` at virtual address `va` of directory `dir`. `id` is the identity
      of the new object, if the `kmalloc` calls succeed. An unaligned address is refused only
      after the object has been listed. */
  ghost predicate Create(s: Sys, owner: int, name: string, size: nat, writable: bool, dir: int, va: nat,
                         id: Option<int>, spots: map<Key, nat>, r: CreateResult, t: Sys)
  {
    if Find(s.shares, owner, name).Some? then r == AlreadyExists && t == s
    else if Made(size, id).None? then r == NoShare && t == s
    else if va % PAGE != 0 then
      && r == NoShare && t.m == s.m && t.atts == s.atts
      && t.shares == [NewShare(id.value, owner, name, size, writable, Blank(FramesFor(size)))] + s.shares
    else
      && r == Created(id.value)
      && t.shares != [] && Built(s.m, t.m, t.shares[0].frames, dir, va / PAGE, CREATE_PERM, spots,
                                  Spared(s.m, s.shares, dir, va / PAGE, FramesFor(size)))
      && |t.shares[0].frames| == FramesFor(size)
      && t.shares == [NewShare(id.value, owner, name, size, writable, t.shares[0].frames)] + s.shares
      && t.atts == s.atts + [Att(id.value, dir, va / PAGE, false)]
  }

  /** `framesStorage` before any frame is stored. */
  function Blank(n: nat): (r: seq<nat>) { seq(n, _ => 0) }

  /** `get_shared_object`. */
  ghost predicate Get(s: Sys, owner: int, name: string, dir: int, page: nat, spots: map<Key, nat>, r: GetResult, t: Sys) {
    match Find(s.shares, owner, name)
    case None => r == DoesNotExist && t == s
    case Some(x) =>
      var o := s.shares[x];
      && r == Got(o.id)
      && Attached(s.m, t.m, o.frames, dir, page, GetPerm(o.writable), spots,
                  Spared(s.m, s.shares, dir, page, GetPages(o.size)), GetPages(o.size))
      && t.shares == s.shares[x := o.(refs := o.refs + 1)]
      && t.atts == s.atts + [Att(o.id, dir, page, true)]
  }

  // ----- both keep the invariant

  lemma WhereStep(atts: seq<Att>, a: Att, id: int, i: nat)
    ensures Where(atts + [a], id, i) == Where(atts, id, i) + if a.id == id then {Spot(a.dir, a.page, i)} else {}
    ensures Attachments(atts + [a], id) == Attachments(atts, id) + if a.id == id then 1 else 0
  {
    var more := atts + [a];
    assert more[..|more| - 1] == atts;
    forall k | k in Where(atts, id, i) ensures k in Where(more, id, i) {
      var x :| 0 <= x < |atts| && atts[x].id == id && Spot(atts[x].dir, atts[x].page, i) == k;
      assert more[x] == atts[x];
    }
    if a.id == id { assert more[|atts|] == a; }
    forall k | k in Where(more, id, i) ensures k in Where(atts, id, i) || (a.id == id && k == Spot(a.dir, a.page, i)) {
      var x :| 0 <= x < |more| && more[x].id == id && Spot(more[x].dir, more[x].page, i) == k;
      if x < |atts| { assert more[x] == atts[x]; }
    }
  }

  /** An object that the step does not touch. */
  lemma OtherShareOk(m: Mem, t: Mem, o: Share, atts: seq<Att>, a: Att)
    requires ShareOk(m, o, atts) && a.id != o.id && t.pool == m.pool
    requires forall i: nat :: i < |o.frames| ==>
      o.frames[i] !in t.free && Mappers(t, o.frames[i]) == Mappers(m, o.frames[i])
    ensures ShareOk(t, o, atts + [a])
  {
    forall i: nat ensures Where(atts + [a], o.id, i) == Where(atts, o.id, i) && Attachments(atts + [a], o.id) == Attachments(atts, o.id) {
      WhereStep(atts, a, o.id, i);
    }
    WhereStep(atts, a, o.id, 0);
  }

  lemma KeptAttOk(m: Mem, t: Mem, o: Share, a: Att, keep: set<nat>)
    requires AttOk(m, o, a) && Extends(m, t, keep) && Among(o.frames, keep)
    ensures AttOk(t, o, a)
  {
    forall i: nat | i < |o.frames|
      ensures Linked(t, o.frames[i], Spot(a.dir, a.page, i), if a.viaGet then GetPerm(o.writable) else CREATE_PERM)
    {
      assert Linked(m, o.frames[i], Spot(a.dir, a.page, i), if a.viaGet then GetPerm(o.writable) else CREATE_PERM);
      assert Holds(m, Spot(a.dir, a.page, i), keep);
    }
  }

  lemma SharedAmong(q: seq<Share>, x: nat)
    requires x < |q|
    ensures Among(q[x].frames, SharedFrames(q))
  {
  }

  /** `t` has all objects and attachments of `s`, and `shift` more objects in front. */
  ghost predicate Carried(s: Sys, t: Sys, shift: nat) {
    && |s.atts| <= |t.atts| && (forall z :: 0 <= z < |s.atts| ==> t.atts[z] == s.atts[z])
    && |t.shares| == |s.shares| + shift
    && (forall x: nat :: x < |s.shares| ==>
          t.shares[x + shift].id == s.shares[x].id && t.shares[x + shift].frames == s.shares[x].frames)
  }

  /** If a page no longer maps the shared frame it did, some attachment is broken. */
  lemma OverlapBreaks(s: Sys, t: Sys, k: Key, shift: nat)
    requires Inv(s) && Carried(s, t, shift)
    requires Holds(s.m, k, SharedFrames(s.shares)) && EntryAt(t.m, k).frame != EntryAt(s.m, k).frame
    ensures !Inv(t)
  {
    var g := EntryAt(s.m, k).frame;
    var x, i :| 0 <= x < |s.shares| && 0 <= i < |s.shares[x].frames| && s.shares[x].frames[i] == g;
    assert ShareOk(s.m, s.shares[x], s.atts);
    assert k in Mappers(s.m, g);
    var z :| 0 <= z < |s.atts| && s.atts[z].id == s.shares[x].id && Spot(s.atts[z].dir, s.atts[z].page, i) == k;
    var o := t.shares[x + shift];
    var a := t.atts[z];
    assert !Linked(t.m, o.frames[i], Spot(a.dir, a.page, i), if a.viaGet then GetPerm(o.writable) else CREATE_PERM);
    assert !AttOk(t.m, o, a);
  }

  // ----- get

  lemma PlacedOnce(frames: seq<nat>, dir: int, page: nat, i: nat)
    requires NoDup(frames) && i < |frames|
    ensures Placed(frames, dir, page, |frames|, frames[i]) == {Spot(dir, page, i)}
  {
    assert Spot(dir, page, i) in Placed(frames, dir, page, |frames|, frames[i]);
  }

  lemma PlacedNever(frames: seq<nat>, dir: int, page: nat, g: nat)
    requires forall i: nat :: i < |frames| ==> frames[i] != g
    ensures Placed(frames, dir, page, |frames|, g) == {}
  {
  }

  lemma FramesNoDup(q: seq<Share>, x: nat)
    requires FramesApart(q) && x < |q|
    ensures NoDup(q[x].frames)
  {
    var y := x;
    forall i, j | 0 <= i < j < |q[x].frames| ensures q[x].frames[i] != q[x].frames[j] {
      assert q[x].frames[i] == q[y].frames[j] ==> x == y && i == j;
    }
  }

  lemma NewKey(m: Mem, k: Key, f: nat, keep: set<nat>)
    requires !Holds(m, k, keep) && f in keep
    ensures k !in Mappers(m, f)
  {
  }

  /** Page `i` of the object that is attached once more. */
  lemma GotFrame(s: Sys, x: nat, dir: int, page: nat, spots: map<Key, nat>, keep: set<nat>, t: Mem, i: nat)
    requires Inv(s) && x < |s.shares| && i < |s.shares[x].frames|
    requires Clear(s.m, dir, page, |s.shares[x].frames|, keep) && Among(s.shares[x].frames, keep)
    requires var o := s.shares[x]; Attached(s.m, t, o.frames, dir, page, GetPerm(o.writable), spots, keep, |o.frames|)
    ensures var o := s.shares[x]; var a := Att(o.id, dir, page, true);
      && Mappers(t, o.frames[i]) == Where(s.atts + [a], o.id, i)
      && |Mappers(t, o.frames[i])| == o.refs + 1
  {
    var o := s.shares[x];
    var f := o.frames[i];
    assert ShareOk(s.m, o, s.atts);
    FramesNoDup(s.shares, x);
    PlacedOnce(o.frames, dir, page, i);
    var a := Att(o.id, dir, page, true);
    WhereStep(s.atts, a, o.id, i);
    var k := Spot(dir, page, i);
    NewKey(s.m, k, f, keep);
    assert PlacesOn(s.m, t, o.frames, dir, page, keep, |o.frames|, f);
    assert Mappers(t, f) == Mappers(s.m, f) + {k};
  }

  lemma GotShareOk(s: Sys, x: nat, dir: int, page: nat, spots: map<Key, nat>, keep: set<nat>, t: Mem)
    requires Inv(s) && x < |s.shares| 
    requires Clear(s.m, dir, page, |s.shares[x].frames|, keep) && Among(s.shares[x].frames, keep)
    requires var o := s.shares[x]; Attached(s.m, t, o.frames, dir, page, GetPerm(o.writable), spots, keep, |o.frames|)
    ensures var o := s.shares[x]; ShareOk(t, o.(refs := o.refs + 1), s.atts + [Att(o.id, dir, page, true)])
  {
    var o := s.shares[x];
    var a := Att(o.id, dir, page, true);
    assert ShareOk(s.m, o, s.atts);
    WhereStep(s.atts, a, o.id, 0);
    forall i: nat | i < |o.frames|
      ensures Mappers(t, o.frames[i]) == Where(s.atts + [a], o.id, i) && |Mappers(t, o.frames[i])| == o.refs + 1
    {
      GotFrame(s, x, dir, page, spots, keep, t, i);
    }
  }

  /** The other objects keep their mappings. */
  lemma OthersKept(s: Sys, x: nat, y: nat, dir: int, page: nat, spots: map<Key, nat>, keep: set<nat>, t: Mem)
    requires Inv(s) && x < |s.shares| && y < |s.shares| && x != y && Among(s.shares[y].frames, keep)
    requires var o := s.shares[x]; Attached(s.m, t, o.frames, dir, page, GetPerm(o.writable), spots, keep, |o.frames|)
    ensures ShareOk(t, s.shares[y], s.atts + [Att(s.shares[x].id, dir, page, true)])
  {
    var o, p := s.shares[x], s.shares[y];
    assert ShareOk(s.m, p, s.atts);
    assert p.id != o.id;
    forall i: nat | i < |p.frames| ensures p.frames[i] !in t.free && Mappers(t, p.frames[i]) == Mappers(s.m, p.frames[i]) {
      forall j: nat | j < |o.frames| ensures o.frames[j] != p.frames[i] {
        assert s.shares[x].frames[j] == s.shares[y].frames[i] ==> x == y;
      }
      PlacedNever(o.frames, dir, page, p.frames[i]);
      assert PlacesOn(s.m, t, o.frames, dir, page, keep, |o.frames|, p.frames[i]);
    }
    OtherShareOk(s.m, t, p, s.atts, Att(o.id, dir, page, true));
  }

  lemma GotAtts(s: Sys, x: nat, dir: int, page: nat, spots: map<Key, nat>, keep: set<nat>, t: Sys)
    requires Inv(s) && x < |s.shares| && forall y: nat :: y < |s.shares| ==> Among(s.shares[y].frames, keep)
    requires var o := s.shares[x];
      && Attached(s.m, t.m, o.frames, dir, page, GetPerm(o.writable), spots, keep, |o.frames|)
      && t.shares == s.shares[x := o.(refs := o.refs + 1)] && t.atts == s.atts + [Att(o.id, dir, page, true)]
    ensures forall y, z :: 0 <= y < |t.shares| && 0 <= z < |t.atts| && t.atts[z].id == t.shares[y].id ==>
      AttOk(t.m, t.shares[y], t.atts[z])
    ensures forall z :: 0 <= z < |t.atts| ==> Known(t.shares, t.atts[z].id)
  {
    var o := s.shares[x];
    forall y | 0 <= y < |t.shares| ensures t.shares[y].id == s.shares[y].id && t.shares[y].frames == s.shares[y].frames
      && t.shares[y].writable == s.shares[y].writable { }
    forall y, z | 0 <= y < |t.shares| && 0 <= z < |t.atts| && t.atts[z].id == t.shares[y].id
      ensures AttOk(t.m, t.shares[y], t.atts[z])
    {
      if z < |s.atts| {
        assert AttOk(s.m, s.shares[y], s.atts[z]);
        KeptAttOk(s.m, t.m, s.shares[y], s.atts[z], keep);
      } else {
        SameId(s.shares, x, y);
      }
    }
    forall z | 0 <= z < |t.atts| ensures Known(t.shares, t.atts[z].id) {
      if z < |s.atts| {
        assert Known(s.shares, s.atts[z].id);
        var y :| 0 <= y < |s.shares| && s.shares[y].id == s.atts[z].id;
        assert t.shares[y].id == t.atts[z].id;
      } else {
        assert t.shares[x].id == t.atts[z].id;
      }
    }
  }

  lemma SameId(q: seq<Share>, x: nat, y: nat)
    requires IdsDistinct(q) && x < |q| && y < |q| && q[x].id == q[y].id
    ensures x == y
  {
  }

  /** Room for the pages of the object that a call asks for, over which the object itself is
      not attached yet. */
  ghost predicate GetRoom(s: Sys, owner: int, name: string, dir: int, page: nat, spots: map<Key, nat>) {
    match Find(s.shares, owner, name)
    case None => true
    case Some(x) =>
      var n := GetPages(s.shares[x].size);
      Room(s.m, dir, page, n, spots) && Clear(s.m, dir, page, n, Own(s.shares[x]))
  }

  ghost function Own(o: Share): (r: set<nat>) { set f | f in o.frames }

  ghost predicate FindsLarge(s: Sys, owner: int, name: string) {
    match Find(s.shares, owner, name)
    case None => false
    case Some(x) => !IsSmall(s.shares[x].size)
  }

  /** The object found would be attached over pages of an attachment. */
  ghost predicate FindsOverlap(s: Sys, owner: int, name: string, dir: int, page: nat) {
    match Find(s.shares, owner, name)
    case None => false
    case Some(x) => Overlaps(s.m, s.shares, dir, page, GetPages(s.shares[x].size))
  }

  lemma OwnSpared(m: Mem, q: seq<Share>, x: nat, dir: int, page: nat, n: nat)
    requires x < |q| && Clear(m, dir, page, n, Own(q[x]))
    ensures Among(q[x].frames, Spared(m, q, dir, page, n))
  {
    SharedAmong(q, x);
    forall i: nat | i < |q[x].frames| ensures q[x].frames[i] in Spared(m, q, dir, page, n) {
      var g := q[x].frames[i];
      assert g in Own(q[x]);
      forall y: nat | y < n ensures !Holds(m, Spot(dir, page, y), {g}) { assert !Holds(m, Spot(dir, page, y), Own(q[x])); }
    }
  }

  lemma GotInv(s: Sys, x: nat, dir: int, page: nat, spots: map<Key, nat>, t: Sys)
    requires Inv(s) && x < |s.shares| && !Overlaps(s.m, s.shares, dir, page, |s.shares[x].frames|)
    requires var o := s.shares[x];
      && Attached(s.m, t.m, o.frames, dir, page, GetPerm(o.writable), spots, SharedFrames(s.shares), |o.frames|)
      && t.shares == s.shares[x := o.(refs := o.refs + 1)] && t.atts == s.atts + [Att(o.id, dir, page, true)]
    ensures Inv(t)
  {
    var keep := SharedFrames(s.shares);
    forall y: nat | y < |s.shares| ensures Among(s.shares[y].frames, keep) { SharedAmong(s.shares, y); }
    forall y | 0 <= y < |t.shares| ensures ShareOk(t.m, t.shares[y], t.atts) {
      if y == x {
        GotShareOk(s, x, dir, page, spots, keep, t.m);
      } else {
        OthersKept(s, x, y, dir, page, spots, keep, t.m);
      }
    }
    GotAtts(s, x, dir, page, spots, keep, t);
    GotLists(s.shares, x, s.shares[x].refs + 1);
  }

  /** Attaching nothing of an object counts a reference that no page has. */
  lemma GotNothing(s: Sys, x: nat, dir: int, page: nat, spots: map<Key, nat>, t: Sys)
    requires Inv(s) && x < |s.shares| && !IsSmall(s.shares[x].size)
    requires var o := s.shares[x];
      && Attached(s.m, t.m, o.frames, dir, page, GetPerm(o.writable), spots, SharedFrames(s.shares), 0)
      && t.shares == s.shares[x := o.(refs := o.refs + 1)]
    ensures !Inv(t)
  {
    var o := s.shares[x];
    var keep := SharedFrames(s.shares);
    assert ShareOk(s.m, o, s.atts) && |o.frames| > 0;
    SharedAmong(s.shares, x);
    assert PlacesOn(s.m, t.m, o.frames, dir, page, keep, 0, o.frames[0]);
    assert Placed(o.frames, dir, page, 0, o.frames[0]) == {};
    assert Mappers(t.m, o.frames[0]) == Mappers(s.m, o.frames[0]);
    assert t.shares[x] == o.(refs := o.refs + 1);
    assert !ShareOk(t.m, t.shares[x], t.atts);
  }

  lemma TakenOver(m: Mem, t: Mem, o: Share, q: seq<Share>, dir: int, page: nat, perm: Bits, n: nat) returns (k: Key)
    requires n <= |o.frames| && LinkedAll(t, o.frames, dir, page, perm, n)
    requires Overlaps(m, q, dir, page, n) && Clear(m, dir, page, n, Own(o))
    ensures Holds(m, k, SharedFrames(q)) && EntryAt(t, k).frame != EntryAt(m, k).frame
  {
    var i: nat :| i < n && Holds(m, Spot(dir, page, i), SharedFrames(q));
    k := Spot(dir, page, i);
    assert Linked(t, o.frames[i], k, perm);
    assert o.frames[i] in Own(o) && !Holds(m, k, Own(o));
  }

  /** Attaching one object over pages of another takes them out of its attachment. */
  lemma GotOverlap(s: Sys, x: nat, dir: int, page: nat, n: nat, t: Sys)
    requires Inv(s) && x < |s.shares| && n <= |s.shares[x].frames|
    requires Overlaps(s.m, s.shares, dir, page, n) && Clear(s.m, dir, page, n, Own(s.shares[x]))
    requires var o := s.shares[x];
      && LinkedAll(t.m, o.frames, dir, page, GetPerm(o.writable), n)
      && t.shares == s.shares[x := o.(refs := o.refs + 1)] && t.atts == s.atts + [Att(o.id, dir, page, true)]
    ensures !Inv(t)
  {
    var k := TakenOver(s.m, t.m, s.shares[x], s.shares, dir, page, GetPerm(s.shares[x].writable), n);
    assert Carried(s, t, 0);
    OverlapBreaks(s, t, k, 0);
  }

  /** Attaching an object keeps the invariant exactly if there is none of that name, or its
      size, rounded up in 32 bits, is below 2^31 and the range maps nothing shared; only the
      missing name is reported. */
  lemma GetTheorem(s: Sys, owner: int, name: string, dir: int, page: nat, spots: map<Key, nat>, r: GetResult, t: Sys)
    requires Inv(s) && Get(s, owner, name, dir, page, spots, r, t) && GetRoom(s, owner, name, dir, page, spots)
    ensures Inv(t) <==> !FindsLarge(s, owner, name) && !FindsOverlap(s, owner, name, dir, page)
    ensures r == DoesNotExist <==> Find(s.shares, owner, name).None?
  {
    match Find(s.shares, owner, name)
    case None =>
    case Some(x) =>
      assert ShareOk(s.m, s.shares[x], s.atts);
      SparedClear(s.m, s.shares, dir, page, GetPages(s.shares[x].size));
      if !IsSmall(s.shares[x].size) {
        GotNothing(s, x, dir, page, spots, t);
      } else if Overlaps(s.m, s.shares, dir, page, |s.shares[x].frames|) {
        GotOverlap(s, x, dir, page, |s.shares[x].frames|, t);
      } else {
        GotInv(s, x, dir, page, spots, t);
      }
  }

  lemma GetKeepsNames(s: Sys, owner: int, name: string, dir: int, page: nat, spots: map<Key, nat>, r: GetResult, t: Sys)
    requires Unique(s.shares) && Get(s, owner, name, dir, page, spots, r, t)
    ensures Unique(t.shares)
  {
    match Find(s.shares, owner, name)
    case None =>
    case Some(x) => UniqueKept(s.shares, x, s.shares[x].refs + 1);
  }

  lemma UniqueKept(q: seq<Share>, x: nat, refs: nat)
    requires x < |q| && Unique(q)
    ensures Unique(q[x := q[x].(refs := refs)])
  {
  }

  lemma GotLists(q: seq<Share>, x: nat, refs: nat)
    requires x < |q| && IdsDistinct(q) && FramesApart(q)
    ensures IdsDistinct(q[x := q[x].(refs := refs)]) && FramesApart(q[x := q[x].(refs := refs)])
  {
    var p := q[x := q[x].(refs := refs)];
    forall y | 0 <= y < |q| ensures p[y].id == q[y].id && p[y].frames == q[y].frames { }
    forall a, b, i, j | 0 <= a < |p| && 0 <= b < |p| && 0 <= i < |p[a].frames| && 0 <= j < |p[b].frames| &&
      p[a].frames[i] == p[b].frames[j] ensures a == b && i == j
    {
      assert q[a].frames[i] == q[b].frames[j];
    }
  }

  // ----- create

  ghost predicate FreshId(q: seq<Share>, id: int) { forall x :: 0 <= x < |q| ==> q[x].id != id }

  lemma {:induction false} NoAttachments(atts: seq<Att>, id: int)
    requires forall x :: 0 <= x < |atts| ==> atts[x].id != id
    ensures Attachments(atts, id) == 0 && forall i: nat :: Where(atts, id, i) == {}
    decreases |atts|
  {
    if atts != [] { NoAttachments(atts[..|atts| - 1], id); }
  }

  lemma FreshIdUnattached(s: Sys, id: int)
    requires Inv(s) && FreshId(s.shares, id)
    ensures forall x :: 0 <= x < |s.atts| ==> s.atts[x].id != id
  {
    forall z | 0 <= z < |s.atts| ensures s.atts[z].id != id {
      assert Known(s.shares, s.atts[z].id);
    }
  }

  lemma BuiltShareOk(s: Sys, o: Share, dir: int, page: nat, spots: map<Key, nat>, t: Mem)
    requires Inv(s) && FreshId(s.shares, o.id) && o.refs == 1 && |o.frames| == FramesFor(o.size)
    requires Built(s.m, t, o.frames, dir, page, CREATE_PERM, spots, SharedFrames(s.shares))
    ensures ShareOk(t, o, s.atts + [Att(o.id, dir, page, false)])
  {
    var a := Att(o.id, dir, page, false);
    FreshIdUnattached(s, o.id);
    NoAttachments(s.atts, o.id);
    WhereStep(s.atts, a, o.id, 0);
    forall i: nat | i < |o.frames|
      ensures o.frames[i] in t.pool && Mappers(t, o.frames[i]) == Where(s.atts + [a], o.id, i)
    {
      WhereStep(s.atts, a, o.id, i);
      assert NewFrame(s.m, t, o.frames[i], Spot(dir, page, i), SharedFrames(s.shares));
      assert Spot(dir, page, i) in Mappers(t, o.frames[i]);
      PresentFrame(t, Spot(dir, page, i));
    }
  }

  lemma BuiltOthers(s: Sys, y: nat, o: Share, dir: int, page: nat, spots: map<Key, nat>, t: Mem)
    requires Inv(s) && y < |s.shares| && FreshId(s.shares, o.id)
    requires Built(s.m, t, o.frames, dir, page, CREATE_PERM, spots, SharedFrames(s.shares))
    ensures ShareOk(t, s.shares[y], s.atts + [Att(o.id, dir, page, false)])
    ensures forall i, j :: 0 <= i < |s.shares[y].frames| && 0 <= j < |o.frames| ==> s.shares[y].frames[i] != o.frames[j]
  {
    var p := s.shares[y];
    assert ShareOk(s.m, p, s.atts) && p.id != o.id;
    SharedAmong(s.shares, y);
    OtherShareOk(s.m, t, p, s.atts, Att(o.id, dir, page, false));
    forall i, j | 0 <= i < |p.frames| && 0 <= j < |o.frames| ensures p.frames[i] != o.frames[j] {
      assert NewFrame(s.m, t, o.frames[j], Spot(dir, page, j), SharedFrames(s.shares));
      assert p.frames[i] !in s.m.free;
    }
  }

  lemma BuiltLists(q: seq<Share>, o: Share)
    requires IdsDistinct(q) && FramesApart(q) && FreshId(q, o.id) && NoDup(o.frames)
    requires forall y, i, j :: 0 <= y < |q| && 0 <= i < |q[y].frames| && 0 <= j < |o.frames| ==>
      q[y].frames[i] != o.frames[j]
    ensures IdsDistinct([o] + q) && FramesApart([o] + q)
  {
    var p := [o] + q;
    forall a | 0 < a < |p| ensures p[a] == q[a - 1] { }
    forall a, b, i, j | 0 <= a < |p| && 0 <= b < |p| && 0 <= i < |p[a].frames| && 0 <= j < |p[b].frames|
      ensures p[a].frames[i] == p[b].frames[j] ==> a == b && i == j
    {
      if a > 0 && b > 0 {
        var a', b' := a - 1, b - 1;
        assert q[a'].frames[i] == q[b'].frames[j] ==> a' == b' && i == j;
      } else if a > 0 {
        var a' := a - 1;
        assert q[a'].frames[i] != o.frames[j];
      } else if b > 0 {
        var b' := b - 1;
        assert q[b'].frames[j] != o.frames[i];
      }
    }
  }

  lemma BuiltAttOk(s: Sys, o: Share, dir: int, page: nat, spots: map<Key, nat>, t: Sys, y: nat, z: nat)
    requires Inv(s) && FreshId(s.shares, o.id) && Built(s.m, t.m, o.frames, dir, page, CREATE_PERM, spots, SharedFrames(s.shares))
    requires t.shares == [o] + s.shares && t.atts == s.atts + [Att(o.id, dir, page, false)]
    requires y < |t.shares| && z < |t.atts| && t.atts[z].id == t.shares[y].id
    ensures AttOk(t.m, t.shares[y], t.atts[z])
  {
    FreshIdUnattached(s, o.id);
    if z < |s.atts| {
      assert t.atts[z] == s.atts[z] && y > 0;
      var y' := y - 1;
      assert t.shares[y] == s.shares[y'];
      assert AttOk(s.m, s.shares[y'], s.atts[z]);
      SharedAmong(s.shares, y');
      KeptAttOk(s.m, t.m, s.shares[y'], s.atts[z], SharedFrames(s.shares));
    } else {
      assert t.atts[z] == Att(o.id, dir, page, false);
      OwnId(s.shares, o, t.shares, y);
    }
  }

  lemma OwnId(q: seq<Share>, o: Share, p: seq<Share>, y: nat)
    requires FreshId(q, o.id) && p == [o] + q && y < |p| && p[y].id == o.id
    ensures y == 0
  {
    forall x | 0 < x < |p| ensures p[x].id != o.id { assert p[x] == q[x - 1]; }
  }

  lemma BuiltAttKnown(s: Sys, o: Share, t: Sys, a: Att, z: nat)
    requires Inv(s) && t.shares == [o] + s.shares && t.atts == s.atts + [a] && a.id == o.id && z < |t.atts|
    ensures Known(t.shares, t.atts[z].id)
  {
    if z < |s.atts| {
      assert t.atts[z] == s.atts[z] && Known(s.shares, s.atts[z].id);
      var y :| 0 <= y < |s.shares| && s.shares[y].id == s.atts[z].id;
      var y' := y + 1;
      assert t.shares[y'] == s.shares[y];
    } else {
      assert t.atts[z] == a;
      var y' := 0;
      assert t.shares[y'] == o;
    }
  }

  lemma BuiltInv(s: Sys, o: Share, dir: int, page: nat, spots: map<Key, nat>, t: Sys)
    requires Inv(s) && FreshId(s.shares, o.id) && Built(s.m, t.m, o.frames, dir, page, CREATE_PERM, spots, SharedFrames(s.shares))
    requires o.refs == 1 && |o.frames| == FramesFor(o.size)
    requires t.shares == [o] + s.shares && t.atts == s.atts + [Att(o.id, dir, page, false)]
    ensures Inv(t)
  {
    BuiltShareOk(s, o, dir, page, spots, t.m);
    forall y | 0 <= y < |s.shares|
      ensures ShareOk(t.m, s.shares[y], t.atts)
      ensures forall i, j :: 0 <= i < |s.shares[y].frames| && 0 <= j < |o.frames| ==> s.shares[y].frames[i] != o.frames[j]
    {
      BuiltOthers(s, y, o, dir, page, spots, t.m);
    }
    BuiltLists(s.shares, o);
    forall y, z | 0 <= y < |t.shares| && 0 <= z < |t.atts| && t.atts[z].id == t.shares[y].id
      ensures AttOk(t.m, t.shares[y], t.atts[z])
    {
      BuiltAttOk(s, o, dir, page, spots, t, y, z);
    }
    forall z | 0 <= z < |t.atts| ensures Known(t.shares, t.atts[z].id) {
      BuiltAttKnown(s, o, t, Att(o.id, dir, page, false), z);
    }
    forall y | 0 <= y < |t.shares| ensures ShareOk(t.m, t.shares[y], t.atts) {
      if y > 0 { assert t.shares[y] == s.shares[y - 1]; }
    }
  }

  lemma MovedAway(m: Mem, t: Mem, f: nat, k: Key, keep: set<nat>)
    requires IsPresent(m, k) && NewFrame(m, t, f, k, keep)
    ensures EntryAt(t, k).frame != EntryAt(m, k).frame
  {
    assert k in Mappers(t, f) && k in Mappers(m, EntryAt(m, k).frame);
  }

  /** An object created over pages of an attachment takes them out of it. */
  lemma BuiltOverlap(s: Sys, o: Share, dir: int, page: nat, keep: set<nat>, t: Sys)
    requires Inv(s) && AllNew(s.m, t.m, o.frames, dir, page, keep)
    requires Overlaps(s.m, s.shares, dir, page, |o.frames|)
    requires t.shares == [o] + s.shares && t.atts == s.atts + [Att(o.id, dir, page, false)]
    ensures !Inv(t)
  {
    var i: nat :| i < |o.frames| && Holds(s.m, Spot(dir, page, i), SharedFrames(s.shares));
    MovedAway(s.m, t.m, o.frames[i], Spot(dir, page, i), keep);
    assert Carried(s, t, 1);
    OverlapBreaks(s, t, Spot(dir, page, i), 1);
  }

  /** What a create returns, and that it lists an object even when it refuses the address. */
  lemma CreateResults(s: Sys, owner: int, name: string, size: nat, writable: bool, dir: int, va: nat,
                      id: Option<int>, spots: map<Key, nat>, r: CreateResult, t: Sys)
    requires Create(s, owner, name, size, writable, dir, va, id, spots, r, t) && size < 0x1_0000_0000
    ensures var taken := exists x :: 0 <= x < |s.shares| && s.shares[x].owner == owner && s.shares[x].name == name;
      var made := id.Some? && 0 < size <= 0xFFFFF000;
      && (r == AlreadyExists <==> taken) && (r.Created? <==> !taken && made && va % PAGE == 0)
      && |t.shares| == |s.shares| + (if !taken && made then 1 else 0)
      && |t.atts| == |s.atts| + (if r.Created? then 1 else 0)
  {
    FramesForIs(size);
  }

  /** Creating an object keeps the invariant exactly when the name is taken, there is no
      memory for the object, or the address is page-aligned and its range maps nothing
      shared: an unaligned call leaves an object behind that counts a reference nobody
      holds. */
  lemma CreateInvIff(s: Sys, owner: int, name: string, size: nat, writable: bool, dir: int, va: nat,
                     id: Option<int>, spots: map<Key, nat>, r: CreateResult, t: Sys)
    requires Inv(s) && Create(s, owner, name, size, writable, dir, va, id, spots, r, t)
    requires id.Some? ==> FreshId(s.shares, id.value)
    ensures Inv(t) <==>
      || Find(s.shares, owner, name).Some? || Made(size, id).None?
      || (va % PAGE == 0 && !Overlaps(s.m, s.shares, dir, va / PAGE, FramesFor(size)))
  {
    if Find(s.shares, owner, name).None? && Made(size, id).Some? {
      if va % PAGE != 0 {
        FreshIdUnattached(s, id.value);
        NoAttachments(s.atts, id.value);
        assert !ShareOk(t.m, t.shares[0], t.atts);
      } else {
        var keep := Spared(s.m, s.shares, dir, va / PAGE, FramesFor(size));
        SparedClear(s.m, s.shares, dir, va / PAGE, FramesFor(size));
        if Overlaps(s.m, s.shares, dir, va / PAGE, FramesFor(size)) {
          BuiltOverlap(s, t.shares[0], dir, va / PAGE, keep, t);
        } else {
          BuiltInv(s, t.shares[0], dir, va / PAGE, spots, t);
        }
      }
    }
  }

  /** Names stay unique per owner exactly when the new name is found taken, fits in 63
      characters, or its first 63 are not taken, or there is no memory for the object: longer names are compared in full but
      stored cut off. */
  lemma CreateUniqueIff(s: Sys, owner: int, name: string, size: nat, writable: bool, dir: int, va: nat,
                        id: Option<int>, spots: map<Key, nat>, r: CreateResult, t: Sys)
    requires Unique(s.shares) && Create(s, owner, name, size, writable, dir, va, id, spots, r, t)
    ensures Unique(t.shares) <==>
      || Find(s.shares, owner, name).Some? || Made(size, id).None?
      || |name| <= 63 || Find(s.shares, owner, name[..63]).None?
  {
    if t.shares != s.shares {
      var o := t.shares[0];
      assert t.shares == [o] + s.shares && o.owner == owner && o.name == Stored(name);
      UniquePrepend(s.shares, o);
    }
  }

  lemma UniquePrepend(q: seq<Share>, o: Share)
    requires Unique(q)
    ensures Unique([o] + q) <==> Find(q, o.owner, o.name).None?
  {
    var p := [o] + q;
    forall x | 0 < x < |p| ensures p[x] == q[x - 1] { }
    if Find(q, o.owner, o.name).Some? {
      var x := Find(q, o.owner, o.name).value;
      assert p[0].owner == p[x + 1].owner && p[0].name == p[x + 1].name;
    } else {
      forall x, y | 0 <= x < y < |p| ensures !(p[x].owner == p[y].owner && p[x].name == p[y].name) {
        var y' := y - 1;
        assert p[y] == q[y'];
        if x > 0 {
          var x' := x - 1;
          assert p[x] == q[x'];
        }
      }
    }
  }

  // ----- the rest of the memory manager

  /** The operation takes no frame of an object and no page that maps one: mapping a frame
      where it is mapped already is harmless. */
  ghost predicate Foreign(m: Mem, keep: set<nat>, op: Memory.Op) {
    match op
    case Allocate => true
    case Release(f) => f !in keep
    case Map(f, k, perm, spot) => (IsPresent(m, k) && EntryAt(m, k).frame == f) || (f !in keep && !Holds(m, k, keep))
    case Unmap(k) => !Holds(m, k, keep)
    case NewPage(k, perm, spot) => true
  }

  /** The frames `keep` are in use, and mapped where they were. */
  ghost predicate SamePlaces(m: Mem, t: Mem, keep: set<nat>) {
    forall g: nat :: g in keep ==> g !in t.free && Mappers(t, g) == Mappers(m, g)
  }

  ghost predicate Undisturbed(m: Mem, t: Mem, keep: set<nat>) { Extends(m, t, keep) && SamePlaces(m, t, keep) }

  lemma MapForeign(m: Mem, f: nat, k: Key, perm: Bits, spot: nat, keep: set<nat>)
    requires RefInv(m) && Memory.Enabled(m, Memory.Map(f, k, perm, spot))
    requires Foreign(m, keep, Memory.Map(f, k, perm, spot)) && forall g :: g in keep ==> g !in m.free
    ensures Undisturbed(m, Memory.Next(m, Memory.Map(f, k, perm, spot)), keep)
  {
    TableForeign(m, k, spot, f, keep);
    var e := EnsureTable(m, k, spot);
    MapAtForeign(e, f, k, perm, keep);
    ExtendsTwice(m, e, MapFrame(e, f, k, perm), keep);
  }

  lemma TableForeign(m: Mem, k: Key, spot: nat, f: nat, keep: set<nat>)
    requires RefInv(m) && TableReady(m, k, spot) && f in m.pool && f !in m.free
    requires TableOf(k) !in m.tables ==> m.free != [] && k != Key(KERNEL, spot)
    requires forall g :: g in keep ==> g !in m.free
    ensures var e := EnsureTable(m, k, spot);
      && Undisturbed(m, e, keep) && EntryAt(e, k) == EntryAt(m, k) && e.pool == m.pool && f !in e.free
  {
    TableEntries(m, k, spot, f);
  }

  lemma MapAtForeign(m: Mem, f: nat, k: Key, perm: Bits, keep: set<nat>)
    requires RefInv(m) && f in m.pool && f !in m.free && BUFFERED !in perm
    requires (IsPresent(m, k) && EntryAt(m, k).frame == f) || (f !in keep && !Holds(m, k, keep))
    requires forall g :: g in keep ==> g !in m.free
    ensures MapFrame.requires(m, f, k, perm) && Undisturbed(m, MapFrame(m, f, k, perm), keep)
  {
    MapKeeps(m, f, k, perm, keep);
    var t := MapFrame(m, f, k, perm);
    forall g: nat | g in keep ensures Mappers(t, g) == Mappers(m, g) {
      assert k in Mappers(m, f) <==> IsPresent(m, k) && EntryAt(m, k).frame == f;
    }
  }

  lemma ReleaseForeign(m: Mem, f: nat, keep: set<nat>)
    requires RefInv(m) && f in m.hand && f !in keep && forall g :: g in keep ==> g !in m.free
    ensures f < |m.refs| == |m.va| && Undisturbed(m, FreeFrame(m, f), keep)
  {
    FreeInv(m, f);
    var t := FreeFrame(m, f);
    forall g: nat ensures Mappers(t, g) == Mappers(m, g) { }
    forall j ensures EntryAt(t, j) == EntryAt(m, j) { }
  }

  lemma UnmapForeign(m: Mem, k: Key, keep: set<nat>)
    requires RefInv(m) && !Holds(m, k, keep) && forall g :: g in keep ==> g !in m.free
    ensures UnmapFrame.requires(m, k) && Undisturbed(m, UnmapFrame(m, k), keep)
  {
    UnmapInv(m, k);
    HasFrameIsPresent(m, k);
    if IsPresent(m, k) {
      UnmapEffect(m, k);
      forall g: nat | g in keep ensures Mappers(UnmapFrame(m, k), g) == Mappers(m, g) { assert k !in Mappers(m, g); }
    }
  }

  /** `alloc_page` takes a free frame and an unmapped page. */
  lemma NewPageForeign(m: Mem, k: Key, perm: Bits, spot: nat, keep: set<nat>)
    requires RefInv(m) && Memory.Enabled(m, Memory.NewPage(k, perm, spot)) && forall g :: g in keep ==> g !in m.free
    ensures Undisturbed(m, Memory.Next(m, Memory.NewPage(k, perm, spot)), keep)
  {
    if !IsPresent(m, k) {
      AllocateExtends(m, keep);
      var f := m.free[0];
      var a := AllocateFrame(m);
      assert EntryAt(a, k) == EntryAt(m, k) && EntryAt(a, Key(KERNEL, spot)) == EntryAt(m, Key(KERNEL, spot));
      assert m.free == [f] + a.free;
      MapForeign(a, f, k, perm, spot, keep);
      ExtendsTwice(m, a, Memory.Next(a, Memory.Map(f, k, perm, spot)), keep);
    }
  }

  lemma ForeignKeeps(m: Mem, keep: set<nat>, op: Memory.Op)
    requires RefInv(m) && Memory.Enabled(m, op) && Foreign(m, keep, op) && forall g :: g in keep ==> g !in m.free
    ensures Undisturbed(m, Memory.Next(m, op), keep)
  {
    match op
    case Allocate => AllocateExtends(m, keep);
    case Release(f) => ReleaseForeign(m, f, keep);
    case Map(f, k, perm, spot) => MapForeign(m, f, k, perm, spot, keep);
    case Unmap(k) => UnmapForeign(m, k, keep);
    case NewPage(k, perm, spot) => NewPageForeign(m, k, perm, spot, keep);
  }

  lemma MapDisturbs(m: Mem, f: nat, k: Key, perm: Bits, spot: nat, keep: set<nat>)
    requires RefInv(m) && Memory.Enabled(m, Memory.Map(f, k, perm, spot))
    requires !Foreign(m, keep, Memory.Map(f, k, perm, spot)) && forall g :: g in keep ==> g !in m.free
    ensures !SamePlaces(m, Memory.Next(m, Memory.Map(f, k, perm, spot)), keep)
  {
    TableEntries(m, k, spot, f);
    var e := EnsureTable(m, k, spot);
    assert EntryAt(e, k) == EntryAt(m, k);
    MapEffect(e, f, k, perm);
    var t := MapFrame(e, f, k, perm);
    assert k in Mappers(t, f) && k !in Mappers(m, f);
    if f !in keep {
      var g := EntryAt(m, k).frame;
      assert k in Mappers(m, g) && k !in Mappers(t, g);
    }
  }

  lemma UnmapDisturbs(m: Mem, k: Key, keep: set<nat>)
    requires RefInv(m) && Holds(m, k, keep)
    ensures UnmapFrame.requires(m, k) && !SamePlaces(m, UnmapFrame(m, k), keep)
  {
    UnmapEffect(m, k);
    assert k in Mappers(m, EntryAt(m, k).frame);
  }

  lemma OthersDisturb(m: Mem, keep: set<nat>, op: Memory.Op)
    requires RefInv(m) && Memory.Enabled(m, op) && !Foreign(m, keep, op) && forall g :: g in keep ==> g !in m.free
    ensures !SamePlaces(m, Memory.Next(m, op), keep)
  {
    match op
    case Release(f) => assert f in FreeFrame(m, f).free;
    case Map(f, k, perm, spot) => MapDisturbs(m, f, k, perm, spot, keep);
    case Unmap(k) => UnmapDisturbs(m, k, keep);
    case _ =>
  }

  lemma SharedInUse(s: Sys)
    requires Inv(s)
    ensures forall g :: g in SharedFrames(s.shares) ==> g !in s.m.free
  {
    forall g | g in SharedFrames(s.shares) ensures g !in s.m.free {
      var x, i :| 0 <= x < |s.shares| && 0 <= i < |s.shares[x].frames| && s.shares[x].frames[i] == g;
      assert ShareOk(s.m, s.shares[x], s.atts);
    }
  }

  /** The invariant speaks of memory only through the frames of objects. */
  lemma UndisturbedInv(s: Sys, t: Mem)
    requires Inv(s) && Undisturbed(s.m, t, SharedFrames(s.shares))
    ensures Inv(s.(m := t))
  {
    var keep := SharedFrames(s.shares);
    forall x | 0 <= x < |s.shares| ensures ShareOk(t, s.shares[x], s.atts) {
      SharedAmong(s.shares, x);
      assert ShareOk(s.m, s.shares[x], s.atts);
    }
    forall x, y | 0 <= x < |s.shares| && 0 <= y < |s.atts| && s.atts[y].id == s.shares[x].id
      ensures AttOk(t, s.shares[x], s.atts[y])
    {
      SharedAmong(s.shares, x);
      assert AttOk(s.m, s.shares[x], s.atts[y]);
      KeptAttOk(s.m, t, s.shares[x], s.atts[y], keep);
    }
  }

  lemma InvSamePlaces(s: Sys, t: Mem)
    requires Inv(s) && Inv(s.(m := t))
    ensures SamePlaces(s.m, t, SharedFrames(s.shares))
  {
    forall g: nat | g in SharedFrames(s.shares) ensures g !in t.free && Mappers(t, g) == Mappers(s.m, g) {
      var x, i :| 0 <= x < |s.shares| && 0 <= i < |s.shares[x].frames| && s.shares[x].frames[i] == g;
      assert ShareOk(s.m, s.shares[x], s.atts) && ShareOk(t, s.shares[x], s.atts);
    }
  }

  /** Any other operation of the memory manager keeps the invariant exactly if it touches
      no frame and no page of an object. */
  lemma MemoryIff(s: Sys, op: Memory.Op)
    requires Inv(s) && Memory.Enabled(s.m, op)
    ensures Inv(s.(m := Memory.Next(s.m, op))) <==> Foreign(s.m, SharedFrames(s.shares), op)
  {
    var keep := SharedFrames(s.shares);
    var t := Memory.Next(s.m, op);
    SharedInUse(s);
    if Foreign(s.m, keep, op) {
      ForeignKeeps(s.m, keep, op);
      UndisturbedInv(s, t);
    } else {
      OthersDisturb(s.m, keep, op);
      if Inv(s.(m := t)) { InvSamePlaces(s, t); }
    }
  }

  // ----- whole runs

  datatype Op =
    | DoCreate(owner: int, name: string, size: nat, writable: bool, dir: int, va: nat, id: Option<int>, cr: CreateResult)
    | DoGet(owner: int, name: string, dir: int, page: nat, gr: GetResult)
    | DoMemory(op: Memory.Op)

  /** One call, or any operation of the memory manager that leaves objects alone. Names are
      short, addresses page-aligned, no target maps a shared frame, and no get finds an
      object too large for it. */
  ghost predicate Step(s: Sys, op: Op, spots: map<Key, nat>, t: Sys) {
    match op
    case DoCreate(owner, name, size, writable, dir, va, id, r) =>
      && |name| <= 63 && va % PAGE == 0 && !Overlaps(s.m, s.shares, dir, va / PAGE, FramesFor(size))
      && (id.Some? ==> FreshId(s.shares, id.value))
      && Create(s, owner, name, size, writable, dir, va, id, spots, r, t)
    case DoGet(owner, name, dir, page, r) =>
      && Get(s, owner, name, dir, page, spots, r, t) && GetRoom(s, owner, name, dir, page, spots)
      && !FindsLarge(s, owner, name) && !FindsOverlap(s, owner, name, dir, page)
    case DoMemory(mop) =>
      && RefInv(s.m) && Memory.Enabled(s.m, mop) && Foreign(s.m, SharedFrames(s.shares), mop)
      && t == s.(m := Memory.Next(s.m, mop))
  }

  lemma StepInv(s: Sys, op: Op, spots: map<Key, nat>, t: Sys)
    requires Inv(s) && Step(s, op, spots, t)
    ensures Inv(t)
  {
    match op
    case DoCreate(owner, name, size, writable, dir, va, id, r) =>
      CreateInvIff(s, owner, name, size, writable, dir, va, id, spots, r, t);
    case DoGet(owner, name, dir, page, r) =>
      GetTheorem(s, owner, name, dir, page, spots, r, t);
    case DoMemory(mop) =>
      MemoryIff(s, mop);
  }

  lemma StepUnique(s: Sys, op: Op, spots: map<Key, nat>, t: Sys)
    requires Unique(s.shares) && Step(s, op, spots, t)
    ensures Unique(t.shares)
  {
    match op
    case DoCreate(owner, name, size, writable, dir, va, id, r) =>
      assert |name| <= 63 && Create(s, owner, name, size, writable, dir, va, id, spots, r, t) by { assert Step(s, op, spots, t); }
      CreateUniqueIff(s, owner, name, size, writable, dir, va, id, spots, r, t);
    case DoGet(owner, name, dir, page, r) =>
      assert Get(s, owner, name, dir, page, spots, r, t) by { assert Step(s, op, spots, t); }
      GetKeepsNames(s, owner, name, dir, page, spots, r, t);
    case DoMemory(mop) =>
      assert t.shares == s.shares by { assert Step(s, op, spots, t); }
  }

  ghost predicate IsRun(ss: seq<Sys>, ops: seq<Op>, spots: seq<map<Key, nat>>) {
    |ss| == |ops| + 1 && |spots| == |ops| &&
    forall i, j :: 0 <= i && j == i + 1 < |ss| ==> Step(ss[i], ops[i], spots[i], ss[j])
  }

  lemma {:induction false} RunInv(ss: seq<Sys>, ops: seq<Op>, spots: seq<map<Key, nat>>, i: nat)
    requires IsRun(ss, ops, spots) && Inv(ss[0]) && Unique(ss[0].shares) && i < |ss|
    ensures Inv(ss[i]) && Unique(ss[i].shares)
  {
    if i > 0 {
      var p := i - 1;
      RunInv(ss, ops, spots, p);
      assert Step(ss[p], ops[p], spots[p], ss[i]);
      StepInv(ss[p], ops[p], spots[p], ss[i]);
      StepUnique(ss[p], ops[p], spots[p], ss[i]);
    }
  }

  /** Over all runs of create and get, mixed with anything else the memory manager does to
      other frames and pages: names are unique per owner; every attachment of an object
      maps page `i` to the object's frame `i`; the object's reference count is its number of
      attachments and the count of each of its frames; and user code may read every
      attachment, and write to one made by a get exactly if the object is writable. */
  lemma ShareTheorem(ss: seq<Sys>, ops: seq<Op>, spots: seq<map<Key, nat>>)
    requires IsRun(ss, ops, spots) && RefInv(ss[0].m) && ss[0].shares == [] && ss[0].atts == []
    ensures var s := ss[|ops|];
      && Unique(s.shares)
      && (forall x, y :: 0 <= x < |s.shares| && 0 <= y < |s.atts| && s.atts[y].id == s.shares[x].id ==>
            forall i: nat :: i < |s.shares[x].frames| ==>
              var k := Spot(s.atts[y].dir, s.atts[y].page, i);
              && IsPresent(s.m, k) && EntryAt(s.m, k).frame == s.shares[x].frames[i]
              && USER in EntryAt(s.m, k).bits
              && (WRITEABLE in EntryAt(s.m, k).bits <==> !s.atts[y].viaGet || s.shares[x].writable))
      && (forall x :: 0 <= x < |s.shares| ==>
            && s.shares[x].refs == Attachments(s.atts, s.shares[x].id)
            && forall i: nat :: i < |s.shares[x].frames| ==>
                 s.shares[x].frames[i] < |s.m.refs| && s.m.refs[s.shares[x].frames[i]] == s.shares[x].refs)
  {
    assert Inv(ss[0]);
    RunInv(ss, ops, spots, |ops|);
    var s := ss[|ops|];
    forall x, y | 0 <= x < |s.shares| && 0 <= y < |s.atts| && s.atts[y].id == s.shares[x].id
      ensures AttOk(s.m, s.shares[x], s.atts[y]) { }
    forall x, y, i: nat | 0 <= x < |s.shares| && 0 <= y < |s.atts| && s.atts[y].id == s.shares[x].id && i < |s.shares[x].frames|
      ensures var k := Spot(s.atts[y].dir, s.atts[y].page, i);
        && IsPresent(s.m, k) && EntryAt(s.m, k).frame == s.shares[x].frames[i]
        && USER in EntryAt(s.m, k).bits
              && (WRITEABLE in EntryAt(s.m, k).bits <==> !s.atts[y].viaGet || s.shares[x].writable)
    {
      AttachmentMeans(s.m, s.shares[x], s.atts[y], i);
    }
    forall x, i: nat | 0 <= x < |s.shares| && i < |s.shares[x].frames|
      ensures s.shares[x].frames[i] < |s.m.refs| && s.m.refs[s.shares[x].frames[i]] == s.shares[x].refs
    {
      assert ShareOk(s.m, s.shares[x], s.atts);
      assert Counted(s.m, s.shares[x].frames[i]);
    }
    forall x | 0 <= x < |s.shares| ensures s.shares[x].refs == Attachments(s.atts, s.shares[x].id) {
      assert ShareOk(s.m, s.shares[x], s.atts);
    }
  }

  lemma AttachmentMeans(m: Mem, o: Share, a: Att, i: nat)
    requires AttOk(m, o, a) && i < |o.frames|
    ensures var k := Spot(a.dir, a.page, i);
      && IsPresent(m, k) && EntryAt(m, k).frame == o.frames[i]
      && USER in EntryAt(m, k).bits && (WRITEABLE in EntryAt(m, k).bits <==> !a.viaGet || o.writable)
  {
    assert Linked(m, o.frames[i], Spot(a.dir, a.page, i), if a.viaGet then GetPerm(o.writable) else CREATE_PERM);
  }
}
