/** The code of the shared-object manager: searching, copying names, building and attaching
    objects page by page. */
module SharedObjects {
  import opened Seqs
  import opened Memory
  import opened MemoryManager
  import opened Shares
  import Numbers

  /** A C string has no character 0 before its end. */
  ghost predicate IsText(s: string) { forall i :: 0 <= i < |s| ==> s[i] != '\0' }

  /** `strcmp`: zero exactly for equal strings. */
  method Strcmp(p: string, q: string) returns (d: int)
    requires IsText(p) && IsText(q)
    ensures d == 0 <==> p == q
  {
    var i: nat := 0;
    while Numbers.At(p, i) != '\0' && Numbers.At(p, i) == Numbers.At(q, i)
      invariant i <= |p| && i <= |q| && p[..i] == q[..i]
      decreases |p| - i
    {
      assert p[..i + 1] == p[..i] + [p[i]] && q[..i + 1] == q[..i] + [q[i]];
      i := i + 1;
    }
    d := (Numbers.At(p, i) as int) - (Numbers.At(q, i) as int);
    SameUpTo(p, q, i);
  }

  lemma SameUpTo(p: string, q: string, i: nat)
    requires IsText(p) && IsText(q) && i <= |p| && i <= |q| && p[..i] == q[..i]
    requires Numbers.At(p, i) == '\0' || Numbers.At(p, i) != Numbers.At(q, i)
    ensures Numbers.At(p, i) == Numbers.At(q, i) <==> p == q
  {
    if i == |p| == |q| { assert p == p[..i] && q == q[..i]; }
  }

  /** `strncpy` of 63 characters into the 64 of a `Share`, ended by a 0: what the buffer
      then reads as. */
  method CopyName(src: string) returns (name: string)
    requires IsText(src)
    ensures name == Stored(src) && IsText(name)
  {
    var dst := new char[64];
    var j: nat := 0;
    for i := 0 to 63
      invariant j == if i < |src| then i else |src|
      invariant forall x :: 0 <= x < i ==> dst[x] == Numbers.At(src, x)
    {
      dst[i] := Numbers.At(src, j);
      if Numbers.At(src, j) != '\0' { j := j + 1; }
    }
    dst[63] := '\0';
    var len: nat := 0;
    while dst[len] != '\0'
      invariant len <= 63 && len <= |src|
      invariant forall x :: 0 <= x < 63 ==> dst[x] == Numbers.At(src, x)
      invariant dst[63] == '\0'
      decreases 63 - len
    {
      len := len + 1;
    }
    name := dst[..len];
  }

  class Manager {
    const mm: MemoryManager.Manager
    var shares: seq<Share>
    ghost var atts: seq<Att>

    ghost function State(): (s: Sys)
      reads this, mm, mm.refs, mm.va
    {
      Sys(mm.State(), shares, atts)
    }

    ghost predicate Valid()
      reads this, mm, mm.refs, mm.va
    {
      mm.refs != mm.va && Inv(State()) && NamesOk(shares)
    }

    /** `sharing_init`. */
    constructor (manager: MemoryManager.Manager)
      requires manager.Valid()
      ensures mm == manager && Valid() && State() == Sys(manager.State(), [], [])
    {
      mm, shares, atts := manager, [], [];
    }

    /** `find_share`. */
    method FindShare(owner: int, name: string) returns (r: Option<nat>)
      requires NamesOk(shares) && IsText(name)
      ensures r == Find(shares, owner, name)
    {
      var i := 0;
      while i < |shares|
        invariant 0 <= i <= |shares|
        invariant forall x :: 0 <= x < i ==> !(shares[x].owner == owner && shares[x].name == name)
      {
        if shares[i].owner == owner {
          var d := Strcmp(name, shares[i].name);
          if d == 0 { return Some(i); }
        }
        i := i + 1;
      }
      return None;
    }

    /** One page of a new object: a frame, mapped at the next page of the range. */
    method BuildPage(dir: int, page: nat, ghost n: nat, spots: map<Key, nat>, ghost m: Mem, ghost keep: set<nat>,
                     frames: seq<nat>)
      returns (f: Option<nat>)
      requires mm.refs != mm.va && Room(m, dir, page, n, spots) && Clear(m, dir, page, n, keep) && |frames| < n
      requires Built(m, mm.State(), frames, dir, page, CREATE_PERM, spots, keep)
      modifies mm`free, mm`hand, mm`pt, mm`tables, mm.refs, mm.va
      ensures f.Some? ==> Built(m, mm.State(), frames + [f.value], dir, page, CREATE_PERM, spots, keep)
    {
      ghost var t := mm.State();
      if mm.free == [] { return None; }
      BuildReady(m, t, dir, page, n, spots, keep, frames);
      var got := mm.Allocate();
      var k := Spot(dir, page, |frames|);
      var ok := mm.Map(got.value, k, CREATE_PERM, SpotFor(spots, k));
      if !ok { return None; }
      return got;
    }

    /** The loop of `create_shared_object`, whatever is mapped at the range except `keep`;
        running out of frames is a kernel panic. */
    method BuildPages(dir: int, page: nat, n: nat, spots: map<Key, nat>, ghost keep: set<nat>)
      returns (frames: seq<nat>, ok: bool)
      requires mm.Valid() && Room(mm.State(), dir, page, n, spots) && Clear(mm.State(), dir, page, n, keep)
      modifies mm`free, mm`hand, mm`pt, mm`tables, mm.refs, mm.va
      ensures ok ==> |frames| == n && Built(old(mm.State()), mm.State(), frames, dir, page, CREATE_PERM, spots, keep)
    {
      ghost var m := mm.State();
      frames := [];
      var i := 0;
      while i < n
        invariant 0 <= i <= n && |frames| == i
        invariant Built(m, mm.State(), frames, dir, page, CREATE_PERM, spots, keep)
      {
        var f := BuildPage(dir, page, n, spots, m, keep, frames);
        if f == None { return frames, false; }
        frames := frames + [f.value];
        i := i + 1;
      }
      return frames, true;
    }

    /** The listed object gets its frames. */
    method Fill(o: Share, dir: int, page: nat, n: nat, spots: map<Key, nat>, ghost s: Sys) returns (ok: bool)
      requires mm.Valid() && shares == [o] + s.shares && atts == s.atts && mm.State() == s.m
      requires Room(s.m, dir, page, n, spots)
      modifies this, mm`free, mm`hand, mm`pt, mm`tables, mm.refs, mm.va
      ensures ok ==>
        && shares != [] && shares == [o.(frames := shares[0].frames)] + s.shares && |shares[0].frames| == n
        && atts == s.atts + [Att(o.id, dir, page, false)]
        && Built(s.m, mm.State(), shares[0].frames, dir, page, CREATE_PERM, spots,
                 Spared(s.m, s.shares, dir, page, n))
    {
      SparedClear(s.m, s.shares, dir, page, n);
      var frames;
      frames, ok := BuildPages(dir, page, n, spots, Spared(s.m, s.shares, dir, page, n));
      if !ok { return false; }
      assert shares[0 := o.(frames := frames)] == [o.(frames := frames)] + s.shares;
      shares := shares[0 := o.(frames := frames)];
      atts := atts + [Att(o.id, dir, page, false)];
    }

    /** `create_shared_object`, with `id` the outcome of the two `kmalloc` calls of
        `alloc_share`. `None` stands for a kernel panic. */
    method Create(owner: int, name: string, size: nat, writable: bool, dir: int, va: nat,
                  id: Option<int>, spots: map<Key, nat>) returns (r: Option<CreateResult>)
      requires Valid() && IsText(name) && size < 0x1_0000_0000
      requires id.Some? ==> FreshId(shares, id.value)
      requires va % PAGE == 0 ==> Room(mm.State(), dir, va / PAGE, FramesFor(size), spots)
      modifies this, mm`free, mm`hand, mm`pt, mm`tables, mm.refs, mm.va
      ensures r.Some? ==>
        Shares.Create(old(State()), owner, name, size, writable, dir, va, id, spots, r.value, State())
      ensures r.Some? && shares == old(shares) ==> Valid()
      ensures r.Some? && va % PAGE == 0 && !Overlaps(old(mm.State()), old(shares), dir, va / PAGE, FramesFor(size)) ==> Valid()
    {
      ghost var s := State();
      var found := FindShare(owner, name);
      if found.Some? { return Some(AlreadyExists); }
      var n := (size + PAGE - 1) % 0x1_0000_0000 / PAGE;
      if id.None? || n == 0 { return Some(NoShare); }
      var stored := CopyName(name);
      var obj := Share(id.value, owner, stored, size, 1, writable, Blank(n));
      shares := [obj] + shares;
      NamesPrepend(obj, s.shares);
      if va % PAGE != 0 { return Some(NoShare); }
      var ok := Fill(obj, dir, va / PAGE, n, spots, s);
      if !ok { return None; }
      NamesPrepend(shares[0], s.shares);
      CreateDone(s, owner, name, size, writable, dir, va, id, spots, shares[0], State());
      return Some(Created(id.value));
    }

    /** One page of an attachment. */
    method AttachPage(frames: seq<nat>, dir: int, page: nat, perm: Bits, spots: map<Key, nat>, ghost keep: set<nat>,
                      ghost m: Mem, ghost n: nat, i: nat) returns (ok: bool)
      requires mm.refs != mm.va && i < n <= |frames| && BUFFERED !in perm
      requires Ready(m, frames, dir, page, n, spots, keep)
      requires Attached(m, mm.State(), frames, dir, page, perm, spots, keep, i) == true
      modifies mm`free, mm`hand, mm`pt, mm`tables, mm.refs, mm.va
      ensures ok ==> Attached(m, mm.State(), frames, dir, page, perm, spots, keep, i + 1) == true
    {
      AttachReady(m, mm.State(), frames, dir, page, perm, spots, keep, n, i);
      var k := Spot(dir, page, i);
      ok := mm.Map(frames[i], k, perm, SpotFor(spots, k));
    }

    /** The loop of `get_shared_object`, over the first `n` frames, whatever is mapped at the
        range except `keep`. */
    method AttachPages(frames: seq<nat>, dir: int, page: nat, perm: Bits, spots: map<Key, nat>, ghost keep: set<nat>, n: nat)
      returns (ok: bool)
      requires mm.Valid() && n <= |frames| && BUFFERED !in perm
      requires Ready(mm.State(), frames, dir, page, n, spots, keep)
      modifies mm`free, mm`hand, mm`pt, mm`tables, mm.refs, mm.va
      ensures ok ==> Attached(old(mm.State()), mm.State(), frames, dir, page, perm, spots, keep, n) == true
    {
      ghost var m := mm.State();
      AttachNone(m, frames, dir, page, perm, spots, keep);
      var i: nat := 0;
      while i < n
        invariant i <= n
        invariant Attached(m, mm.State(), frames, dir, page, perm, spots, keep, i) == true
      {
        var good := AttachPage(frames, dir, page, perm, spots, keep, m, n, i);
        if !good { return false; }
        i := i + 1;
      }
      return true;
    }

    /** `get_shared_object` at page `page` of directory `dir`. `None` stands for a kernel
        panic. */
    method Get(owner: int, name: string, dir: int, page: nat, spots: map<Key, nat>) returns (r: Option<GetResult>)
      requires Valid() && IsText(name) && GetRoom(State(), owner, name, dir, page, spots)
      modifies this, mm`free, mm`hand, mm`pt, mm`tables, mm.refs, mm.va
      ensures r.Some? ==> Shares.Get(old(State()), owner, name, dir, page, spots, r.value, State())
      ensures r.Some? && !FindsLarge(old(State()), owner, name) && !FindsOverlap(old(State()), owner, name, dir, page) ==> Valid()
    {
      ghost var s := State();
      var found := FindShare(owner, name);
      if found == None { return Some(DoesNotExist); }
      var x := found.value;
      var o := shares[x];
      var rounded := (o.size + PAGE - 1) % 0x1_0000_0000;
      var n := if rounded < 0x8000_0000 then rounded / PAGE else 0;
      StoredFrames(s, x, dir, page, n, spots);
      var ok := AttachPages(o.frames, dir, page, GetPerm(o.writable), spots, Spared(s.m, s.shares, dir, page, n), n);
      if !ok { return None; }
      shares := shares[x := o.(refs := o.refs + 1)];
      atts := atts + [Att(o.id, dir, page, true)];
      assert Shares.Get(s, owner, name, dir, page, spots, Got(o.id), State());
      GetTheorem(s, owner, name, dir, page, spots, Got(o.id), State());
      return Some(Got(o.id));
    }
  }

  /** A finished object is what the specification says. */
  lemma CreateDone(s: Sys, owner: int, name: string, size: nat, writable: bool, dir: int, va: nat,
                   id: Option<int>, spots: map<Key, nat>, o: Share, t: Sys)
    requires Inv(s) && Find(s.shares, owner, name).None? && Made(size, id).Some? && va % PAGE == 0
    requires FreshId(s.shares, id.value)
    requires |o.frames| == FramesFor(size) && o == NewShare(id.value, owner, name, size, writable, o.frames)
    requires Built(s.m, t.m, o.frames, dir, va / PAGE, CREATE_PERM, spots,
                   Spared(s.m, s.shares, dir, va / PAGE, FramesFor(size)))
    requires t.shares == [o] + s.shares && t.atts == s.atts + [Att(id.value, dir, va / PAGE, false)]
    ensures Shares.Create(s, owner, name, size, writable, dir, va, id, spots, Created(id.value), t)
    ensures !Overlaps(s.m, s.shares, dir, va / PAGE, FramesFor(size)) ==> Inv(t)
  {
    CreateInvIff(s, owner, name, size, writable, dir, va, id, spots, Created(id.value), t);
  }

  ghost predicate NamesOk(q: seq<Share>) { forall x :: 0 <= x < |q| ==> IsText(q[x].name) }

  lemma NamesPrepend(o: Share, q: seq<Share>)
    requires NamesOk(q) && IsText(o.name)
    ensures NamesOk([o] + q)
  {
  }

  /** Frames of the pool that are not free. */
  ghost predicate InUse(m: Mem, frames: seq<nat>) {
    forall i: nat :: i < |frames| ==> InUseAt(m, frames, i)
  }

  ghost predicate InUseAt(m: Mem, frames: seq<nat>, i: nat)
    requires i < |frames|
  {
    frames[i] in m.pool && frames[i] !in m.free
  }

  /** What attaching needs: frames in use among `keep`, and a range that maps none of it. */
  ghost predicate Ready(m: Mem, frames: seq<nat>, dir: int, page: nat, n: nat, spots: map<Key, nat>, keep: set<nat>) {
    InUse(m, frames) && Among(frames, keep) && Room(m, dir, page, n, spots) && Clear(m, dir, page, n, keep)
  }

  lemma StoredFrames(s: Sys, x: nat, dir: int, page: nat, n: nat, spots: map<Key, nat>)
    requires Inv(s) && x < |s.shares| && Room(s.m, dir, page, n, spots) && Clear(s.m, dir, page, n, Own(s.shares[x]))
    ensures RefInv(s.m) && |s.shares[x].frames| == FramesFor(s.shares[x].size)
    ensures Ready(s.m, s.shares[x].frames, dir, page, n, spots, Spared(s.m, s.shares, dir, page, n))
  {
    assert ShareOk(s.m, s.shares[x], s.atts);
    OwnSpared(s.m, s.shares, x, dir, page, n);
    SparedClear(s.m, s.shares, dir, page, n);
  }

  /** The page table of `k` exists, or there is a frame left for it. */
  ghost predicate CanMap(m: Mem, k: Key) { TableOf(k) in m.tables || m.free != [] }

  /** The next page of an attachment can be mapped, and is then attached. */
  lemma AttachReady(m: Mem, t: Mem, frames: seq<nat>, dir: int, page: nat, perm: Bits, spots: map<Key, nat>,
                    keep: set<nat>, n: nat, i: nat)
    requires i < n <= |frames| && BUFFERED !in perm && Ready(m, frames, dir, page, n, spots, keep)
    requires Attached(m, t, frames, dir, page, perm, spots, keep, i)
    ensures var k := Spot(dir, page, i); var spot := SpotFor(spots, k);
      && RefInv(t) && frames[i] in t.pool && frames[i] !in t.free
      && (TableOf(k) !in t.tables ==> InHeap(spot) && !IsPresent(t, Key(KERNEL, spot)))
      && (CanMap(t, k) ==>
            && MapFrame.requires(EnsureTable(t, k, spot), frames[i], k, perm)
            && Attached(m, MapFrame(EnsureTable(t, k, spot), frames[i], k, perm), frames, dir, page, perm, spots, keep, i + 1))
  {
    var k := Spot(dir, page, i);
    assert InUseAt(m, frames, i);
    StillTarget(m, t, dir, page, n, spots, i);
    if CanMap(t, k) {
      MapNew(t, frames[i], k, perm, SpotFor(spots, k), keep);
      AttachStep(m, t, MapFrame(EnsureTable(t, k, SpotFor(spots, k)), frames[i], k, perm), frames, dir, page, perm, spots, keep, i);
    }
  }

  /** Likewise the next page of a new object, once a frame has been taken for it. */
  lemma BuildReady(m: Mem, t: Mem, dir: int, page: nat, n: nat, spots: map<Key, nat>, keep: set<nat>, frames: seq<nat>)
    requires Room(m, dir, page, n, spots) && Clear(m, dir, page, n, keep) && |frames| < n && t.free != []
    requires Built(m, t, frames, dir, page, CREATE_PERM, spots, keep)
    ensures RefInv(t) && t.free[0] < |t.refs| == |t.va|
    ensures var k := Spot(dir, page, |frames|); var spot := SpotFor(spots, k); var f := t.free[0]; var a := AllocateFrame(t);
      && RefInv(a) && f in a.pool && f !in a.free
      && (TableOf(k) !in a.tables ==> InHeap(spot) && !IsPresent(a, Key(KERNEL, spot)))
      && (CanMap(a, k) ==>
            && MapFrame.requires(EnsureTable(a, k, spot), f, k, CREATE_PERM)
            && Built(m, MapFrame(EnsureTable(a, k, spot), f, k, CREATE_PERM), frames + [f], dir, page, CREATE_PERM, spots, keep))
  {
    var k := Spot(dir, page, |frames|);
    var spot := SpotFor(spots, k);
    StillTarget(m, t, dir, page, n, spots, |frames|);
    AllocateExtends(t, keep);
    var a := AllocateFrame(t);
    var f := t.free[0];
    NextClear(m, t, a, frames, dir, page, CREATE_PERM, spots, keep);
    assert EntryAt(a, k) == EntryAt(t, k) && EntryAt(a, Key(KERNEL, spot)) == EntryAt(t, Key(KERNEL, spot));
    if CanMap(a, k) {
      MapNew(a, f, k, CREATE_PERM, spot, Kept(keep, frames, f));
      BuildStep(m, t, a, MapFrame(EnsureTable(a, k, spot), f, k, CREATE_PERM), frames, dir, page, CREATE_PERM, spots, keep);
    }
  }
}
