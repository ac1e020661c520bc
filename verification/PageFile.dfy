/** The page file: two-level disk page tables per process, a list of free disk frames and
    the frames themselves. */
module PageFile {
  import opened Seqs

  type Env = int
  type Content = seq<bv8>

  /** A table has 1024 entries. The bounds are `USER_TOP` and `KERNEL_BASE`: the end of user
      space and of what a process may have in the page file. */
  const USER_TABLES: nat := 955
  const USER_PAGES: nat := 955 * 1024
  const PAGES: nat := 960 * 1024

  /** A disk page directory: the tables that exist, by number. */
  type Dir = map<nat, seq<nat>>

  function PutTable(dir: Dir, d: nat, table: seq<nat>): (r: Dir) { dir[d := table] }

  /** A page of a process. */
  datatype Slot = Slot(env: Env, page: nat)

  /** `dirs` holds the directories that exist; a table entry is a disk frame number, 0 for
      none. `leaked` are frames that no list or table
      mentions any more. */
  datatype Store = Store(free: seq<nat>, disk: seq<Content>, dirs: map<Env, Dir>, leaked: set<nat>)

  datatype AddResult = Added | NoSpace
  datatype ReadResult = Data(content: Content) | NotInPageFile

  predicate HasTable(s: Store, k: Slot) {
    k.env in s.dirs && k.page / 1024 in s.dirs[k.env] && |s.dirs[k.env][k.page / 1024]| == 1024
  }

  function FrameAt(s: Store, k: Slot): (f: nat) {
    if HasTable(s, k) then s.dirs[k.env][k.page / 1024][k.page % 1024] else 0
  }

  // ----- operations

  function DirOf(s: Store, e: Env): (r: Dir) { if e in s.dirs then s.dirs[e] else map[] }

  function Blank(): (r: seq<nat>) { seq(1024, _ => 0) }

  /** `get_disk_page_directory` and `get_disk_page_table` with `create`. */
  function WithTable(s: Store, k: Slot): (t: Store) {
    var d: nat := k.page / 1024;
    var dir := DirOf(s, k.env);
    s.(dirs := s.dirs[k.env := if d in dir then dir else PutTable(dir, d, Blank())])
  }

  function SetEntry(s: Store, k: Slot, f: nat): (t: Store)
    requires HasTable(s, k)
  {
    var d: nat := k.page / 1024;
    var dir := s.dirs[k.env];
    s.(dirs := s.dirs[k.env := PutTable(dir, d, dir[d][k.page % 1024 := f])])
  }

  /** `pf_add_env_page`. The table is created even when no frame is left. */
  function Add(s: Store, k: Slot, data: Content): (r: (AddResult, Store))
    requires HasTable(WithTable(s, k), k)
    requires forall f :: f in s.free ==> f < |s.disk|
    requires FrameAt(WithTable(s, k), k) < |s.disk|
  {
    var t := WithTable(s, k);
    var f := FrameAt(t, k);
    if f != 0 then (Added, t.(disk := t.disk[f := data]))
    else if s.free == [] then (NoSpace, t)
    else
      var g := s.free[0];
      assert g in s.free;
      var u := SetEntry(t, k, g);
      (Added, u.(free := s.free[1..], disk := s.disk[g := data]))
  }

  /** `pf_read_env_page`. */
  function Read(s: Store, k: Slot): (r: ReadResult)
    requires FrameAt(s, k) < |s.disk|
  {
    if FrameAt(s, k) == 0 then NotInPageFile else Data(s.disk[FrameAt(s, k)])
  }

  /** `pf_remove_env_page`. */
  function Remove(s: Store, k: Slot): (t: Store) {
    if !HasTable(s, k) then s
    else SetEntry(s, k, 0).(free := if FrameAt(s, k) == 0 then s.free else [FrameAt(s, k)] + s.free)
  }

  /** The free list once the frames of the pages of `e` below page `n` have been freed, in
      page order. */
  function Returned(s: Store, e: Env, n: nat): (r: seq<nat>) {
    if n == 0 then s.free
    else (if FrameAt(s, Slot(e, n - 1)) != 0 then [FrameAt(s, Slot(e, n - 1))] else []) + Returned(s, e, n - 1)
  }

  /** The pages of `e` below page `n` that the page file holds, counted one by one. */
  function Count(s: Store, e: Env, n: nat): (r: nat) {
    if n == 0 then 0 else Count(s, e, n - 1) + if FrameAt(s, Slot(e, n - 1)) != 0 then 1 else 0
  }

  /** The frames of the pages of `e` that `pf_free_env` does not look at. */
  function Beyond(s: Store, e: Env): (r: set<nat>) {
    set p: nat | USER_PAGES <= p < PAGES && FrameAt(s, Slot(e, p)) != 0 :: FrameAt(s, Slot(e, p))
  }

  /** `pf_free_env`: the frames of the user pages go back one by one, the directory goes. */
  function FreeEnv(s: Store, e: Env): (t: Store) {
    s.(dirs := s.dirs - {e}, free := Returned(s, e, USER_PAGES), leaked := s.leaked + Beyond(s, e))
  }

  // ----- invariant and abstraction

  ghost predicate TablesOk(s: Store) {
    forall e, d :: e in s.dirs && d in s.dirs[e] ==> |s.dirs[e][d]| == 1024 && (d + 1) * 1024 <= PAGES
  }

  predicate IsFrame(s: Store, f: nat) { 0 < f < |s.disk| }

  ghost predicate FreeOk(s: Store) {
    && |s.disk| > 0 && NoDup(s.free)
    && (forall f :: f in s.free ==> IsFrame(s, f) && f !in s.leaked)
    && (forall f :: f in s.leaked ==> IsFrame(s, f))
  }

  ghost predicate OwnedOk(s: Store) {
    && (forall k :: FrameAt(s, k) != 0 ==>
          IsFrame(s, FrameAt(s, k)) && FrameAt(s, k) !in s.free && FrameAt(s, k) !in s.leaked)
    && (forall j, k :: FrameAt(s, j) == FrameAt(s, k) != 0 ==> j == k)
  }

  /** Each frame but 0 is free, owned by one page of one process, or leaked. */
  ghost predicate Covered(s: Store) {
    forall f :: IsFrame(s, f) ==> f in s.free || f in s.leaked || exists k :: FrameAt(s, k) == f
  }

  ghost predicate Inv(s: Store) { TablesOk(s) && FreeOk(s) && OwnedOk(s) && Covered(s) }

  ghost function Owned(s: Store): (r: set<Slot>) {
    set e, p: nat | e in s.dirs && 0 <= p < PAGES && FrameAt(s, Slot(e, p)) != 0 :: Slot(e, p)
  }

  /** What the page file means: the contents of each page it holds. */
  ghost function Contents(s: Store): (r: map<Slot, Content>)
    requires OwnedOk(s)
  {
    map k | k in Owned(s) && FrameAt(s, k) != 0 :: s.disk[FrameAt(s, k)]
  }

  lemma OwnedIff(s: Store, k: Slot)
    requires TablesOk(s)
    ensures k in Owned(s) <==> FrameAt(s, k) != 0
  {
    if FrameAt(s, k) != 0 {
      assert k.page / 1024 in s.dirs[k.env];
      assert k.page < (k.page / 1024 + 1) * 1024;
      assert k == Slot(k.env, k.page);
    }
  }

  lemma ContentsAt(s: Store, k: Slot)
    requires TablesOk(s) && OwnedOk(s)
    ensures k in Contents(s) <==> FrameAt(s, k) != 0
    ensures k in Contents(s) ==> Contents(s)[k] == s.disk[FrameAt(s, k)]
  {
    OwnedIff(s, k);
  }

  ghost predicate Holds(s: Store, c: map<Slot, Content>, k: Slot) {
    && (k in c <==> FrameAt(s, k) != 0)
    && (k in c ==> FrameAt(s, k) < |s.disk| && c[k] == s.disk[FrameAt(s, k)])
  }

  lemma ContentsIs(s: Store, c: map<Slot, Content>)
    requires TablesOk(s) && OwnedOk(s) && forall k :: Holds(s, c, k)
    ensures Contents(s) == c
  {
    var have := Contents(s);
    forall k ensures (k in have <==> k in c) && (k in c ==> have[k] == c[k]) {
      ContentsAt(s, k);
      assert Holds(s, c, k);
    }
  }

  /** Reading is looking up the contents, present or not. */
  lemma ReadIs(s: Store, k: Slot)
    requires Inv(s)
    ensures FrameAt(s, k) < |s.disk|
    ensures Read(s, k) == if k in Contents(s) then Data(Contents(s)[k]) else NotInPageFile
  {
    OwnedIff(s, k);
  }

  // ----- entries

  lemma SameSlot(j: Slot, k: Slot)
    requires j.env == k.env && j.page / 1024 == k.page / 1024 && j.page % 1024 == k.page % 1024
    ensures j == k
  {
    assert j.page == j.page / 1024 * 1024 + j.page % 1024;
  }

  lemma SetEntryAt(s: Store, k: Slot, f: nat, j: Slot)
    requires HasTable(s, k)
    ensures HasTable(SetEntry(s, k, f), j) <==> HasTable(s, j)
    ensures FrameAt(SetEntry(s, k, f), j) == if j == k then f else FrameAt(s, j)
  {
    if j != k && j.env == k.env && j.page / 1024 == k.page / 1024 {
      if j.page % 1024 == k.page % 1024 { SameSlot(j, k); }
    }
  }

  lemma SetEntryTables(s: Store, k: Slot, f: nat)
    requires HasTable(s, k) && TablesOk(s)
    ensures TablesOk(SetEntry(s, k, f))
  {
  }

  lemma WithTableAt(s: Store, k: Slot, j: Slot)
    requires TablesOk(s) && k.page < PAGES
    ensures HasTable(WithTable(s, k), k) && TablesOk(WithTable(s, k))
    ensures FrameAt(WithTable(s, k), j) == FrameAt(s, j)
  {
    assert (k.page / 1024 + 1) * 1024 <= PAGES;
  }

  /** Only the entry of `k` changes, from `FrameAt(s, k)` to `f`. */
  ghost predicate Rewrites(s: Store, t: Store, k: Slot, f: nat) {
    forall j :: FrameAt(t, j) == if j == k then f else FrameAt(s, j)
  }

  // ----- add

  lemma AddReady(s: Store, k: Slot)
    requires Inv(s) && k.page < PAGES
    ensures forall data :: Add.requires(s, k, data)
    ensures FrameAt(WithTable(s, k), k) == FrameAt(s, k)
  {
    WithTableAt(s, k, k);
  }

  lemma AddEntries(s: Store, k: Slot, data: Content)
    requires Inv(s) && k.page < PAGES && Add.requires(s, k, data)
    ensures var (r, t) := Add(s, k, data);
      && TablesOk(t) && |t.disk| == |s.disk|
      && (r == NoSpace <==> FrameAt(s, k) == 0 && s.free == [])
      && (r == NoSpace || FrameAt(s, k) != 0 ==> Rewrites(s, t, k, FrameAt(s, k)))
      && (r == Added && FrameAt(s, k) == 0 ==>
            s.free != [] && IsFrame(s, s.free[0]) && Rewrites(s, t, k, s.free[0]))
  {
    var w := WithTable(s, k);
    forall j ensures FrameAt(w, j) == FrameAt(s, j) && TablesOk(w) { WithTableAt(s, k, j); }
    if FrameAt(s, k) == 0 && s.free != [] {
      var g := s.free[0];
      assert g in s.free;
      SetEntryTables(w, k, g);
      var t := Add(s, k, data).1;
      forall j ensures FrameAt(t, j) == if j == k then g else FrameAt(s, j) {
        SetEntryAt(w, k, g, j);
      }
    }
  }

  /** `t` is `s` with its first free frame `g` moved to the entry of `k`. */
  ghost predicate Takes(s: Store, t: Store, k: Slot, g: nat) {
    && FrameAt(s, k) == 0 && Rewrites(s, t, k, g)
    && s.free != [] && s.free[0] == g && t.free == s.free[1..] && t.leaked == s.leaked && |t.disk| == |s.disk|
  }

  lemma AddFree(s: Store, t: Store, k: Slot, g: nat)
    requires Inv(s) && Takes(s, t, k, g)
    ensures FreeOk(t) && g in s.free && g !in t.free
  {
    assert s.free == [g] + t.free;
    assert g in s.free;
    forall f | f in t.free ensures f in s.free { }
  }

  lemma AddOwned(s: Store, t: Store, k: Slot, g: nat)
    requires Inv(s) && Takes(s, t, k, g)
    ensures OwnedOk(t)
  {
    AddFree(s, t, k, g);
    assert IsFrame(s, g);
    forall j ensures FrameAt(s, j) != g { assert FrameAt(s, j) != 0 ==> FrameAt(s, j) !in s.free; }
    forall j | FrameAt(t, j) != 0
      ensures IsFrame(t, FrameAt(t, j)) && FrameAt(t, j) !in t.free && FrameAt(t, j) !in t.leaked
    {
      if j != k { assert FrameAt(t, j) == FrameAt(s, j) && FrameAt(s, j) !in s.free; }
    }
  }

  lemma AddCovered(s: Store, t: Store, k: Slot, g: nat)
    requires Inv(s) && Takes(s, t, k, g)
    ensures Covered(t)
  {
    assert s.free == [g] + t.free;
    forall f | IsFrame(t, f) ensures f in t.free || f in t.leaked || exists j :: FrameAt(t, j) == f {
      assert IsFrame(s, f);
      if f == g {
        assert FrameAt(t, k) == f;
      } else if j :| FrameAt(s, j) == f {
        assert FrameAt(t, j) == f;
      }
    }
  }

  lemma SameOwned(s: Store, t: Store)
    requires Inv(s) && TablesOk(t) && (forall j :: FrameAt(t, j) == FrameAt(s, j))
    requires t.free == s.free && t.leaked == s.leaked && |t.disk| == |s.disk|
    ensures Inv(t)
  {
    forall f | IsFrame(t, f) ensures f in t.free || f in t.leaked || exists j :: FrameAt(t, j) == f {
      assert IsFrame(s, f);
      if j :| FrameAt(s, j) == f { assert FrameAt(t, j) == f; }
    }
  }

  lemma AddInv(s: Store, k: Slot, data: Content)
    requires Inv(s) && k.page < PAGES && Add.requires(s, k, data)
    ensures Inv(Add(s, k, data).1)
  {
    AddEntries(s, k, data);
    AddReady(s, k);
    var (r, t) := Add(s, k, data);
    if r == Added && FrameAt(s, k) == 0 {
      AddFree(s, t, k, s.free[0]);
      AddOwned(s, t, k, s.free[0]);
      AddCovered(s, t, k, s.free[0]);
    } else {
      SameOwned(s, t);
    }
  }

  /** A successful add changes the contents of that page and of no other; it fails exactly
      for a page that is not there when no frame is free, and then changes nothing. */
  lemma AddTheorem(s: Store, k: Slot, data: Content)
    requires Inv(s) && k.page < PAGES
    ensures Add.requires(s, k, data) && Inv(Add(s, k, data).1)
    ensures Add(s, k, data).0 == NoSpace <==> k !in Contents(s) && s.free == []
    ensures Contents(Add(s, k, data).1) ==
      if Add(s, k, data).0 == Added then Contents(s)[k := data] else Contents(s)
  {
    AddReady(s, k);
    AddInv(s, k, data);
    AddEntries(s, k, data);
    ContentsAt(s, k);
    var (r, t) := Add(s, k, data);
    var c := if r == Added then Contents(s)[k := data] else Contents(s);
    forall j ensures Holds(t, c, j) {
      ContentsAt(s, j);
      if FrameAt(t, j) != 0 { AddDisk(s, k, data, j); }
    }
    ContentsIs(t, c);
  }

  lemma AddDisk(s: Store, k: Slot, data: Content, j: Slot)
    requires Inv(s) && k.page < PAGES && Add.requires(s, k, data) && FrameAt(Add(s, k, data).1, j) != 0
    requires Inv(Add(s, k, data).1)
    ensures var (r, t) := Add(s, k, data);
      && (r == Added && j == k ==> t.disk[FrameAt(t, j)] == data)
      && (r == NoSpace || j != k ==> FrameAt(s, j) != 0 && t.disk[FrameAt(t, j)] == s.disk[FrameAt(s, j)])
  {
    AddEntries(s, k, data);
    AddReady(s, k);
    if s.free != [] {
      var g := s.free[0];
      assert g in s.free;
    }
  }

  // ----- remove

  lemma RemoveEntries(s: Store, k: Slot)
    requires Inv(s)
    ensures TablesOk(Remove(s, k)) && Rewrites(s, Remove(s, k), k, 0)
    ensures Remove(s, k).free == if FrameAt(s, k) == 0 then s.free else [FrameAt(s, k)] + s.free
    ensures Remove(s, k).disk == s.disk && Remove(s, k).leaked == s.leaked
  {
    if HasTable(s, k) {
      SetEntryTables(s, k, 0);
      forall j ensures FrameAt(Remove(s, k), j) == if j == k then 0 else FrameAt(s, j) { SetEntryAt(s, k, 0, j); }
    }
  }

  lemma RemoveInv(s: Store, k: Slot)
    requires Inv(s)
    ensures Inv(Remove(s, k))
  {
    RemoveEntries(s, k);
    var t := Remove(s, k);
    var g := FrameAt(s, k);
    if g != 0 { NoDupAppend([g], s.free); }
    forall f | IsFrame(t, f) ensures f in t.free || f in t.leaked || exists j :: FrameAt(t, j) == f {
      assert IsFrame(s, f);
      if f != g {
        if j :| FrameAt(s, j) == f { assert FrameAt(t, j) == f; }
      }
    }
  }

  /** Removing a page takes exactly that page out of the page file. */
  lemma RemoveTheorem(s: Store, k: Slot)
    requires Inv(s)
    ensures Inv(Remove(s, k))
    ensures Contents(Remove(s, k)) == Contents(s) - {k}
  {
    RemoveInv(s, k);
    RemoveEntries(s, k);
    var c := Contents(s) - {k};
    forall j ensures Holds(Remove(s, k), c, j) { ContentsAt(s, j); }
    ContentsIs(Remove(s, k), c);
  }

  // ----- free a process

  lemma {:induction false} ReturnedMember(s: Store, e: Env, n: nat, f: nat)
    ensures f in Returned(s, e, n) <==>
      f in s.free || (f != 0 && exists p: nat :: p < n && FrameAt(s, Slot(e, p)) == f)
  {
    if n > 0 {
      ReturnedMember(s, e, n - 1, f);
      var last := FrameAt(s, Slot(e, n - 1));
      assert f in Returned(s, e, n) <==> f in Returned(s, e, n - 1) || (last != 0 && f == last);
      if p: nat :| p < n && FrameAt(s, Slot(e, p)) == f {
        assert p < n - 1 || p == n - 1;
      }
    }
  }

  lemma {:induction false} ReturnedNoDup(s: Store, e: Env, n: nat)
    requires OwnedOk(s) && NoDup(s.free)
    ensures NoDup(Returned(s, e, n))
  {
    if n > 0 {
      ReturnedNoDup(s, e, n - 1);
      var last := FrameAt(s, Slot(e, n - 1));
      ReturnedMember(s, e, n - 1, last);
      if last != 0 { NoDupAppend([last], Returned(s, e, n - 1)); }
    }
  }

  lemma FreeEnvAt(s: Store, e: Env, k: Slot)
    ensures FrameAt(FreeEnv(s, e), k) == if k.env == e then 0 else FrameAt(s, k)
  {
  }

  lemma FreeEnvFree(s: Store, e: Env)
    requires Inv(s)
    ensures FreeOk(FreeEnv(s, e))
  {
    var t := FreeEnv(s, e);
    ReturnedNoDup(s, e, USER_PAGES);
    forall f | f in t.free ensures IsFrame(t, f) && f !in t.leaked {
      ReturnedMember(s, e, USER_PAGES, f);
    }
  }

  lemma FreeEnvCovered(s: Store, e: Env)
    requires Inv(s)
    ensures Covered(FreeEnv(s, e))
  {
    var t := FreeEnv(s, e);
    forall f | IsFrame(t, f) ensures f in t.free || f in t.leaked || exists k :: FrameAt(t, k) == f {
      assert IsFrame(s, f);
      ReturnedMember(s, e, USER_PAGES, f);
      if k :| FrameAt(s, k) == f {
        FreeEnvAt(s, e, k);
        OwnedIff(s, k);
        if k.env == e { assert k == Slot(e, k.page); } else { assert FrameAt(t, k) == f; }
      }
    }
  }

  lemma FreeEnvOwned(s: Store, e: Env)
    requires Inv(s)
    ensures OwnedOk(FreeEnv(s, e))
  {
    var t := FreeEnv(s, e);
    forall k ensures FrameAt(t, k) == if k.env == e then 0 else FrameAt(s, k) { FreeEnvAt(s, e, k); }
    forall k | FrameAt(t, k) != 0 ensures FrameAt(t, k) !in t.free && FrameAt(t, k) !in t.leaked {
      ReturnedMember(s, e, USER_PAGES, FrameAt(t, k));
    }
  }

  /** Freeing a process empties its part of the page file and no other, and leaks frames
      exactly when it has a page at or above `USER_TOP` there. */
  lemma FreeEnvTheorem(s: Store, e: Env)
    requires Inv(s)
    ensures Inv(FreeEnv(s, e))
    ensures forall k :: k in Contents(FreeEnv(s, e)) <==> k in Contents(s) && k.env != e
    ensures forall k :: k in Contents(FreeEnv(s, e)) ==> Contents(FreeEnv(s, e))[k] == Contents(s)[k]
    ensures FreeEnv(s, e).leaked == s.leaked <==> forall k :: k in Contents(s) && k.env == e ==> k.page < USER_PAGES
  {
    FreeEnvFree(s, e);
    FreeEnvCovered(s, e);
    FreeEnvOwned(s, e);
    var t := FreeEnv(s, e);
    forall k ensures (k in Contents(t) <==> k in Contents(s) && k.env != e) && FrameAt(t, k) == if k.env == e then 0 else FrameAt(s, k) {
      OwnedIff(s, k);
      OwnedIff(t, k);
      FreeEnvAt(s, e, k);
    }
    LeaksIff(s, e);
  }

  lemma LeaksIff(s: Store, e: Env)
    requires Inv(s)
    ensures FreeEnv(s, e).leaked == s.leaked <==> forall k :: k in Contents(s) && k.env == e ==> k.page < USER_PAGES
  {
    if k :| k in Contents(s) && k.env == e && k.page >= USER_PAGES {
      OwnedIff(s, k);
      assert k == Slot(e, k.page);
      assert FrameAt(s, k) in Beyond(s, e);
    } else {
      forall p: nat | USER_PAGES <= p < PAGES ensures FrameAt(s, Slot(e, p)) == 0 { OwnedIff(s, Slot(e, p)); }
      assert Beyond(s, e) == {};
    }
  }

  // ----- counters and conservation

  ghost function Below(s: Store, e: Env, n: nat): (r: set<Slot>) {
    set p: nat | 0 <= p < n && FrameAt(s, Slot(e, p)) != 0 :: Slot(e, p)
  }

  /** The loops find every page of the process below the bound, once. */
  lemma {:induction false} ScanCounts(s: Store, e: Env, n: nat)
    ensures Count(s, e, n) == |Below(s, e, n)|
    ensures |Returned(s, e, n)| == |s.free| + Count(s, e, n)
  {
    if n == 0 {
      assert Below(s, e, n) == {};
    } else {
      ScanCounts(s, e, n - 1);
      var k := Slot(e, n - 1);
      assert Below(s, e, n) == Below(s, e, n - 1) + if FrameAt(s, k) != 0 then {k} else {};
      assert k !in Below(s, e, n - 1);
    }
  }

  /** What `pf_calculate_allocated_pages` counts: the user pages of the process that the
      page file holds. */
  lemma CounterTheorem(s: Store, e: Env)
    requires Inv(s)
    ensures Count(s, e, USER_PAGES) == |set k | k in Contents(s) && k.env == e && k.page < USER_PAGES|
  {
    ScanCounts(s, e, USER_PAGES);
    var held := set k | k in Contents(s) && k.env == e && k.page < USER_PAGES;
    forall k ensures k in held <==> k in Below(s, e, USER_PAGES) {
      ContentsAt(s, k);
      assert k.env == e ==> k == Slot(e, k.page);
    }
    assert held == Below(s, e, USER_PAGES);
  }

  lemma {:induction false} ImageCard(s: Store, slots: set<Slot>)
    requires OwnedOk(s) && forall k :: k in slots ==> FrameAt(s, k) != 0
    ensures |set k | k in slots :: FrameAt(s, k)| == |slots|
    decreases slots
  {
    var image := set k | k in slots :: FrameAt(s, k);
    if slots == {} {
      assert image == {};
    } else {
      var k :| k in slots;
      var rest := slots - {k};
      ImageCard(s, rest);
      var less := set j | j in rest :: FrameAt(s, j);
      assert FrameAt(s, k) !in less;
      assert image == less + {FrameAt(s, k)};
    }
  }

  ghost function Numbers(n: nat): (r: set<nat>)
    requires n > 0
    ensures |r| == n - 1 && forall f: nat :: f in r <==> 0 < f < n
  {
    if n == 1 then {} else Numbers(n - 1) + {n - 1}
  }

  /** No disk frame is lost or shared: free frames, pages held and leaked frames add up to
      all frames but frame 0. */
  lemma Conservation(s: Store)
    requires Inv(s)
    ensures |s.free| + |Contents(s)| + |s.leaked| == |s.disk| - 1
  {
    var listed := set f | f in s.free;
    NoDupCardExact(s.free, listed);
    var used := UsedFrames(s);
    var all := Numbers(|s.disk|);
    forall f: nat ensures f in all <==> f in listed || f in s.leaked || f in used { FrameIsSomewhere(s, f); }
    UsedApart(s, used);
    PartitionCard(listed, s.leaked, used, all);
  }

  lemma UsedApart(s: Store, used: set<nat>)
    requires Inv(s) && forall f :: f in used <==> f != 0 && exists k :: FrameAt(s, k) == f
    ensures forall f :: f in used ==> f !in s.free && f !in s.leaked
  {
    forall f | f in used ensures f !in s.free && f !in s.leaked {
      var k :| FrameAt(s, k) == f;
    }
  }

  /** The frames that hold the contents, one for each page. */
  lemma UsedFrames(s: Store) returns (used: set<nat>)
    requires Inv(s)
    ensures forall f :: f in used <==> f != 0 && exists k :: FrameAt(s, k) == f
    ensures |used| == |Contents(s)|
  {
    var slots := Contents(s).Keys;
    forall k ensures k in slots <==> FrameAt(s, k) != 0 { ContentsAt(s, k); }
    used := set k | k in slots :: FrameAt(s, k);
    ImageCard(s, slots);
  }

  lemma FrameIsSomewhere(s: Store, f: nat)
    requires Inv(s)
    ensures 0 < f < |s.disk| <==> f in s.free || f in s.leaked || (f != 0 && exists k :: FrameAt(s, k) == f)
  {
    if 0 < f < |s.disk| { assert IsFrame(s, f); }
  }

  // ----- whole runs

  datatype Op = AddPage(k: Slot, data: Content) | RemovePage(k: Slot) | FreeProcess(e: Env)

  /** What the source demands: a page below `KERNEL_BASE`, and of a process that ends a
      directory, which `pf_free_env` walks unasked. */
  predicate Enabled(s: Store, op: Op) {
    match op
    case AddPage(k, _) => k.page < PAGES
    case RemovePage(_) => true
    case FreeProcess(e) => e in s.dirs
  }

  ghost function Next(s: Store, op: Op): (t: Store)
    requires Inv(s) && Enabled(s, op)
    ensures Inv(t)
  {
    match op
    case AddPage(k, data) => AddTheorem(s, k, data); Add(s, k, data).1
    case RemovePage(k) => RemoveTheorem(s, k); Remove(s, k)
    case FreeProcess(e) => FreeEnvTheorem(s, e); FreeEnv(s, e)
  }

  ghost predicate IsRun(s: Store, ops: seq<Op>)
    requires Inv(s)
    decreases |ops|
  {
    ops == [] || (Enabled(s, ops[0]) && IsRun(Next(s, ops[0]), ops[1..]))
  }

  ghost function After(s: Store, ops: seq<Op>): (t: Store)
    requires Inv(s) && IsRun(s, ops)
    ensures Inv(t)
    decreases |ops|
  {
    if ops == [] then s else After(Next(s, ops[0]), ops[1..])
  }

  /** What the page file is to its callers: the pages it holds, and how many it can hold. */
  datatype Held = Held(pages: map<Slot, Content>, room: int)

  ghost function View(s: Store): (h: Held)
    requires OwnedOk(s)
  {
    Held(Contents(s), |s.disk| - 1 - |s.leaked|)
  }

  /** The pages of `e` that lie above user space. */
  ghost function High(c: map<Slot, Content>, e: Env): (r: set<Slot>) {
    set k | k in c && k.env == e && k.page >= USER_PAGES
  }

  /** The operations on a plain map: a new page is refused when there is no room, and the
      pages above user space of a freed process take their room with them. */
  ghost function Spec(h: Held, op: Op): (r: Held) {
    match op
    case AddPage(k, data) =>
      if k in h.pages || |h.pages| < h.room then Held(h.pages[k := data], h.room) else h
    case RemovePage(k) => Held(h.pages - {k}, h.room)
    case FreeProcess(e) => Held(map k | k in h.pages && k.env != e :: h.pages[k], h.room - |High(h.pages, e)|)
  }

  ghost function SpecRun(h: Held, ops: seq<Op>): (r: Held)
    decreases |ops|
  {
    if ops == [] then h else SpecRun(Spec(h, ops[0]), ops[1..])
  }

  lemma AddRefines(s: Store, k: Slot, data: Content)
    requires Inv(s) && k.page < PAGES
    ensures View(Next(s, AddPage(k, data))) == Spec(View(s), AddPage(k, data))
  {
    Conservation(s);
    AddTheorem(s, k, data);
    AddEntries(s, k, data);
  }

  lemma RemoveRefines(s: Store, k: Slot)
    requires Inv(s)
    ensures View(Next(s, RemovePage(k))) == Spec(View(s), RemovePage(k))
  {
    RemoveTheorem(s, k);
    RemoveEntries(s, k);
  }

  /** The frames lost with a process: one for each page above user space. */
  lemma LostFrames(s: Store, e: Env)
    requires Inv(s)
    ensures |FreeEnv(s, e).leaked| == |s.leaked| + |High(Contents(s), e)|
  {
    var high := High(Contents(s), e);
    forall k ensures k in Contents(s) <==> FrameAt(s, k) != 0 { ContentsAt(s, k); }
    ImageCard(s, high);
    var lost := set k | k in high :: FrameAt(s, k);
    forall f ensures f in lost <==> f in Beyond(s, e) { LostIff(s, e, f); }
    assert lost == Beyond(s, e);
    forall f | f in lost ensures f !in s.leaked { }
    PartitionCard(s.leaked, lost, {}, FreeEnv(s, e).leaked);
  }

  lemma LostIff(s: Store, e: Env, f: nat)
    requires Inv(s)
    ensures f in Beyond(s, e) <==> exists k :: k in High(Contents(s), e) && FrameAt(s, k) == f
  {
    if f in Beyond(s, e) {
      var p: nat :| USER_PAGES <= p < PAGES && FrameAt(s, Slot(e, p)) != 0 && FrameAt(s, Slot(e, p)) == f;
      var k := Slot(e, p);
      ContentsAt(s, k);
      assert k in High(Contents(s), e);
    }
    if k :| k in High(Contents(s), e) && FrameAt(s, k) == f {
      ContentsAt(s, k);
      OwnedIff(s, k);
      assert k == Slot(e, k.page);
    }
  }

  lemma FreeRefines(s: Store, e: Env)
    requires Inv(s) && e in s.dirs
    ensures View(Next(s, FreeProcess(e))) == Spec(View(s), FreeProcess(e))
  {
    FreePages(s, e);
    LostFrames(s, e);
  }

  lemma FreePages(s: Store, e: Env)
    requires Inv(s)
    ensures Inv(FreeEnv(s, e)) && Contents(FreeEnv(s, e)) == Spec(View(s), FreeProcess(e)).pages
  {
    FreeEnvTheorem(s, e);
    var t := FreeEnv(s, e);
    var c := Spec(View(s), FreeProcess(e)).pages;
    forall k ensures Holds(t, c, k) {
      ContentsAt(s, k);
      FreeEnvAt(s, e, k);
    }
    ContentsIs(t, c);
  }

  lemma NextRefines(s: Store, op: Op)
    requires Inv(s) && Enabled(s, op)
    ensures View(Next(s, op)) == Spec(View(s), op)
  {
    match op
    case AddPage(k, data) => AddRefines(s, k, data);
    case RemovePage(k) => RemoveRefines(s, k);
    case FreeProcess(e) => FreeRefines(s, e);
  }

  /** Over any run the page file is a plain map from pages to contents that refuses a new
      page only when it is full; free frames and pages held make up its room. */
  lemma {:induction false} RefinementTheorem(s: Store, ops: seq<Op>)
    requires Inv(s) && IsRun(s, ops)
    ensures View(After(s, ops)) == SpecRun(View(s), ops)
    ensures |After(s, ops).free| + |SpecRun(View(s), ops).pages| == SpecRun(View(s), ops).room
    decreases |ops|
  {
    if ops == [] {
      Conservation(s);
    } else {
      NextRefines(s, ops[0]);
      RefinementTheorem(Next(s, ops[0]), ops[1..]);
    }
  }

  // ----- runs on user pages

  /** The operation leaves nothing at or above `USER_TOP` in the page file. */
  predicate BelowTop(op: Op) { op.AddPage? ==> op.k.page < USER_PAGES }

  predicate IsUserRun(ops: seq<Op>) { ops == [] || (BelowTop(ops[0]) && IsUserRun(ops[1..])) }

  ghost predicate AllBelowTop(c: map<Slot, Content>) { forall k :: k in c ==> k.page < USER_PAGES }

  /** Nothing above user space, so no room is ever lost. */
  lemma {:induction false} UserRunKeepsRoom(h: Held, ops: seq<Op>)
    requires AllBelowTop(h.pages) && IsUserRun(ops)
    ensures AllBelowTop(SpecRun(h, ops).pages) && SpecRun(h, ops).room == h.room
    decreases |ops|
  {
    if ops != [] {
      if ops[0].FreeProcess? { assert High(h.pages, ops[0].e) == {}; }
      UserRunKeepsRoom(Spec(h, ops[0]), ops[1..]);
    }
  }

  /** On user pages the page file keeps its whole room: free frames and pages held always
      add up to what they did at the start. */
  lemma PageFileTheorem(s: Store, ops: seq<Op>)
    requires Inv(s) && AllBelowTop(Contents(s)) && IsRun(s, ops) && IsUserRun(ops)
    ensures var t := After(s, ops);
      && Contents(t) == SpecRun(View(s), ops).pages
      && |t.free| + |Contents(t)| == |s.disk| - 1 - |s.leaked|
  {
    RefinementTheorem(s, ops);
    UserRunKeepsRoom(View(s), ops);
  }

  // ----- reading back

  predicate Touches(op: Op, k: Slot) {
    match op
    case AddPage(j, _) => j == k
    case RemovePage(j) => j == k
    case FreeProcess(e) => e == k.env
  }

  predicate LeavesAlone(ops: seq<Op>, k: Slot) { ops == [] || (!Touches(ops[0], k) && LeavesAlone(ops[1..], k)) }

  lemma {:induction false} OthersLeaveAlone(h: Held, ops: seq<Op>, k: Slot)
    requires LeavesAlone(ops, k)
    ensures k in SpecRun(h, ops).pages <==> k in h.pages
    ensures k in h.pages ==> SpecRun(h, ops).pages[k] == h.pages[k]
    decreases |ops|
  {
    if ops != [] { OthersLeaveAlone(Spec(h, ops[0]), ops[1..], k); }
  }

  /** A run that leaves `k` alone leaves what is read there alone, data or nothing. */
  lemma ReadAfter(s: Store, k: Slot, ops: seq<Op>)
    requires Inv(s) && IsRun(s, ops) && LeavesAlone(ops, k)
    ensures FrameAt(s, k) < |s.disk| && FrameAt(After(s, ops), k) < |After(s, ops).disk|
    ensures Read(After(s, ops), k) == Read(s, k)
  {
    RefinementTheorem(s, ops);
    OthersLeaveAlone(View(s), ops, k);
    ReadIs(s, k);
    ReadIs(After(s, ops), k);
  }

  /** What was added last is what is read, after any operations on other pages and other
      processes, full page file or not. */
  lemma ReadBack(s: Store, k: Slot, data: Content, ops: seq<Op>)
    requires Inv(s) && k.page < PAGES && Add.requires(s, k, data) && Add(s, k, data).0 == Added
    requires IsRun(Next(s, AddPage(k, data)), ops) && LeavesAlone(ops, k)
    ensures var t := After(Next(s, AddPage(k, data)), ops);
      FrameAt(t, k) < |t.disk| && Read(t, k) == Data(data)
  {
    AddTheorem(s, k, data);
    ReadIs(Next(s, AddPage(k, data)), k);
    ReadAfter(Next(s, AddPage(k, data)), k, ops);
  }

  // ----- which frames

  /** The free frames are a stack: a new page takes the first, and a removed one puts its frame
      back in front. */
  lemma FramesStack(s: Store, k: Slot, data: Content)
    requires Inv(s) && k.page < PAGES
    ensures Add.requires(s, k, data)
    ensures var t := Add(s, k, data).1;
      if k in Contents(s) then t.free == s.free && FrameAt(t, k) == FrameAt(s, k)
      else if s.free == [] then t.free == []
      else t.free == s.free[1..] && FrameAt(t, k) == s.free[0]
    ensures Remove(s, k).free == (if k in Contents(s) then [FrameAt(s, k)] else []) + s.free
  {
    AddTheorem(s, k, data);
    AddEntries(s, k, data);
    ContentsAt(s, k);
  }

  /** The frames of the pages of `e` below page `n`, in page order. */
  function FramesBelow(s: Store, e: Env, n: nat): (r: seq<nat>) {
    if n == 0 then []
    else FramesBelow(s, e, n - 1) + if FrameAt(s, Slot(e, n - 1)) != 0 then [FrameAt(s, Slot(e, n - 1))] else []
  }

  lemma {:induction false} ReturnedIs(s: Store, e: Env, n: nat)
    ensures Returned(s, e, n) == Reverse(FramesBelow(s, e, n)) + s.free
  {
    if n > 0 {
      ReturnedIs(s, e, n - 1);
      var f, rest := FrameAt(s, Slot(e, n - 1)), FramesBelow(s, e, n - 1);
      if f != 0 {
        ReverseAppend(rest, f);
        AppendAssociative([f], Reverse(rest), s.free);
      } else {
        assert rest + [] == rest;
      }
    }
  }

  /** At the end of a process its user frames go back one by one in page order, so the last
      page's is the first to be used again. */
  lemma FreedOrder(s: Store, e: Env)
    ensures FreeEnv(s, e).free == Reverse(FramesBelow(s, e, USER_PAGES)) + s.free
  {
    ReturnedIs(s, e, USER_PAGES);
  }

  // ----- start

  /** `initialize_disk_page_file`: all frames but 0 are free, the last one first. */
  function Fresh(disk: seq<Content>): (s: Store)
    requires |disk| > 0
  {
    Store(Countdown(|disk| - 1), disk, map[], {})
  }

  function Countdown(n: nat): (r: seq<nat>)
    ensures |r| == n && forall i :: 0 <= i < n ==> r[i] == n - i
  {
    if n == 0 then [] else [n] + Countdown(n - 1)
  }

  lemma FreshInv(disk: seq<Content>)
    requires |disk| > 0
    ensures Inv(Fresh(disk)) && Contents(Fresh(disk)) == map[] && AllBelowTop(Contents(Fresh(disk)))
  {
    var s := Fresh(disk);
    forall f | IsFrame(s, f) ensures f in s.free { assert s.free[|disk| - 1 - f] == f; }
    forall k ensures FrameAt(s, k) == 0 { }
    assert Owned(s) == {};
  }

  /** One page at `USER_TOP`, then the end of the process: a frame is gone. */
  lemma LeakExample()
    ensures exists s: Store, e ::
      && Inv(s) && s.leaked == {}
      && Inv(FreeEnv(s, e))
      && |FreeEnv(s, e).free| + |Contents(FreeEnv(s, e))| < |s.disk| - 1
  {
    var s0 := Fresh([[], []]);
    FreshInv([[], []]);
    var k := Slot(1, USER_PAGES);
    AddTheorem(s0, k, []);
    AddRefines(s0, k, []);
    var s := Add(s0, k, []).1;
    assert k in Contents(s);
    FreeEnvTheorem(s, 1);
    var t := FreeEnv(s, 1);
    Conservation(t);
    LeakCounts(t.leaked);
  }

  lemma LeakCounts(leaked: set<nat>)
    requires leaked != {}
    ensures |leaked| > 0
  {
  }
}
