/** The page file's code: free list, directories, tables and disk updated in place. */
module PageFileManager {
  import opened Seqs
  import opened PageFile

  class Manager {
    var free: seq<nat>
    const disk: array<Content>
    var dirs: map<Env, Dir>
    ghost var leaked: set<nat>

    ghost function State(): (s: Store)
      reads this, disk
    {
      Store(free, disk[..], dirs, leaked)
    }

    ghost predicate Valid()
      reads this, disk
    {
      Inv(State())
    }

    /** `initialize_disk_page_file`. */
    constructor (pages: array<Content>)
      requires pages.Length > 0
      ensures disk == pages && Valid() && State() == Fresh(pages[..])
    {
      disk, dirs, leaked := pages, map[], {};
      var list: seq<nat> := [];
      var i := 1;
      while i < pages.Length
        invariant 1 <= i <= pages.Length && list == Countdown(i - 1)
      {
        list := [i] + list;
        i := i + 1;
      }
      free := list;
      new;
      FreshInv(disk[..]);
    }

    /** `allocate_disk_frame`. */
    method AllocateDiskFrame() returns (f: Option<nat>)
      modifies this`free
      ensures old(free) == [] ==> f == None && free == []
      ensures old(free) != [] ==> f == Some(old(free)[0]) && free == old(free)[1..]
    {
      if free == [] { return None; }
      f := Some(free[0]);
      free := free[1..];
    }

    /** `free_disk_frame`: frame 0 stands for no frame. */
    method FreeDiskFrame(f: nat)
      modifies this`free
      ensures free == if f == 0 then old(free) else [f] + old(free)
    {
      if f == 0 { return; }
      free := [f] + free;
    }

    /** `get_disk_page_directory` and `get_disk_page_table` with `create`. */
    method EnsureTable(k: Slot)
      modifies this`dirs
      ensures State() == WithTable(old(State()), k)
    {
      var d: nat := k.page / 1024;
      var dir := if k.env in dirs then dirs[k.env] else map[];
      if d !in dir { dir := PutTable(dir, d, Blank()); }
      dirs := dirs[k.env := dir];
    }

    method WriteEntry(k: Slot, f: nat)
      requires HasTable(State(), k)
      modifies this`dirs
      ensures State() == SetEntry(old(State()), k, f)
    {
      var d: nat := k.page / 1024;
      var dir := dirs[k.env];
      dirs := dirs[k.env := PutTable(dir, d, dir[d][k.page % 1024 := f])];
    }

    method ReadEntry(k: Slot) returns (f: nat)
      requires HasTable(State(), k)
      ensures f == FrameAt(State(), k)
    {
      f := dirs[k.env][k.page / 1024][k.page % 1024];
    }

    /** `pf_add_env_page`. */
    method AddEnvPage(k: Slot, data: Content) returns (r: AddResult)
      requires Valid() && k.page < PAGES
      modifies this`free, this`dirs, disk
      ensures Add.requires(old(State()), k, data) && (r, State()) == Add(old(State()), k, data)
      ensures Valid()
    {
      ghost var s := State();
      AddTheorem(s, k, data);
      EnsureTable(k);
      var f := ReadEntry(k);
      if f == 0 {
        var got := AllocateDiskFrame();
        if got == None { return NoSpace; }
        f := got.value;
        assert f in s.free;
        WriteEntry(k, f);
      }
      disk[f] := data;
      return Added;
    }

    /** `pf_read_env_page`: the page that holds the address, if it is in the page file. */
    method ReadEnvPage(k: Slot) returns (r: ReadResult)
      requires Valid()
      ensures FrameAt(State(), k) < |State().disk| && r == Read(State(), k)
    {
      ReadIs(State(), k);
      if k.env !in dirs || k.page / 1024 !in dirs[k.env] { return NotInPageFile; }
      var f := ReadEntry(k);
      if f == 0 { return NotInPageFile; }
      return Data(disk[f]);
    }

    /** `pf_remove_env_page`. */
    method RemoveEnvPage(k: Slot)
      requires Valid()
      modifies this`free, this`dirs
      ensures State() == Remove(old(State()), k) && Valid()
    {
      RemoveTheorem(State(), k);
      if k.env !in dirs || k.page / 1024 !in dirs[k.env] { return; }
      var f := ReadEntry(k);
      WriteEntry(k, 0);
      FreeDiskFrame(f);
    }

    /** The inner loop of `pf_free_env`: clear one table and free its frames. */
    method FreeTable(e: Env, d: nat, ghost s: Store)
      requires e in dirs && d in dirs[e] && e in s.dirs && d in s.dirs[e]
      requires dirs[e][d] == s.dirs[e][d] && |s.dirs[e][d]| == 1024
      requires free == Returned(s, e, d * 1024)
      modifies this`free, this`dirs
      ensures e in dirs && dirs == old(dirs)[e := dirs[e]] && dirs[e] - {d} == old(dirs)[e] - {d}
      ensures free == Returned(s, e, (d + 1) * 1024)
    {
      var table := dirs[e][d];
      var i := 0;
      while i < 1024
        invariant 0 <= i <= 1024 && |table| == 1024
        invariant forall j :: i <= j < 1024 ==> table[j] == s.dirs[e][d][j]
        invariant e in dirs && dirs == old(dirs)[e := dirs[e]] && dirs[e] - {d} == old(dirs)[e] - {d}
        invariant free == Returned(s, e, d * 1024 + i)
      {
        var f := table[i];
        ScanStep(s, e, d, i, f);
        table := table[i := 0];
        dirs := dirs[e := PutTable(dirs[e], d, table)];
        FreeDiskFrame(f);
        i := i + 1;
      }
    }

    /** One turn of the outer loop of `pf_free_env`: free table `d`, if it exists. */
    method ReleaseTable(e: Env, d: nat, ghost s: Store)
      requires e in s.dirs && e in dirs && dirs == s.dirs[e := dirs[e]]
      requires d in s.dirs[e] ==> |s.dirs[e][d]| == 1024
      requires Untouched(dirs[e], s.dirs[e], d)
      requires free == Returned(s, e, d * 1024)
      modifies this`free, this`dirs
      ensures e in dirs && dirs == s.dirs[e := dirs[e]] && Untouched(dirs[e], s.dirs[e], d + 1)
      ensures free == Returned(s, e, (d + 1) * 1024)
    {
      if d in dirs[e] {
        FreeTable(e, d, s);
        var dir: Dir := dirs[e] - {d};
        dirs := dirs[e := dir];
      } else {
        ScanNoTable(s, e, d, 1024);
      }
    }

    /** `pf_free_env` of a process with a directory. */
    method FreeProcess(e: Env)
      requires Valid() && e in dirs
      modifies this
      ensures State() == FreeEnv(old(State()), e) && Valid()
    {
      ghost var s := State();
      var d := 0;
      while d < USER_TABLES
        invariant 0 <= d <= USER_TABLES
        invariant e in dirs && dirs == s.dirs[e := dirs[e]] && Untouched(dirs[e], s.dirs[e], d)
        invariant leaked == s.leaked
        invariant free == Returned(s, e, d * 1024)
      {
        TableLength(s, e, d);
        ReleaseTable(e, d, s);
        d := d + 1;
      }
      dirs := dirs - {e};
      leaked := leaked + Beyond(s, e);
      assert dirs == s.dirs - {e};
      assert State() == FreeEnv(s, e);
      FreeEnvInv(s, e);
    }

    /** The inner loop of `pf_calculate_allocated_pages`, over table `d` of `e`. */
    static method CountTable(table: seq<nat>, ghost s: Store, ghost e: Env, ghost d: nat) returns (n: nat)
      requires e in s.dirs && d in s.dirs[e] && table == s.dirs[e][d] && |table| == 1024
      ensures n == Count(s, e, (d + 1) * 1024) - Count(s, e, d * 1024)
    {
      n := 0;
      var i := 0;
      while i < 1024
        invariant 0 <= i <= 1024
        invariant n == Count(s, e, d * 1024 + i) - Count(s, e, d * 1024)
      {
        ScanStep(s, e, d, i, table[i]);
        if table[i] != 0 { n := n + 1; }
        i := i + 1;
      }
    }

    /** `pf_calculate_allocated_pages` of a process with a directory. */
    method CalculateAllocatedPages(e: Env) returns (n: nat)
      requires Valid() && e in dirs
      ensures n == |set k | k in Contents(State()) && k.env == e && k.page < USER_PAGES|
    {
      ghost var s := State();
      n := 0;
      var d := 0;
      while d < USER_TABLES
        invariant 0 <= d <= USER_TABLES
        invariant n == Count(s, e, d * 1024)
      {
        if d in dirs[e] {
          TableLength(s, e, d);
          var m := CountTable(dirs[e][d], s, e, d);
          n := n + m;
        } else {
          ScanNoTable(s, e, d, 1024);
        }
        d := d + 1;
      }
      CounterTheorem(s, e);
    }

    /** `pf_calculate_free_frames`. */
    method CalculateFreeFrames() returns (n: nat)
      requires Valid()
      ensures n == |State().disk| - 1 - |Contents(State())| - |leaked|
    {
      Conservation(State());
      n := |free|;
    }
  }

  /** The tables from `d` on are as they were. */
  ghost predicate Untouched(dir: Dir, dir0: Dir, d: nat) {
    forall j: nat :: j >= d ==> (j in dir <==> j in dir0) && (j in dir ==> dir[j] == dir0[j])
  }

  lemma FreeEnvInv(s: Store, e: Env)
    requires Inv(s)
    ensures Inv(FreeEnv(s, e))
  {
    FreeEnvTheorem(s, e);
  }

  lemma TableLength(s: Store, e: Env, d: nat)
    requires Inv(s) && e in s.dirs
    ensures d in s.dirs[e] ==> |s.dirs[e][d]| == 1024
  {
  }

  lemma SplitPage(d: nat, i: nat)
    requires i < 1024
    ensures (d * 1024 + i) / 1024 == d && (d * 1024 + i) % 1024 == i
  {
  }

  /** One turn of the inner loops. */
  lemma ScanStep(s: Store, e: Env, d: nat, i: nat, f: nat)
    requires e in s.dirs && d in s.dirs[e] && |s.dirs[e][d]| == 1024 && i < 1024 && f == s.dirs[e][d][i]
    ensures Returned(s, e, d * 1024 + i + 1) == (if f != 0 then [f] else []) + Returned(s, e, d * 1024 + i)
    ensures Count(s, e, d * 1024 + i + 1) == Count(s, e, d * 1024 + i) + if f != 0 then 1 else 0
  {
    SplitPage(d, i);
    assert FrameAt(s, Slot(e, d * 1024 + i)) == f;
  }

  /** A missing table adds nothing. */
  lemma {:induction false} ScanNoTable(s: Store, e: Env, d: nat, i: nat)
    requires i <= 1024 && (e in s.dirs ==> d !in s.dirs[e])
    ensures Returned(s, e, d * 1024 + i) == Returned(s, e, d * 1024)
    ensures Count(s, e, d * 1024 + i) == Count(s, e, d * 1024)
  {
    if i > 0 {
      ScanNoTable(s, e, d, i - 1);
      SplitPage(d, i - 1);
      assert FrameAt(s, Slot(e, d * 1024 + i - 1)) == 0;
    }
  }
}
