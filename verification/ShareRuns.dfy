/** Sharing as callers see it: what the arguments and results of the calls of a run say about
    the pages that processes end up with. */
module ShareRuns {
  import opened Seqs
  import opened Memory
  import opened Shares

  /** `x` is the object that this call has created. */
  ghost predicate MadeBy(x: Share, op: Shares.Op) {
    && op.DoCreate? && op.cr == Created(x.id) && x.owner == op.owner && x.name == op.name
    && x.size == op.size && x.writable == op.writable
  }

  /** The same object, possibly attached more often. */
  predicate SameObject(x: Share, y: Share) { y == x.(refs := y.refs) }

  /** `t` has every object and every attachment of `s`. */
  ghost predicate Carries(s: Sys, t: Sys) {
    && |s.atts| <= |t.atts| && t.atts[..|s.atts|] == s.atts
    && (forall x :: x in s.shares ==> exists y :: y in t.shares && SameObject(x, y))
  }

  lemma StepCarries(s: Sys, op: Shares.Op, spots: map<Key, nat>, t: Sys)
    requires Step(s, op, spots, t)
    ensures Carries(s, t)
  {
    match op
    case DoCreate(owner, name, size, writable, dir, va, id, r) =>
      forall x | x in s.shares ensures exists y :: y in t.shares && SameObject(x, y) {
        assert x in t.shares && SameObject(x, x);
      }
    case DoGet(owner, name, dir, page, r) =>
      forall x | x in s.shares ensures exists y :: y in t.shares && SameObject(x, y) {
        var i :| 0 <= i < |s.shares| && s.shares[i] == x;
        assert t.shares[i] in t.shares && SameObject(x, t.shares[i]);
      }
    case DoMemory(mop) =>
      forall x | x in s.shares ensures exists y :: y in t.shares && SameObject(x, y) { assert SameObject(x, x); }
  }

  predicate Named(x: Share, id: int, owner: int, name: string) { x.id == id && x.owner == owner && x.name == name }

  /** What a successful call leaves behind at once. */
  ghost predicate Recorded(s: Sys, op: Shares.Op) {
    match op
    case DoCreate(_, _, _, _, dir, va, _, r) =>
      r.Created? ==> Att(r.id, dir, va / PAGE, false) in s.atts && (exists x :: x in s.shares && MadeBy(x, op))
    case DoGet(owner, name, dir, page, r) =>
      r.Got? ==> Att(r.id, dir, page, true) in s.atts && (exists x :: x in s.shares && Named(x, r.id, owner, name))
    case DoMemory(_) => true
  }

  lemma StepRecords(s: Sys, op: Shares.Op, spots: map<Key, nat>, t: Sys)
    requires Step(s, op, spots, t)
    ensures Recorded(t, op)
  {
    match op
    case DoCreate(owner, name, size, writable, dir, va, id, r) =>
      if r.Created? {
        assert t.shares[0] in t.shares && MadeBy(t.shares[0], op);
        assert t.atts[|s.atts|] in t.atts;
      }
    case DoGet(owner, name, dir, page, r) =>
      if r.Got? {
        var x := Find(s.shares, owner, name).value;
        assert t.shares[x] in t.shares && Named(t.shares[x], r.id, owner, name);
        assert t.atts[|s.atts|] in t.atts;
      }
    case DoMemory(mop) =>
  }

  lemma StillRecorded(s: Sys, t: Sys, op: Shares.Op)
    requires Carries(s, t) && Recorded(s, op)
    ensures Recorded(t, op)
  {
    assert forall a :: a in s.atts ==> a in t.atts by {
      forall a | a in s.atts ensures a in t.atts { assert a in t.atts[..|s.atts|]; }
    }
    match op
    case DoCreate(owner, name, size, writable, dir, va, id, r) =>
      if r.Created? {
        var x :| x in s.shares && MadeBy(x, op);
        var y :| y in t.shares && SameObject(x, y);
        assert MadeBy(y, op);
      }
    case DoGet(owner, name, dir, page, r) =>
      if r.Got? {
        var x :| x in s.shares && Named(x, r.id, owner, name);
        var y :| y in t.shares && SameObject(x, y);
        assert Named(y, r.id, owner, name);
      }
    case DoMemory(mop) =>
  }

  /** The calls before state `i` are on record in it. */
  lemma {:induction false} AllRecorded(ss: seq<Sys>, ops: seq<Shares.Op>, spots: seq<map<Key, nat>>, i: nat, j: nat)
    requires Shares.IsRun(ss, ops, spots) && j < i < |ss|
    ensures Recorded(ss[i], ops[j])
  {
    var p := i - 1;
    assert Step(ss[p], ops[p], spots[p], ss[i]);
    if j == p {
      StepRecords(ss[p], ops[p], spots[p], ss[i]);
    } else {
      AllRecorded(ss, ops, spots, p, j);
      StepCarries(ss[p], ops[p], spots[p], ss[i]);
      StillRecorded(ss[p], ss[i], ops[j]);
    }
  }

  /** Every object has been created by some call of the run. */
  lemma {:induction false} Origin(ss: seq<Sys>, ops: seq<Shares.Op>, spots: seq<map<Key, nat>>, i: nat, x: Share)
    returns (j: nat)
    requires Shares.IsRun(ss, ops, spots) && ss[0].shares == [] && i < |ss| && x in ss[i].shares
    ensures j < i && MadeBy(x, ops[j])
  {
    var p := i - 1;
    assert i > 0;
    assert Step(ss[p], ops[p], spots[p], ss[i]);
    var y := StepOrigin(ss[p], ops[p], spots[p], ss[i], x);
    if MadeBy(x, ops[p]) {
      j := p;
    } else {
      j := Origin(ss, ops, spots, p, y);
    }
  }

  lemma StepOrigin(s: Sys, op: Shares.Op, spots: map<Key, nat>, t: Sys, x: Share) returns (y: Share)
    requires Step(s, op, spots, t) && x in t.shares
    ensures MadeBy(x, op) || (y in s.shares && SameObject(x, y))
  {
    y := x;
    match op
    case DoCreate(owner, name, size, writable, dir, va, id, r) =>
    case DoGet(owner, name, dir, page, r) =>
      if r.Got? {
        var i :| 0 <= i < |t.shares| && t.shares[i] == x;
        y := s.shares[i];
        assert y in s.shares;
      }
    case DoMemory(mop) =>
  }

  ghost predicate StartsEmpty(s: Sys) { RefInv(s.m) && s.shares == [] && s.atts == [] }

  /** A create finds the name taken exactly if an earlier create of that owner with that name
      has succeeded, and a get finds nothing exactly if none has. */
  lemma ResultsTheorem(ss: seq<Sys>, ops: seq<Shares.Op>, spots: seq<map<Key, nat>>, i: nat)
    requires Shares.IsRun(ss, ops, spots) && StartsEmpty(ss[0]) && i < |ops|
    ensures ops[i].DoCreate? ==> (ops[i].cr == AlreadyExists <==> NameTaken(ops[..i], ops[i].owner, ops[i].name))
    ensures ops[i].DoGet? ==> (ops[i].gr == DoesNotExist <==> !NameTaken(ops[..i], ops[i].owner, ops[i].name))
  {
    var j := i + 1;
    assert Step(ss[i], ops[i], spots[i], ss[j]);
    if ops[i].DoCreate? { TakenIff(ss, ops, spots, i, ops[i].owner, ops[i].name); }
    if ops[i].DoGet? { TakenIff(ss, ops, spots, i, ops[i].owner, ops[i].name); }
  }

  ghost predicate NameTaken(ops: seq<Shares.Op>, owner: int, name: string) {
    exists j :: 0 <= j < |ops| && Makes(ops[j], owner, name)
  }

  predicate Makes(op: Shares.Op, owner: int, name: string) {
    op.DoCreate? && op.cr.Created? && op.owner == owner && op.name == name
  }

  lemma TakenIff(ss: seq<Sys>, ops: seq<Shares.Op>, spots: seq<map<Key, nat>>, i: nat, owner: int, name: string)
    requires Shares.IsRun(ss, ops, spots) && StartsEmpty(ss[0]) && i < |ops|
    ensures Find(ss[i].shares, owner, name).Some? <==> NameTaken(ops[..i], owner, name)
  {
    var q := ss[i].shares;
    if Find(q, owner, name).Some? {
      var j := Origin(ss, ops, spots, i, q[Find(q, owner, name).value]);
      assert ops[..i][j] == ops[j] && Makes(ops[..i][j], owner, name);
    }
    if NameTaken(ops[..i], owner, name) {
      var j :| 0 <= j < i && Makes(ops[..i][j], owner, name);
      AllRecorded(ss, ops, spots, i, j);
      var x :| x in q && MadeBy(x, ops[j]);
      FindFinds(q, x);
    }
  }

  lemma FindFinds(q: seq<Share>, x: Share)
    requires x in q
    ensures Find(q, x.owner, x.name).Some?
  {
  }

  // ----- one page, two processes

  /** `k` and `l` map the same frame. */
  ghost predicate SameFrame(m: Mem, k: Key, l: Key) {
    IsPresent(m, k) && IsPresent(m, l) && EntryAt(m, k).frame == EntryAt(m, l).frame
  }

  lemma ShareOf(s: Sys, id: int, x: Share, y: Share)
    requires Shares.Inv(s) && x in s.shares && y in s.shares && x.id == id && y.id == id
    ensures x == y
  {
    var i :| 0 <= i < |s.shares| && s.shares[i] == x;
    var j :| 0 <= j < |s.shares| && s.shares[j] == y;
    SameId(s.shares, i, j);
  }

  /** What an attachment in the invariant maps at its page `n`. */
  lemma MapsPage(s: Sys, x: Share, a: Att, n: nat)
    requires Shares.Inv(s) && x in s.shares && a in s.atts && a.id == x.id && n < FramesFor(x.size)
    ensures n < |x.frames| && var k := Spot(a.dir, a.page, n);
      && IsPresent(s.m, k) && EntryAt(s.m, k).frame == x.frames[n]
      && USER in EntryAt(s.m, k).bits && (WRITEABLE in EntryAt(s.m, k).bits <==> !a.viaGet || x.writable)
  {
    var i :| 0 <= i < |s.shares| && s.shares[i] == x;
    var j :| 0 <= j < |s.atts| && s.atts[j] == a;
    assert ShareOk(s.m, s.shares[i], s.atts);
    assert AttOk(s.m, s.shares[i], s.atts[j]);
    assert Linked(s.m, x.frames[n], Spot(a.dir, a.page, n), if a.viaGet then GetPerm(x.writable) else CREATE_PERM);
  }

  /** A get that succeeds has a create before it that succeeded with the same owner and name,
      and no other has the identity it returns. */
  lemma GetHasCreate(ss: seq<Sys>, ops: seq<Shares.Op>, spots: seq<map<Key, nat>>, g: nat) returns (c: nat)
    requires Shares.IsRun(ss, ops, spots) && StartsEmpty(ss[0]) && g < |ops| && ops[g].DoGet? && ops[g].gr.Got?
    ensures c < g && Makes(ops[c], ops[g].owner, ops[g].name) && ops[c].cr.id == ops[g].gr.id
  {
    var n := g + 1;
    assert Step(ss[g], ops[g], spots[g], ss[n]);
    var x := Find(ss[g].shares, ops[g].owner, ops[g].name).value;
    c := Origin(ss, ops, spots, g, ss[g].shares[x]);
  }

  /** Over all runs from no objects: once a process has created an object and a process has
      got one of that identity, the page of byte `x` of the second range maps the frame that
      the page of byte `x` of the first maps; user code may read both, the creator may write,
      and the other exactly if the creator said so. */
  lemma SharingTheorem(ss: seq<Sys>, ops: seq<Shares.Op>, spots: seq<map<Key, nat>>, c: nat, g: nat, x: nat)
    requires Shares.IsRun(ss, ops, spots) && StartsEmpty(ss[0]) && c < |ops| && g < |ops|
    requires ops[c].DoCreate? && ops[c].cr.Created? && ops[g].DoGet? && ops[g].gr == Got(ops[c].cr.id)
    requires x < ops[c].size <= 0xFFFFF000
    ensures ops[g].owner == ops[c].owner && ops[g].name == ops[c].name
    ensures var m := ss[|ops|].m;
      var k := Key(ops[c].dir, (ops[c].va + x) / PAGE); var l := Key(ops[g].dir, ops[g].page + x / PAGE);
      && SameFrame(m, k, l)
      && USER in EntryAt(m, k).bits && USER in EntryAt(m, l).bits
      && WRITEABLE in EntryAt(m, k).bits && (WRITEABLE in EntryAt(m, l).bits <==> ops[c].writable)
  {
    assert Shares.Inv(ss[0]);
    RunInv(ss, ops, spots, |ops|);
    AllRecorded(ss, ops, spots, |ops|, c);
    AllRecorded(ss, ops, spots, |ops|, g);
    FramesForIs(ops[c].size);
    assert ops[c].va % PAGE == 0 by {
      var j := c + 1;
      assert Step(ss[c], ops[c], spots[c], ss[j]);
    }
    assert (ops[c].va + x) / PAGE == ops[c].va / PAGE + x / PAGE;
    SharedPage(ss[|ops|], ops[c], ops[g], x / PAGE);
  }

  lemma SharedPage(s: Sys, made: Shares.Op, got: Shares.Op, n: nat)
    requires Shares.Inv(s) && Recorded(s, made) && Recorded(s, got)
    requires made.DoCreate? && made.cr.Created? && got.DoGet? && got.gr == Got(made.cr.id) && n < FramesFor(made.size)
    ensures got.owner == made.owner && got.name == made.name
    ensures var k := Key(made.dir, made.va / PAGE + n); var l := Key(got.dir, got.page + n);
      && SameFrame(s.m, k, l)
      && USER in EntryAt(s.m, k).bits && USER in EntryAt(s.m, l).bits
      && WRITEABLE in EntryAt(s.m, k).bits && (WRITEABLE in EntryAt(s.m, l).bits <==> made.writable)
  {
    var x :| x in s.shares && MadeBy(x, made);
    var y :| y in s.shares && Named(y, got.gr.id, got.owner, got.name);
    ShareOf(s, x.id, x, y);
    MapsPage(s, x, Att(x.id, made.dir, made.va / PAGE, false), n);
    MapsPage(s, x, Att(x.id, got.dir, got.page, true), n);
  }
}
