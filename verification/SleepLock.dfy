/** The sleep lock under any interleaving of its callers. */
module SleepLock {
  import opened Seqs
  import opened Channel

  /** Program points of `acquire_sleeplock` and `release_sleeplock`. */
  datatype Pc =
    | Idle
    | Test                  // acquire: holds lk, at the loop test
    | Sleeping(at: SleepPc) // acquire: inside sleep
    | AcquireExit           // acquire: holds lk, about to release it and return
    | Check                 // release: holds lk
    | WakeTakeQ             // wakeup_all: holds lk, about to acquire qlock
    | WakeLoop              // wakeup_all: holds lk and qlock
    | WakeDropQ             // wakeup_all: holds lk and qlock, about to release qlock
    | ReleaseExit           // release: holds lk, about to release it and return

  /** `holders` records who has acquired the lock and not effectively released it. */
  datatype Lock = Lock(c: Chan, locked: bool, pid: Pid, pcs: map<Pid, Pc>, holders: set<Pid>)

  datatype Action = CallAcquire(p: Pid) | CallRelease(p: Pid) | Advance(p: Pid) | TakeQlock | ReturnQlock

  const Initial: Lock := Lock(Unused, false, 0, map[], {})

  function At(s: Lock, p: Pid): (r: Pc) { if p in s.pcs then s.pcs[p] else Idle }

  predicate HoldsLk(pc: Pc) {
    match pc
    case Idle => false
    case Sleeping(at) => SleeperHoldsLk(at)
    case _ => true
  }

  predicate HoldsQ(pc: Pc) {
    match pc
    case Sleeping(at) => SleeperHoldsQ(at)
    case _ => pc == WakeLoop || pc == WakeDropQ
  }

  /** Any process may call either operation at any time, whether or not it holds the
      lock. Environment ids are not zero: zero marks a free lock. */
  predicate Enabled(s: Lock, a: Action) {
    match a
    case CallAcquire(p) => p != 0 && At(s, p) == Idle && s.c.lk == None
    case CallRelease(p) => p != 0 && At(s, p) == Idle && s.c.lk == None
    case TakeQlock => s.c.qlock == QFree
    case ReturnQlock => s.c.qlock == QOther
    case Advance(p) =>
      match At(s, p)
      case Idle => false
      case Sleeping(at) => SleepEnabled(s.c, at)
      case WakeTakeQ => s.c.qlock == QFree
      case _ => true
  }

  function Goto(s: Lock, p: Pid, pc: Pc): (r: Lock) { s.(pcs := s.pcs[p := pc]) }

  /** One step of the process `p`. */
  function Stepped(s: Lock, p: Pid): (r: Lock) {
    match At(s, p)
    case Idle => s
    case Test =>
      if s.locked then Goto(s, p, Sleeping(TakeQ))
      else Goto(s, p, AcquireExit).(locked := true, pid := p, holders := s.holders + {p})
    case Sleeping(at) =>
      Goto(s, p, if SleepNext(at).Some? then Sleeping(SleepNext(at).value) else Test).(c := SleepChan(s.c, p, at))
    case AcquireExit => Goto(s, p, Idle).(c := s.c.(lk := None))
    case Check =>
      if s.locked && s.pid == p
      then Goto(s, p, WakeTakeQ).(locked := false, pid := 0, holders := s.holders - {p})
      else Goto(s, p, ReleaseExit)
    case WakeTakeQ => Goto(s, p, WakeLoop).(c := s.c.(qlock := QProc(p)))
    case WakeLoop =>
      if s.c.queue == [] then Goto(s, p, WakeDropQ)
      else Goto(s, Oldest(s.c), Sleeping(Resumable)).(c := Dequeued(s.c))
    case WakeDropQ => Goto(s, p, ReleaseExit).(c := s.c.(qlock := QFree))
    case ReleaseExit => Goto(s, p, Idle).(c := s.c.(lk := None))
  }

  function Next(s: Lock, a: Action): (r: Lock) {
    match a
    case CallAcquire(p) => Goto(s, p, Test).(c := s.c.(lk := Some(p)))
    case CallRelease(p) => Goto(s, p, Check).(c := s.c.(lk := Some(p)))
    case Advance(p) => Stepped(s, p)
    case TakeQlock => s.(c := s.c.(qlock := QOther))
    case ReturnQlock => s.(c := s.c.(qlock := QFree))
  }

  // ----- invariants

  ghost predicate LocksMatch(s: Lock) {
    && (forall p :: HoldsLk(At(s, p)) <==> s.c.lk == Some(p))
    && (forall p :: HoldsQ(At(s, p)) <==> s.c.qlock == QProc(p))
  }

  ghost predicate QueueMatches(s: Lock) {
    && Orderly(s.c)
    && (forall p :: p in s.c.queue <==> At(s, p) == Sleeping(Asleep))
  }

  /** `p` has seen the lock taken and is on its way into the queue. */
  ghost predicate IsMoving(s: Lock, p: Pid) {
    At(s, p) in {Sleeping(TakeQ), Sleeping(DropLk), Sleeping(Enroll)}
  }

  /** A release that has freed the lock and has not emptied the queue yet. */
  ghost predicate WakeupPending(s: Lock) {
    s.c.lk.Some? && At(s, s.c.lk.value) in {WakeTakeQ, WakeLoop}
  }

  /** Whoever sleeps or is about to does so for a lock that is taken, or for one whose
      release is still going to empty the queue. */
  ghost predicate NobodyForgotten(s: Lock) {
    && (forall p :: IsMoving(s, p) ==> s.locked || WakeupPending(s))
    && (s.c.queue != [] ==> s.locked || WakeupPending(s))
  }

  ghost predicate OwnerMatches(s: Lock) {
    s.holders == (if s.locked then {s.pid} else {}) && (s.locked <==> s.pid != 0)
  }

  ghost predicate Wakers(s: Lock) {
    && (forall p :: At(s, p) in {WakeTakeQ, WakeLoop, WakeDropQ} ==> !s.locked)
    && (forall p :: At(s, p) != Idle ==> p != 0)
  }

  ghost predicate Inv(s: Lock) {
    LocksMatch(s) && QueueMatches(s) && NobodyForgotten(s) && OwnerMatches(s) && Wakers(s)
  }

  /** The process that `a` wakes, if it wakes one. */
  ghost function Woken(s: Lock, a: Action): (r: Option<Pid>) {
    if a.Advance? && At(s, a.p) == WakeLoop && s.c.queue != [] then Some(Oldest(s.c)) else None
  }

  predicate Acts(a: Action, x: Pid) { (a.CallAcquire? || a.CallRelease? || a.Advance?) && a.p == x }

  /** Only the acting process and the process it wakes change their program points. */
  lemma OthersStay(s: Lock, a: Action, x: Pid)
    requires !Acts(a, x)
    ensures At(Next(s, a), x) == if Woken(s, a) == Some(x) then Sleeping(Resumable) else At(s, x)
  {
  }

  lemma LocksKept(s: Lock, a: Action)
    requires LocksMatch(s) && QueueMatches(s) && Enabled(s, a)
    ensures LocksMatch(Next(s, a))
  {
    var t := Next(s, a);
    if Woken(s, a).Some? { assert Woken(s, a).value in s.c.queue; }
    forall x
      ensures HoldsLk(At(t, x)) <==> t.c.lk == Some(x)
      ensures HoldsQ(At(t, x)) <==> t.c.qlock == QProc(x)
    {
      assert HoldsLk(At(s, x)) <==> s.c.lk == Some(x);
      assert HoldsQ(At(s, x)) <==> s.c.qlock == QProc(x);
      if !Acts(a, x) { OthersStay(s, a, x); }
    }
  }

  lemma QueueKept(s: Lock, a: Action)
    requires QueueMatches(s) && Enabled(s, a)
    ensures QueueMatches(Next(s, a))
  {
    if a.Advance? && At(s, a.p) == Sleeping(Enroll) {
      assert a.p !in s.c.queue;
      EnrolledFifo(s.c, a.p);
    }
    if Woken(s, a).Some? { DequeuedFifo(s.c); }
    forall x ensures x in Next(s, a).c.queue <==> At(Next(s, a), x) == Sleeping(Asleep) { QueueMember(s, a, x); }
  }

  lemma QueueMember(s: Lock, a: Action, x: Pid)
    requires QueueMatches(s) && Enabled(s, a)
    ensures x in Next(s, a).c.queue <==> At(Next(s, a), x) == Sleeping(Asleep)
  {
    assert x in s.c.queue <==> At(s, x) == Sleeping(Asleep);
    if a.Advance? && At(s, a.p) == Sleeping(Enroll) {
      assert a.p !in s.c.queue;
      EnrolledFifo(s.c, a.p);
    }
    if Woken(s, a).Some? { DequeuedFifo(s.c); }
    if !Acts(a, x) { OthersStay(s, a, x); }
  }

  lemma OwnerKept(s: Lock, a: Action)
    requires Inv(s) && Enabled(s, a)
    ensures OwnerMatches(Next(s, a)) && Wakers(Next(s, a))
  {
    var t := Next(s, a);
    if Woken(s, a).Some? { assert Woken(s, a).value in s.c.queue; }
    forall x
      ensures At(t, x) in {WakeTakeQ, WakeLoop, WakeDropQ} ==> !t.locked
      ensures At(t, x) != Idle ==> x != 0
    {
      assert HoldsLk(At(s, x)) <==> s.c.lk == Some(x);
      if a.Advance? { assert HoldsLk(At(s, a.p)) <==> s.c.lk == Some(a.p); }
      if !Acts(a, x) { OthersStay(s, a, x); }
    }
  }

  /** Only the last step of `wakeup_all`, on an empty queue, ends the cover. */
  lemma CoverKept(s: Lock, a: Action)
    requires Inv(s) && Enabled(s, a) && (s.locked || WakeupPending(s))
    requires !(a.Advance? && At(s, a.p) == WakeLoop && s.c.queue == [])
    ensures Next(s, a).locked || WakeupPending(Next(s, a))
  {
    var t := Next(s, a);
    if Woken(s, a).Some? { assert Woken(s, a).value in s.c.queue; }
    if a.Advance? {
      assert HoldsLk(At(s, a.p)) <==> s.c.lk == Some(a.p);
    }
    if s.c.lk.Some? && !Acts(a, s.c.lk.value) { OthersStay(s, a, s.c.lk.value); }
    if a.Advance? && At(s, a.p) == WakeLoop { assert At(t, a.p) == WakeLoop; }
  }

  lemma ForgottenKept(s: Lock, a: Action)
    requires Inv(s) && Enabled(s, a)
    ensures NobodyForgotten(Next(s, a))
  {
    var t := Next(s, a);
    if a.Advance? && At(s, a.p) == WakeLoop && s.c.queue == [] {
      forall x ensures !IsMoving(t, x) {
        assert HoldsLk(At(s, x)) <==> s.c.lk == Some(x);
        assert HoldsQ(At(s, x)) <==> s.c.qlock == QProc(x);
        if !Acts(a, x) { OthersStay(s, a, x); }
      }
    } else if s.locked || WakeupPending(s) {
      CoverKept(s, a);
    } else {
      if a.Advance? { assert !IsMoving(s, a.p); }
      forall x ensures !IsMoving(t, x) {
        assert !IsMoving(s, x);
        if !Acts(a, x) { OthersStay(s, a, x); }
      }
    }
  }

  /** Every step of every caller keeps the invariant. */
  lemma NextInv(s: Lock, a: Action)
    requires Inv(s) && Enabled(s, a)
    ensures Inv(Next(s, a))
  {
    LocksKept(s, a);
    QueueKept(s, a);
    OwnerKept(s, a);
    ForgottenKept(s, a);
  }

  // ----- whole runs

  ghost predicate IsRun(s: Lock, run: seq<Action>)
    decreases |run|
  {
    run == [] || (Enabled(s, run[0]) && IsRun(Next(s, run[0]), run[1..]))
  }

  function After(s: Lock, run: seq<Action>): (r: Lock)
    decreases |run|
  {
    if run == [] then s else After(Next(s, run[0]), run[1..])
  }

  lemma {:induction false} RunInv(s: Lock, run: seq<Action>)
    requires Inv(s) && IsRun(s, run)
    ensures Inv(After(s, run))
    decreases |run|
  {
    if run != [] {
      NextInv(s, run[0]);
      RunInv(Next(s, run[0]), run[1..]);
    }
  }

  /** For any interleaving: at most one process holds the lock and `pid` names it; and
      whenever guard and lock are both free, nobody sleeps or is about to. */
  lemma SleepLockTheorem(run: seq<Action>)
    requires IsRun(Initial, run)
    ensures var s := After(Initial, run);
      && |s.holders| <= 1
      && (forall p :: p in s.holders <==> s.locked && s.pid == p)
      && (s.c.lk == None && !s.locked ==> s.c.queue == [] && forall p :: !IsMoving(s, p))
      && (s.c.woken <= s.c.slept)
  {
    assert Inv(Initial);
    RunInv(Initial, run);
    var s := After(Initial, run);
    assert s.c.slept == s.c.woken + Reverse(s.c.queue);
  }

  /** A process is let into the critical section only when nobody else is in it. */
  lemma AcquireIsExclusive(s: Lock, p: Pid)
    requires Inv(s) && At(s, p) == Test
    ensures p in Stepped(s, p).holders ==> p in s.holders || s.holders == {}
    ensures s.locked ==> Stepped(s, p).holders == s.holders
  {
  }

  /** A release by a process that does not hold the lock changes nothing but its own
      program point. */
  lemma ForeignReleaseIsNoOp(s: Lock, p: Pid)
    requires Inv(s) && At(s, p) == Check && p !in s.holders
    ensures Stepped(s, p) == Goto(s, p, ReleaseExit)
    ensures Stepped(Stepped(s, p), p) == Goto(s, p, Idle).(c := s.c.(lk := None))
  {
    assert p != 0;
    assert s.pcs[p := ReleaseExit][p := Idle] == s.pcs[p := Idle];
  }

  /** `wakeup_all` empties the queue before `qlock` is given up. */
  lemma WakeupEmptiesQueue(s: Lock, p: Pid)
    requires Inv(s) && At(s, p) == WakeDropQ
    ensures s.c.queue == [] && forall x :: !IsMoving(s, x)
  {
    assert HoldsLk(At(s, p)) <==> s.c.lk == Some(p);
  }

  // ----- what callers see

  /** Who is inside an acquire call, and who has returned from one and not called release
      since: told from the calls, and from processes being idle again. */
  datatype Seen = Seen(acquiring: set<Pid>, inside: set<Pid>)

  function Observe(v: Seen, s: Lock, a: Action): (w: Seen) {
    match a
    case CallAcquire(p) => v.(acquiring := v.acquiring + {p})
    case CallRelease(p) => v.(inside := v.inside - {p})
    case Advance(p) =>
      if p in v.acquiring && At(Next(s, a), p) == Idle then Seen(v.acquiring - {p}, v.inside + {p}) else v
    case _ => v
  }

  function Watch(v: Seen, s: Lock, run: seq<Action>): (w: Seen)
    decreases |run|
  {
    if run == [] then v else Watch(Observe(v, s, run[0]), Next(s, run[0]), run[1..])
  }

  predicate InAcquire(pc: Pc) { pc == Test || pc.Sleeping? || pc == AcquireExit }

  /** `p` has the lock but is not inside: it is about to return from acquire, or its release
      has not come into effect. */
  predicate OnTheEdge(pc: Pc) { pc == AcquireExit || pc == Check }

  ghost predicate SeenMatches(s: Lock, v: Seen) {
    && (forall p :: p in v.acquiring <==> InAcquire(At(s, p)))
    && (forall p :: p in v.inside <==> p in s.holders && !OnTheEdge(At(s, p)))
    && (forall p :: At(s, p) == AcquireExit ==> p in s.holders)
  }

  lemma SeenKept(s: Lock, v: Seen, a: Action)
    requires Inv(s) && SeenMatches(s, v) && Enabled(s, a)
    ensures SeenMatches(Next(s, a), Observe(v, s, a))
  {
    var t, w := Next(s, a), Observe(v, s, a);
    if Woken(s, a).Some? { assert Woken(s, a).value in s.c.queue; }
    forall p
      ensures p in w.acquiring <==> InAcquire(At(t, p))
      ensures p in w.inside <==> p in t.holders && !OnTheEdge(At(t, p))
      ensures At(t, p) == AcquireExit ==> p in t.holders
    {
      SeenOf(s, v, a, p);
    }
  }

  lemma SeenOf(s: Lock, v: Seen, a: Action, p: Pid)
    requires Inv(s) && SeenMatches(s, v) && Enabled(s, a)
    ensures var t := Next(s, a); var w := Observe(v, s, a);
      && (p in w.acquiring <==> InAcquire(At(t, p)))
      && (p in w.inside <==> p in t.holders && !OnTheEdge(At(t, p)))
      && (At(t, p) == AcquireExit ==> p in t.holders)
  {
    if Woken(s, a).Some? { assert Woken(s, a).value in s.c.queue; }
    if a.Advance? { assert HoldsLk(At(s, a.p)) <==> s.c.lk == Some(a.p); }
    assert HoldsLk(At(s, p)) <==> s.c.lk == Some(p);
    if !Acts(a, p) { OthersStay(s, a, p); }
  }

  lemma {:induction false} RunSeen(s: Lock, v: Seen, run: seq<Action>)
    requires Inv(s) && SeenMatches(s, v) && IsRun(s, run)
    ensures Inv(After(s, run)) && SeenMatches(After(s, run), Watch(v, s, run))
    decreases |run|
  {
    if run != [] {
      NextInv(s, run[0]);
      SeenKept(s, v, run[0]);
      RunSeen(Next(s, run[0]), Observe(v, s, run[0]), run[1..]);
    }
  }

  /** Mutual exclusion as callers see it: between its return from acquire and its call of
      release a process has the lock, so there is never more than one such process; and the
      lock is taken only by such a process, by one about to return from acquire, or by one
      whose release has not come into effect. */
  lemma CriticalSection(run: seq<Action>)
    requires IsRun(Initial, run)
    ensures var s := After(Initial, run); var v := Watch(Seen({}, {}), Initial, run);
      && |v.inside| <= 1
      && (forall p :: p in v.inside ==> s.locked && s.pid == p)
      && (s.locked ==> s.pid in v.inside || OnTheEdge(At(s, s.pid)))
      && (forall p :: At(s, p) == AcquireExit ==> s.locked && s.pid == p)
  {
    assert Inv(Initial);
    RunSeen(Initial, Seen({}, {}), run);
    var s, v := After(Initial, run), Watch(Seen({}, {}), Initial, run);
    assert OwnerMatches(s);
    forall p | p in v.inside ensures p in {s.pid} { assert p in s.holders; }
    SubsetCard(v.inside, {s.pid});
  }

  function Rank(pc: Pc): (n: nat) {
    match pc
    case Idle => 0
    case AcquireExit => 1
    case Test => 2
    case Sleeping(at) =>
      (match at case TakeQ => 9 case DropLk => 8 case Enroll => 7 case Asleep => 6 case Resumable => 5 case RetakeLk => 4 case DropQ => 3)
    case ReleaseExit => 1
    case WakeDropQ => 2
    case WakeLoop => 3
    case WakeTakeQ => 4
    case Check => 5
  }

  /** A call goes forward with every step of its process, but for two loops: acquire goes
      back to sleep while the lock is taken, and release wakes one sleeper after another. */
  lemma CallsEnd(s: Lock, a: Action, p: Pid)
    requires QueueMatches(s) && Enabled(s, a) && a != CallAcquire(p) && a != CallRelease(p)
    ensures a != Advance(p) ==> Rank(At(Next(s, a), p)) <= Rank(At(s, p))
    ensures a == Advance(p) ==>
      || Rank(At(Next(s, a), p)) < Rank(At(s, p))
      || (At(s, p) == Test && s.locked && At(Next(s, a), p) == Sleeping(TakeQ))
      || (At(s, p) == WakeLoop && At(Next(s, a), p) == WakeLoop && |Next(s, a).c.queue| + 1 == |s.c.queue|)
  {
    if Woken(s, a).Some? { assert Woken(s, a).value in s.c.queue; }
    if a != Advance(p) { OthersStay(s, a, p); }
  }

  // ----- when nobody can move

  ghost predicate Stuck(s: Lock) { forall a :: !Enabled(s, a) }

  /** The holder of `lk` spins for `qlock`, and the holder of `qlock`, on its way out of
      `sleep`, spins for `lk`. */
  ghost predicate Crossed(s: Lock) {
    && s.c.lk.Some? && At(s, s.c.lk.value) in {Sleeping(TakeQ), WakeTakeQ}
    && s.c.qlock.QProc? && At(s, s.c.qlock.p) == Sleeping(RetakeLk)
  }

  lemma CrossedIsStuck(s: Lock)
    requires LocksMatch(s) && Crossed(s)
    ensures Stuck(s)
  {
    forall a ensures !Enabled(s, a) {
      if a.Advance? {
        assert HoldsLk(At(s, a.p)) <==> s.c.lk == Some(a.p);
        assert HoldsQ(At(s, a.p)) <==> s.c.qlock == QProc(a.p);
      }
    }
  }

  lemma StuckIsCrossed(s: Lock)
    requires LocksMatch(s) && Stuck(s)
    ensures Crossed(s)
  {
    assert !Enabled(s, TakeQlock) && !Enabled(s, ReturnQlock);
    var q := s.c.qlock.p;
    assert !Enabled(s, Advance(q)) && (HoldsQ(At(s, q)) <==> s.c.qlock == QProc(q));
    var p := s.c.lk.value;
    assert !Enabled(s, Advance(p)) && (HoldsLk(At(s, p)) <==> s.c.lk == Some(p));
  }

  /** In any reachable state nobody can move exactly if the two locks are held crosswise. */
  lemma StuckIff(run: seq<Action>)
    requires IsRun(Initial, run)
    ensures Stuck(After(Initial, run)) <==> Crossed(After(Initial, run))
  {
    var s := After(Initial, run);
    assert Inv(Initial);
    RunInv(Initial, run);
    if Crossed(s) { CrossedIsStuck(s); }
    if Stuck(s) { StuckIsCrossed(s); }
  }

  ghost predicate Reaches(run: seq<Action>, t: Lock) { IsRun(Initial, run) && After(Initial, run) == t }

  lemma Extend(run: seq<Action>, t: Lock, a: Action) returns (longer: seq<Action>, u: Lock)
    requires Reaches(run, t) && Enabled(t, a)
    ensures Reaches(longer, u) && u == Next(t, a)
  {
    longer, u := run + [a], Next(t, a);
    ExtendIs(Initial, run, t, a);
  }

  lemma {:induction false} ExtendIs(s: Lock, run: seq<Action>, t: Lock, a: Action)
    requires IsRun(s, run) && After(s, run) == t && Enabled(t, a)
    ensures IsRun(s, run + [a]) && After(s, run + [a]) == Next(t, a)
    decreases |run|
  {
    if run == [] {
      assert ([a])[1..] == [] && run + [a] == [a];
    } else {
      assert (run + [a])[1..] == run[1..] + [a];
      ExtendIs(Next(s, run[0]), run[1..], t, a);
    }
  }

  lemma OneAcquires() returns (run: seq<Action>, t: Lock)
    ensures Reaches(run, t)
    ensures t == Lock(Unused, true, 1, map[1 := Idle], {1})
  {
    run, t := [], Initial;
    run, t := Extend(run, t, CallAcquire(1));
    run, t := Extend(run, t, Advance(1));
    run, t := Extend(run, t, Advance(1));
  }

  lemma FindsLocked() returns (run: seq<Action>, t: Lock)
    ensures Reaches(run, t)
    ensures t == Lock(Chan(Some(2), QProc(2), [], [], []), true, 1, map[1 := Idle, 2 := Sleeping(DropLk)], {1})
  {
    run, t := OneAcquires();
    run, t := Extend(run, t, CallAcquire(2));
    run, t := Extend(run, t, Advance(2));
    run, t := Extend(run, t, Advance(2));
  }

  /** While one process holds the lock, a second goes to sleep ... */
  lemma FallsAsleep() returns (run: seq<Action>, t: Lock)
    ensures Reaches(run, t)
    ensures t == Lock(Chan(None, QFree, [2], [2], []), true, 1, map[1 := Idle, 2 := Sleeping(Asleep)], {1})
  {
    run, t := FindsLocked();
    run, t := Extend(run, t, Advance(2));
    run, t := Extend(run, t, Advance(2));
    run, t := Extend(run, t, ReturnQlock);
  }

  /** ... and the release finds it ... */
  lemma ThenFound() returns (run: seq<Action>, t: Lock)
    ensures Reaches(run, t)
    ensures t == Lock(Chan(Some(1), QProc(1), [2], [2], []), false, 0, map[1 := WakeLoop, 2 := Sleeping(Asleep)], {})
  {
    run, t := FallsAsleep();
    run, t := Extend(run, t, CallRelease(1));
    run, t := Extend(run, t, Advance(1));
    run, t := Extend(run, t, Advance(1));
  }

  /** ... and wakes it ... */
  lemma ThenWoken() returns (run: seq<Action>, t: Lock)
    ensures Reaches(run, t)
    ensures t == Lock(Chan(Some(1), QProc(1), [], [2], [2]), false, 0, map[1 := WakeLoop, 2 := Sleeping(Resumable)], {})
  {
    run, t := ThenFound();
    run, t := Extend(run, t, Advance(1));
  }

  lemma ThenReleased() returns (run: seq<Action>, t: Lock)
    ensures Reaches(run, t)
    ensures t == Lock(Chan(None, QFree, [], [2], [2]), false, 0, map[1 := Idle, 2 := Sleeping(Resumable)], {})
  {
    run, t := ThenWoken();
    run, t := Extend(run, t, Advance(1));
    run, t := Extend(run, t, Advance(1));
    run, t := Extend(run, t, Advance(1));
  }

  /** ... and meets the next release: such a state is reachable. */
  lemma CanGetStuck() returns (run: seq<Action>)
    ensures IsRun(Initial, run) && Stuck(After(Initial, run))
  {
    var t;
    run, t := ThenReleased();
    run, t := Extend(run, t, CallAcquire(1));
    run, t := Extend(run, t, Advance(1));
    run, t := Extend(run, t, Advance(1));
    run, t := Extend(run, t, CallRelease(1));
    run, t := Extend(run, t, Advance(1));
    run, t := Extend(run, t, TakeQlock);
    run, t := Extend(run, t, Advance(2));
    StuckIff(run);
  }
}
