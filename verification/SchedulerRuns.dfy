/** Whole runs of the scheduler: the partition, queue-index safety and bounded waiting. */
module SchedulerRuns {
  import opened Seqs
  import opened Scheduler
  import opened SchedulerSteps

  datatype Event =
    | Create(p: Pid, priority: int)
    | Run(p: Pid)
    | RunEvery
    | Tick
    | Dispatch
    | Block(c: ChannelId)
    | Wake(c: ChannelId)
    | WakeEvery(c: ChannelId)
    | Exit(p: Pid)
    | ExitEvery
    | Reprioritize(p: Pid, priority: int)

  /** What the source assumes of a caller: fresh ids, priorities that are queue
      indices, a running process where `get_cpu_proc()` is used, and no exit of a
      process that is still in the NEW queue (its pointer is lost before use). */
  ghost predicate Enabled(s: Sys, e: Event) {
    match e
    case Create(p, k) => p !in s.procs && Valid(s, k)
    case Dispatch => !Busy(s)
    case Block(_) => Busy(s)
    case Exit(p) => Busy(s) && p !in Q(s, NewQ)
    case Reprioritize(p, k) => p in s.procs && Valid(s, k)
    case _ => true
  }

  /** The event would use queue index -1. */
  ghost predicate Faults(s: Sys, e: Event) { e.Tick? && PromotesFromTop(s) }

  ghost function Next(s: Sys, e: Event): (r: Sys)
    requires OneHome(s) && Ranged(s) && Enabled(s, e) && !Faults(s, e)
  {
    assert Busy(s) ==> Current(s) in s.procs by { if Busy(s) { CurrentKnown(s); } }
    match e
    case Create(p, k) => NewEnv(s, p, k)
    case Run(p) => RunEnv(s, p)
    case RunEvery => RunAll(s)
    case Tick => Ticked(s)
    case Dispatch => Dispatched(s)
    case Block(c) => Sleep(s, c)
    case Wake(c) => WakeOne(s, c)
    case WakeEvery(c) => WakeAll(s, c)
    case Exit(p) => ExitEnv(s, p)
    case ExitEvery => ExitAllReady(s)
    case Reprioritize(p, k) => SetPriority(s, p, k)
  }

  // ----- conservation

  /** `t` is a consistent system with the processes, levels and threshold of `s`. */
  ghost predicate Keeps(s: Sys, t: Sys) {
    && OneHome(t) && Ranged(t)
    && t.levels == s.levels && t.threshold == s.threshold
    && t.procs.Keys == s.procs.Keys
  }

  lemma NewEnvKeepsHomes(s: Sys, p: Pid, k: int)
    requires OneHome(s) && Ranged(s) && p !in s.procs && Valid(s, k)
    ensures OneHome(NewEnv(s, p, k)) && Ranged(NewEnv(s, p, k))
  {
    var t := NewEnv(s, p, k);
    forall j ensures NoDup(Q(t, j)) {
      assert NoDup(Q(s, j)) && p !in Q(s, j);
    }
    forall x, j ensures x in Q(t, j) <==> x in t.procs && HomeOf(t.procs[x]) == j {
      assert x in Q(s, j) <==> x in s.procs && HomeOf(s.procs[x]) == j;
    }
  }

  lemma AgedKeeps(s: Sys)
    requires OneHome(s) && Ranged(s) && !PromotesFromTop(s)
    ensures Keeps(s, Aged(s))
  {
    AgedKeepsHomes(s);
    assert Aged(s).procs.Keys == s.procs.Keys;
  }

  lemma PutBackKeeps(s: Sys)
    requires OneHome(s) && Ranged(s)
    ensures Busy(s) ==> Current(s) in s.procs
    ensures Keeps(s, PutBack(s)) && !Busy(PutBack(s))
  {
    PutBackKeepsHomes(s);
    assert PutBack(s).procs.Keys == s.procs.Keys;
  }

  lemma DispatchedKeeps(s: Sys)
    requires OneHome(s) && Ranged(s) && !Busy(s)
    ensures Keeps(s, Dispatched(s))
  {
    DispatchedKeepsHomes(s);
  }

  lemma TickedKeepsHomes(s: Sys)
    requires OneHome(s) && Ranged(s) && !PromotesFromTop(s)
    ensures Keeps(s, Ticked(s))
  {
    AgedKeeps(s);
    if Busy(s) {
      PutBackKeeps(Aged(s));
      DispatchedKeeps(PutBack(Aged(s)));
    }
  }

  lemma RunKeepsHomes(s: Sys, p: Pid)
    requires OneHome(s) && Ranged(s)
    ensures Keeps(s, RunEnv(s, p))
  {
    if p in Q(s, NewQ) { MovedKeepsHomes(s, p, WithStatus(s, p, Ready)); }
  }

  lemma WakeKeepsHomes(s: Sys, c: ChannelId)
    requires OneHome(s) && Ranged(s)
    ensures Keeps(s, WakeOne(s, c))
  {
    var q := Q(s, ChanQ(c));
    if q != [] {
      assert Last(q) in q;
      MovedKeepsHomes(s, Last(q), WithStatus(s, Last(q), Ready));
    }
  }

  lemma SetPriorityKeepsHomes(s: Sys, p: Pid, k: int)
    requires OneHome(s) && Ranged(s) && p in s.procs && Valid(s, k)
    ensures Keeps(s, SetPriority(s, p, k))
  {
    var t := SetPriority(s, p, k);
    if s.procs[p].status == Ready {
      MovedKeepsHomes(s, p, s.procs[p].(priority := k, waiting := 0));
    } else {
      forall x, j ensures x in Q(t, j) <==> x in t.procs && HomeOf(t.procs[x]) == j {
        assert x in Q(s, j) <==> x in s.procs && HomeOf(s.procs[x]) == j;
      }
      assert NoDups(t) by { forall j ensures NoDup(Q(t, j)) { assert NoDup(Q(s, j)); } }
    }
  }

  lemma ExitKeepsHomes(s: Sys, p: Pid)
    requires OneHome(s) && Ranged(s)
    ensures Keeps(s, ExitEnv(s, p))
  {
    if p in s.procs { MovedKeepsHomes(s, p, WithStatus(s, p, Exited)); }
  }

  /** Every operation of the kernel keeps every process in exactly one place, with the
      status and priority of that place, and loses or invents nobody. */
  lemma NextKeepsHomes(s: Sys, e: Event)
    requires OneHome(s) && Ranged(s) && Enabled(s, e) && !Faults(s, e)
    ensures OneHome(Next(s, e)) && Ranged(Next(s, e))
    ensures Next(s, e).levels == s.levels && Next(s, e).threshold == s.threshold
    ensures Next(s, e).procs.Keys == s.procs.Keys + if e.Create? then {e.p} else {}
  {
    match e
    case Create(p, k) => NewEnvKeepsHomes(s, p, k);
    case Run(p) => RunKeepsHomes(s, p);
    case RunEvery =>
    case Tick => TickedKeepsHomes(s);
    case Dispatch => DispatchedKeeps(s);
    case Block(c) =>
      CurrentKnown(s);
      MovedKeepsHomes(s, Current(s), WithStatus(s, Current(s), Blocked(c)));
    case Wake(c) => WakeKeepsHomes(s, c);
    case WakeEvery(c) =>
    case Exit(p) => ExitKeepsHomes(s, p);
    case ExitEvery =>
    case Reprioritize(p, k) => SetPriorityKeepsHomes(s, p, k);
  }

  /** The processes of one priority. */
  ghost function LevelSet(s: Sys, i: int): (r: set<Pid>) {
    set p | p in s.procs && s.procs[p].priority == i
  }

  lemma OnlyLast(q: seq<Pid>, keep: set<Pid>, rest: seq<Pid>)
    requires q != []
    ensures Only(q[..|q| - 1], keep) + ((if Last(q) in keep then [Last(q)] else []) + rest) == Only(q, keep) + rest
  {
    assert q == q[..|q| - 1] + [Last(q)];
    OnlyAppend(q[..|q| - 1], [Last(q)], keep);
  }

  lemma DrainMoveLevel(s: Sys, p: Pid, i: int)
    requires OneHome(s) && p in s.procs && !HomeOf(s.procs[p]).ReadyQ?
    ensures var t := Moved(s, p, WithStatus(s, p, Ready));
      && LevelSet(t, i) == LevelSet(s, i)
      && Q(t, ReadyQ(i)) == (if p in LevelSet(s, i) then [p] else []) + Q(s, ReadyQ(i))
  {
    var t := Moved(s, p, WithStatus(s, p, Ready));
    assert t.procs[p].priority == s.procs[p].priority;
    MovedKeepsHomes(s, p, WithStatus(s, p, Ready));
  }

  lemma DrainMove(s: Sys, k: Place)
    requires OneHome(s) && Ranged(s) && k != ExitQ && !k.ReadyQ? && Q(s, k) != []
    ensures var q := Q(s, k); var p := Last(q);
      && p in s.procs && HomeOf(s.procs[p]) == k
      && var t := Moved(s, p, WithStatus(s, p, Ready));
      && OneHome(t) && Ranged(t)
      && Drained(s, k, Ready) == Drained(t, k, Ready)
      && Q(t, k) == q[..|q| - 1]
  {
    var q := Q(s, k);
    var p := Last(q);
    assert p in Q(s, k);
    assert NoDup(Q(s, k));
    MovedKeepsHomes(s, p, WithStatus(s, p, Ready));
    DropLast(q);
  }

  /** `sched_run_all` and `wakeup_all` keep first-in first-out order: every ready level
      receives its share of the drained queue, in the queue's own order, behind what it held. */
  lemma {:induction false} DrainedOrder(s: Sys, k: Place, i: int)
    requires OneHome(s) && Ranged(s) && k != ExitQ && !k.ReadyQ?
    ensures Q(Drained(s, k, Ready), k) == []
    ensures Q(Drained(s, k, Ready), ReadyQ(i)) == Only(Q(s, k), LevelSet(s, i)) + Q(s, ReadyQ(i))
    decreases |Q(s, k)|
  {
    var q := Q(s, k);
    if q != [] {
      var p := Last(q);
      DrainMove(s, k);
      DrainMoveLevel(s, p, i);
      DrainedOrder(Moved(s, p, WithStatus(s, p, Ready)), k, i);
      OnlyLast(q, LevelSet(s, i), Q(s, ReadyQ(i)));
    }
  }

  // ----- queue-index safety

  /** The processes that compete for the processor. */
  ghost function Runnable(s: Sys): (r: set<Pid>) {
    set p | p in s.procs && (s.procs[p].status == Ready || s.procs[p].status == Running)
  }

  ghost function Top(s: Sys): (r: seq<Pid>) { Q(s, ReadyQ(0)) }

  ghost function Idle(s: Sys): (r: nat) { if Busy(s) then 0 else 1 }

  /** No process at level 0 can pass the threshold before its turn comes: what it has
      waited plus what is still ahead of it does not exceed the threshold. */
  ghost predicate Safe(s: Sys) {
    forall p :: p in Top(s) && p in s.procs ==> s.procs[p].waiting + Ahead(Top(s), p) <= s.threshold + Idle(s)
  }

  /** The same in the middle of a tick, one dispatch later. */
  ghost predicate Loose(s: Sys) {
    forall p :: p in Top(s) && p in s.procs ==>
      s.procs[p].waiting == 0 || s.procs[p].waiting + Ahead(Top(s), p) <= s.threshold + 1
  }

  lemma TopBound(s: Sys)
    requires OneHome(s)
    ensures |Top(s)| + |Q(s, Cpu)| <= |Runnable(s)|
  {
    var q := Top(s) + Q(s, Cpu);
    forall p | p in Top(s) ensures p !in Q(s, Cpu) { assert HomeOf(s.procs[p]) == ReadyQ(0); }
    assert NoDup(Top(s)) && NoDup(Q(s, Cpu));
    NoDupAppend(Top(s), Q(s, Cpu));
    forall p | p in q ensures p in Runnable(s) {
      if p in Top(s) { assert HomeOf(s.procs[p]) == ReadyQ(0); } else { assert HomeOf(s.procs[p]) == Cpu; }
    }
    NoDupCard(q, Runnable(s));
  }

  lemma MovedHome(s: Sys, p: Pid, pr: Proc)
    requires OneHome(s) && p in s.procs && HomeOf(pr) != Cpu
    ensures forall k :: p in Q(Moved(s, p, pr), k) ==> k == HomeOf(pr)
  {
    MovedKeepsHomes(s, p, pr);
    var t := Moved(s, p, pr);
    assert t.procs[p] == pr;
    forall k | p in Q(t, k) ensures k == HomeOf(pr) { assert HomeOf(t.procs[p]) == k; }
  }

  /** Any move that does not give the processor away keeps safety, provided a process
      that enters level 0 does so with a small enough counter. */
  lemma SafeMoved(s: Sys, p: Pid, pr: Proc)
    requires OneHome(s) && p in s.procs && Safe(s) && HomeOf(pr) != Cpu
    requires HomeOf(pr) == ReadyQ(0) ==>
      pr.waiting + |Top(Moved(s, p, pr))| - 1 <= s.threshold + Idle(Moved(s, p, pr))
    ensures Safe(Moved(s, p, pr))
  {
    var t := Moved(s, p, pr);
    forall x | x in Top(t) && x in t.procs
      ensures t.procs[x].waiting + Ahead(Top(t), x) <= t.threshold + Idle(t)
    {
      if x == p && HomeOf(pr) == ReadyQ(0) {
        assert Top(t)[0] == p;
      } else {
        MovedHome(s, p, pr);
        MovedOthersAhead(s, p, pr, x);
      }
    }
  }

  /** Nobody else's place in level 0 gets worse when `p` is moved. */
  lemma MovedOthersAhead(s: Sys, p: Pid, pr: Proc, x: Pid)
    requires OneHome(s) && p in s.procs && x != p && x in Top(Moved(s, p, pr))
    ensures x in Top(s) && Ahead(Top(Moved(s, p, pr)), x) <= Ahead(Top(s), x)
  {
    var t := Moved(s, p, pr);
    assert NoDup(Top(s));
    var base := if HomeOf(s.procs[p]) == ReadyQ(0) then Without(Top(s), p) else Top(s);
    assert Top(t) == if HomeOf(pr) == ReadyQ(0) then [p] + base else base;
    assert x in base;
    WithoutMember(Top(s), p, x);
    if HomeOf(s.procs[p]) == ReadyQ(0) { AheadWithout(Top(s), p, x); }
    if HomeOf(pr) == ReadyQ(0) { AheadPrefix([p], base, x); }
  }

  /** Dispatching moves level 0 one place on, or empties it of candidates. */
  lemma DispatchedSafe(s: Sys, n: nat)
    requires OneHome(s) && Ranged(s) && !Busy(s) && Loose(s)
    requires |Runnable(s)| <= n <= s.threshold + 2
    ensures Safe(Dispatched(s))
  {
    var i, t := FirstLevel(s, 0), Dispatched(s);
    if i == s.levels {
      assert Top(s) == [];
    } else if i > 0 {
      assert Best(s, i);
      DispatchedFrom(s, i);
      assert Top(t) == [];
    } else {
      DispatchedTopSafe(s, n);
    }
  }

  lemma DispatchedTopSafe(s: Sys, n: nat)
    requires OneHome(s) && Ranged(s) && !Busy(s) && Loose(s) && Best(s, 0)
    requires |Runnable(s)| <= n <= s.threshold + 2
    ensures Safe(Dispatched(s))
  {
    var t := Dispatched(s);
    DispatchedFrom(s, 0);
    DispatchedKeepsHomes(s);
    assert Runnable(t) == Runnable(s) by { assert Last(Top(s)) in Top(s); }
    TopBound(t);
    assert NoDup(Top(s));
    forall x | x in Top(t) && x in t.procs ensures t.procs[x].waiting + Ahead(Top(t), x) <= t.threshold + Idle(t) {
      NextInLine(Top(s), x);
    }
  }

  /** Everybody but the last moves up when the last leaves. */
  lemma NextInLine(q: seq<Pid>, x: Pid)
    requires NoDup(q) && q != [] && x in q[..|q| - 1]
    ensures x in q && x != Last(q) && Ahead(q[..|q| - 1], x) == Ahead(q, x) - 1
  {
    DropLast(q);
    AheadDropLast(q, x);
  }

  /** A safe busy state has nobody to promote out of level 0, and ages loosely. */
  lemma AgedLoose(s: Sys)
    requires OneHome(s) && Ranged(s) && Safe(s) && Busy(s)
    ensures !PromotesFromTop(s) && Loose(Aged(s))
  {
    forall p | p in Top(s) ensures p in Patient(s) { assert p in s.procs; }
    assert !PromotesFromTop(s);
    var t := Aged(s);
    var up := Reverse(Only(Q(s, ReadyQ(1)), Starved(s)));
    AgedTopQueue(s);
    AgedKeepsHomes(s);
    forall p | p in Top(t) && p in t.procs && t.procs[p].waiting != 0
      ensures t.procs[p].waiting + Ahead(Top(t), p) <= t.threshold + 1
    {
      AgedMember(s, 0, p);
      assert t.procs[p] == AgedProc(s, p);
      AgedQueueHome(s, p, 0);
      assert p in AgedQueue(s, 0) && p !in Starved(s);
      ReverseMember(Only(Q(s, ReadyQ(1)), Starved(s)), p);
      OnlyMember(Q(s, ReadyQ(1)), Starved(s), p);
      AheadPrefix(up, Top(s), p);
    }
  }

  lemma AgedTopQueue(s: Sys)
    requires OneHome(s) && Ranged(s) && !PromotesFromTop(s)
    ensures Top(Aged(s)) == Reverse(Only(Q(s, ReadyQ(1)), Starved(s))) + Top(s)
  {
    AgedLevel(s, 0);
  }

  lemma PutBackLoose(s: Sys)
    requires OneHome(s) && Ranged(s) && Loose(s) && Busy(s)
    ensures Current(s) in s.procs && Loose(PutBack(s))
  {
    CurrentKnown(s);
    var p := Current(s);
    var t := PutBack(s);
    forall x | x in Top(t) && x in t.procs && t.procs[x].waiting != 0
      ensures t.procs[x].waiting + Ahead(Top(t), x) <= t.threshold + 1
    {
      MovedOthersAhead(s, p, WithStatus(s, p, Ready).(waiting := 0), x);
    }
  }

  lemma AgedRunnable(s: Sys)
    ensures Runnable(Aged(s)) == Runnable(s)
  {
  }

  lemma TickedSafe(s: Sys, n: nat)
    requires OneHome(s) && Ranged(s) && Safe(s) && Busy(s)
    requires |Runnable(s)| <= n <= s.threshold + 2
    ensures !PromotesFromTop(s) && Safe(Ticked(s))
  {
    AgedLoose(s);
    AgedKeepsHomes(s);
    AgedRunnable(s);
    var a := Aged(s);
    PutBackLoose(a);
    PutBackKeepsHomes(a);
    assert Runnable(PutBack(a)) == Runnable(a) by { CurrentKnown(a); }
    DispatchedSafe(PutBack(a), n);
  }

  /** `e` makes nobody ready at level 0 with a stale wait counter. New processes start
      at 0; `wakeup_one` and `wakeup_all` keep the counter of before the sleep, so a
      sleeper is admitted at level 0 only if that counter is 0 or still fits. */
  ghost predicate Fresh(s: Sys, e: Event)
    requires OneHome(s)
  {
    match e
    case Run(p) => p in Q(s, NewQ) ==> s.procs[p].priority == 0 ==> s.procs[p].waiting == 0
    case RunEvery => AllFresh(s, NewQ)
    case Wake(c) =>
      var q := Q(s, ChanQ(c));
      q != [] ==> Last(q) in q && (s.procs[Last(q)].priority == 0 ==>
        || s.procs[Last(q)].waiting == 0
        || s.procs[Last(q)].waiting + |Top(s)| <= s.threshold + Idle(s))
    case WakeEvery(c) => AllFresh(s, ChanQ(c))
    case _ => true
  }

  /** The processes of a queue that will enter level 0, in the queue's order. */
  ghost function Entrants(s: Sys, k: Place): (r: seq<Pid>) { Only(Q(s, k), LevelSet(s, 0)) }

  /** The counter of `p` leaves room for those that will be ahead of it at level 0 when all
      of `k` is made ready. */
  ghost predicate FitsBehind(s: Sys, k: Place, p: Pid)
    requires p in Entrants(s, k) && p in s.procs
  {
    s.procs[p].waiting + Ahead(Entrants(s, k), p) + |Top(s)| <= s.threshold + Idle(s)
  }

  ghost predicate AllFresh(s: Sys, k: Place) {
    forall p :: p in Entrants(s, k) && p in s.procs ==> s.procs[p].waiting == 0 || FitsBehind(s, k, p)
  }

  /** The clock is stopped while the scheduler looks for a process to run. */
  ghost predicate ClockRuns(s: Sys) { Busy(s) || FirstLevel(s, 0) == s.levels }

  /** The events of a run in which at most `n` processes compete at any time. */
  ghost predicate Admitted(s: Sys, e: Event, n: nat)
    requires OneHome(s) && Ranged(s)
  {
    && Enabled(s, e) && Fresh(s, e)
    && (e.Tick? ==> ClockRuns(s))
    && (!Faults(s, e) ==> |Runnable(Next(s, e))| <= n)
  }

  lemma FreshEntry(t: Sys, n: nat)
    requires OneHome(t) && |Runnable(t)| <= n <= t.threshold + 2
    ensures |Top(t)| - 1 <= t.threshold + Idle(t)
  {
    TopBound(t);
  }

  lemma DrainedIdle(s: Sys, k: Place)
    requires OneHome(s) && Ranged(s) && k != ExitQ && !k.ReadyQ? && k != Cpu
    ensures Idle(Drained(s, k, Ready)) == Idle(s)
  {
    var t := Drained(s, k, Ready);
    if Busy(s) {
      var p := Current(s);
      CurrentKnown(s);
      assert t.procs[p] == s.procs[p] && HomeOf(t.procs[p]) == Cpu;
      assert p in Q(t, Cpu);
    }
    if Busy(t) {
      var p := Current(t);
      CurrentKnown(t);
      assert t.procs[p] == s.procs[p] && HomeOf(s.procs[p]) == Cpu;
      assert p in Q(s, Cpu);
    }
  }

  /** Level 0 after the drain, and where one of its processes stands. */
  lemma DrainedPlace(s: Sys, k: Place, p: Pid)
    requires OneHome(s) && Ranged(s) && k != ExitQ && !k.ReadyQ? && k != Cpu
    ensures var t := Drained(s, k, Ready); var front := Entrants(s, k);
      && Top(t) == front + Top(s)
      && (p in front || p in Top(s) ==>
            p in s.procs && p in t.procs && p in Top(t) && t.procs[p].waiting == s.procs[p].waiting)
      && (p in front ==> Ahead(Top(t), p) == Ahead(front, p) + |Top(s)|)
      && (p in Top(s) ==> p !in front && Ahead(Top(t), p) == Ahead(Top(s), p))
  {
    var front := Entrants(s, k);
    DrainedOrder(s, k, 0);
    OnlyMember(Q(s, k), LevelSet(s, 0), p);
    assert p in Q(s, k) <==> p in s.procs && HomeOf(s.procs[p]) == k;
    assert p in Top(s) <==> p in s.procs && HomeOf(s.procs[p]) == ReadyQ(0);
    if p in front { AheadSuffix(front, Top(s), p); }
    if p in Top(s) { AheadPrefix(front, Top(s), p); }
  }

  /** Making a whole queue ready, by `wakeup_all` or `sched_run_all`, keeps level 0 safe
      exactly when every counter fits behind those that end up ahead. */
  lemma DrainIsSafeIff(s: Sys, k: Place)
    requires OneHome(s) && Ranged(s) && Safe(s) && k != ExitQ && !k.ReadyQ? && k != Cpu
    ensures Safe(Drained(s, k, Ready)) <==>
      forall p :: p in Entrants(s, k) && p in s.procs ==> FitsBehind(s, k, p)
  {
    var t := Drained(s, k, Ready);
    DrainedIdle(s, k);
    forall p | p in Entrants(s, k) && p in s.procs && Safe(t) ensures FitsBehind(s, k, p) { DrainedPlace(s, k, p); }
    if forall p :: p in Entrants(s, k) && p in s.procs ==> FitsBehind(s, k, p) {
      forall p | p in Top(t) && p in t.procs ensures t.procs[p].waiting + Ahead(Top(t), p) <= t.threshold + Idle(t) {
        DrainedPlace(s, k, p);
      }
    }
  }

  /** The same for an admitted event: a counter of 0 fits because the crowd is small. */
  lemma DrainedSafe(s: Sys, k: Place, n: nat)
    requires OneHome(s) && Ranged(s) && Safe(s) && AllFresh(s, k) && k != ExitQ && !k.ReadyQ? && k != Cpu
    requires |Runnable(Drained(s, k, Ready))| <= n <= s.threshold + 2
    ensures Safe(Drained(s, k, Ready))
  {
    var t := Drained(s, k, Ready);
    DrainedIdle(s, k);
    FreshEntry(t, n);
    forall p | p in Entrants(s, k) && p in s.procs ensures FitsBehind(s, k, p) { DrainedPlace(s, k, p); }
    DrainIsSafeIff(s, k);
  }

  lemma {:induction false} ExitLevelsSafe(s: Sys, i: nat)
    requires OneHome(s) && Ranged(s) && Safe(s) && i <= s.levels
    ensures Safe(ExitLevels(s, i))
    decreases s.levels - i, |Q(s, ReadyQ(i))|
  {
    if i == s.levels {
    } else if Q(s, ReadyQ(i)) == [] {
      ExitLevelsSafe(s, i + 1);
    } else {
      var p := Q(s, ReadyQ(i))[0];
      assert p in Q(s, ReadyQ(i));
      MovedKeepsHomes(s, p, WithStatus(s, p, Exited));
      SafeMoved(s, p, WithStatus(s, p, Exited));
      ExitLevelsSafe(Moved(s, p, WithStatus(s, p, Exited)), i);
    }
  }

  lemma SetPrioritySafe(s: Sys, p: Pid, k: int, n: nat)
    requires OneHome(s) && Ranged(s) && Safe(s) && p in s.procs && Valid(s, k)
    requires |Runnable(SetPriority(s, p, k))| <= n <= s.threshold + 2
    ensures Safe(SetPriority(s, p, k))
  {
    if s.procs[p].status == Ready {
      SetPriorityKeepsHomes(s, p, k);
      FreshEntry(SetPriority(s, p, k), n);
      SafeMoved(s, p, s.procs[p].(priority := k, waiting := 0));
    } else {
      assert p !in Top(s);
    }
  }

  lemma IdleTickSafe(s: Sys)
    requires OneHome(s) && Ranged(s) && !Busy(s) && FirstLevel(s, 0) == s.levels
    ensures !PromotesFromTop(s) && Safe(Ticked(s))
  {
    NobodyReady(s, 0);
    NobodyReady(s, 1);
    AgedPlaces(s, ReadyQ(0));
    assert Top(Aged(s)) == [];
  }

  lemma MoveSafe(s: Sys, e: Event, n: nat)
    requires OneHome(s) && Ranged(s) && Safe(s) && Enabled(s, e) && Fresh(s, e)
    requires e.Run? || e.Block? || e.Exit?
    requires |Runnable(Next(s, e))| <= n <= s.threshold + 2
    ensures Safe(Next(s, e))
  {
    var t := Next(s, e);
    NextKeepsHomes(s, e);
    FreshEntry(t, n);
    match e
    case Run(p) => if p in Q(s, NewQ) { SafeMoved(s, p, WithStatus(s, p, Ready)); }
    case Block(c) =>
      CurrentKnown(s);
      SafeMoved(s, Current(s), WithStatus(s, Current(s), Blocked(c)));
    case Exit(p) =>
      if t != s { SafeMoved(s, p, WithStatus(s, p, Exited)); }
  }

  /** One event of an admitted run neither uses index -1 nor leaves the safe states. */
  lemma NextSafe(s: Sys, e: Event, n: nat)
    requires OneHome(s) && Ranged(s) && Safe(s) && Admitted(s, e, n)
    requires |Runnable(s)| <= n <= s.threshold + 2
    ensures !Faults(s, e) && Safe(Next(s, e))
  {
    match e
    case Tick => if Busy(s) { TickedSafe(s, n); } else { IdleTickSafe(s); }
    case Create(p, k) => assert p !in Top(s);
    case RunEvery => DrainedSafe(s, NewQ, n);
    case Dispatch => DispatchedSafe(s, n);
    case Wake(c) => WakeSafe(s, c, n);
    case WakeEvery(c) => DrainedSafe(s, ChanQ(c), n);
    case ExitEvery => ExitLevelsSafe(s, 0);
    case Reprioritize(p, k) => SetPrioritySafe(s, p, k, n);
    case _ => MoveSafe(s, e, n);
  }

  lemma WakeSafe(s: Sys, c: ChannelId, n: nat)
    requires OneHome(s) && Ranged(s) && Safe(s) && Fresh(s, Wake(c))
    requires |Runnable(WakeOne(s, c))| <= n <= s.threshold + 2
    ensures Safe(WakeOne(s, c))
  {
    var q := Q(s, ChanQ(c));
    if q != [] {
      WakeKeepsHomes(s, c);
      FreshEntry(WakeOne(s, c), n);
      SafeMoved(s, Last(q), WithStatus(s, Last(q), Ready));
    }
  }

  // ----- runs

  ghost predicate AdmittedRun(s: Sys, es: seq<Event>, n: nat)
    requires OneHome(s) && Ranged(s)
    decreases |es|
  {
    es == [] ||
    (Admitted(s, es[0], n) &&
     (!Faults(s, es[0]) ==>
        (NextKeepsHomes(s, es[0]); AdmittedRun(Next(s, es[0]), es[1..], n))))
  }

  /** No event of the run uses queue index -1. */
  ghost predicate FaultFree(s: Sys, es: seq<Event>)
    requires OneHome(s) && Ranged(s)
    decreases |es|
  {
    es == [] || !Enabled(s, es[0]) ||
    (!Faults(s, es[0]) && (NextKeepsHomes(s, es[0]); FaultFree(Next(s, es[0]), es[1..])))
  }

  /** From a safe state, no admitted run with at most `threshold + 2` competing processes
      promotes a process out of level 0. */
  lemma {:induction false} NoRunPromotesFromTop(s: Sys, es: seq<Event>, n: nat)
    requires OneHome(s) && Ranged(s) && Safe(s) && AdmittedRun(s, es, n)
    requires |Runnable(s)| <= n <= s.threshold + 2
    ensures FaultFree(s, es)
    decreases |es|
  {
    if es != [] {
      NextSafe(s, es[0], n);
      NextKeepsHomes(s, es[0]);
      NoRunPromotesFromTop(Next(s, es[0]), es[1..], n);
    }
  }

  lemma FaultFreeTick(s: Sys, es: seq<Event>)
    requires OneHome(s) && Ranged(s)
    ensures PromotesFromTop(s) ==> !FaultFree(s, [Tick] + es)
    ensures !PromotesFromTop(s) ==>
      Keeps(s, Ticked(s)) && FaultFree(s, [Tick] + es) == FaultFree(Ticked(s), es)
  {
    var all := [Tick] + es;
    assert all[0] == Tick && all[1..] == es;
    if PromotesFromTop(s) {
      assert Faults(s, Tick);
    } else {
      TickedKeepsHomes(s);
      assert Next(s, Tick) == Ticked(s);
    }
  }

  /** Clock interrupts and nothing else. */
  ghost predicate OnlyTicks(es: seq<Event>) { forall i :: 0 <= i < |es| ==> es[i] == Tick }

  /** `p` passes the threshold before its turn comes, and within `k` ticks. */
  ghost predicate Doomed(s: Sys, p: Pid, k: nat) {
    && Busy(s) && p in Top(s) && p in s.procs && k > 0
    && s.procs[p].waiting + Ahead(Top(s), p) > s.threshold
    && s.procs[p].waiting + k > s.threshold + 1
  }

  lemma DoomedTick(s: Sys, p: Pid, k: nat)
    requires OneHome(s) && Ranged(s) && Doomed(s, p, k) && !PromotesFromTop(s)
    ensures k > 1 && Doomed(Ticked(s), p, k - 1)
  {
    assert p in s.procs && p !in Starved(s);
    TickedKeepsHomes(s);
    TickedTop(s, p);
  }

  /** The condition is exact: ticking from a busy state that is not safe does reach
      index -1. */
  lemma {:induction false} UnsafeTicksFault(s: Sys, p: Pid, es: seq<Event>)
    requires OneHome(s) && Ranged(s) && Doomed(s, p, |es|) && OnlyTicks(es)
    ensures !FaultFree(s, es)
    decreases |es|
  {
    var rest := es[1..];
    assert es == [Tick] + rest;
    FaultFreeTick(s, rest);
    if !PromotesFromTop(s) {
      DoomedTick(s, p, |es|);
      UnsafeTicksFault(Ticked(s), p, rest);
    }
  }

  /** With more than `threshold + 2` processes at level 0, one of them running, any
      `threshold + 2` ticks in a row reach index -1. */
  lemma CrowdIsUnsafe(s: Sys, es: seq<Event>)
    requires OneHome(s) && Ranged(s) && Busy(s) && |Top(s)| >= s.threshold + 2
    requires OnlyTicks(es) && |es| >= s.threshold + 2
    ensures !FaultFree(s, es)
  {
    var p := Top(s)[0];
    assert p in Top(s);
    UnsafeTicksFault(s, p, es);
  }

  /** The tick is the case of level 0 of the rounds that every level makes. */
  lemma TickedTop(s: Sys, p: Pid)
    requires OneHome(s) && Ranged(s) && Busy(s) && !PromotesFromTop(s) && p in Top(s)
    ensures Busy(Ticked(s))
    ensures Ahead(Top(s), p) == 0 ==> Current(Ticked(s)) == p
    ensures Ahead(Top(s), p) > 0 ==>
      && p in Top(Ticked(s))
      && Ahead(Top(Ticked(s)), p) == Ahead(Top(s), p) - 1
      && Ticked(s).procs[p] == s.procs[p].(waiting := s.procs[p].waiting + 1)
  {
    CurrentKnown(s);
    TickedRound(s, 0, p);
  }

  // ----- bounded waiting

  /** Counters never run past the promotion point. */
  ghost predicate Capped(s: Sys) {
    forall p :: p in s.procs ==> s.procs[p].waiting <= s.threshold + 1
  }

  lemma TickedCapped(s: Sys)
    requires OneHome(s) && Ranged(s) && Capped(s) && !PromotesFromTop(s)
    ensures Capped(Ticked(s))
  {
    AgedKeepsHomes(s);
    var a := Aged(s);
    assert Capped(a);
    if Busy(s) {
      CurrentKnown(a);
      PutBackKeepsHomes(a);
      assert Capped(PutBack(a));
    }
  }

  lemma NextCapped(s: Sys, e: Event)
    requires OneHome(s) && Ranged(s) && Capped(s) && Enabled(s, e) && !Faults(s, e)
    ensures Capped(Next(s, e))
  {
    if e.Tick? {
      TickedCapped(s);
    } else {
      forall p | p in Next(s, e).procs ensures Next(s, e).procs[p].waiting <= s.threshold + 1 {
        CounterKept(s, e, p);
      }
    }
  }

  /** Only ticks count a process's waiting up. */
  lemma CounterKept(s: Sys, e: Event, p: Pid)
    requires OneHome(s) && Ranged(s) && Enabled(s, e) && !e.Tick? && p in Next(s, e).procs
    ensures Next(s, e).threshold == s.threshold
    ensures Next(s, e).procs[p].waiting <= if p in s.procs then s.procs[p].waiting else 0
  {
  }

  ghost predicate IsReady(s: Sys, p: Pid) { p in s.procs && s.procs[p].status == Ready }

  ghost predicate Runs(s: Sys, p: Pid) { p in s.procs && s.procs[p].status == Running }

  /** Events that act on `p` itself other than by scheduling it. */
  predicate Targets(e: Event, p: Pid) {
    e == Exit(p) || e == ExitEvery || (e.Reprioritize? && e.p == p)
  }

  /** Ticks until a process reaches level 0 by promotion alone. */
  function Potential(pr: Proc, threshold: nat): (r: int) {
    pr.priority * (threshold + 2) - pr.waiting
  }

  /** An upper bound on the ticks before `p` runs, when `n` processes compete. */
  ghost function WaitBound(s: Sys, p: Pid, n: nat): (r: int)
    requires OneHome(s) && IsReady(s, p)
  {
    var pr := s.procs[p];
    assert p in Q(s, ReadyQ(pr.priority));
    if pr.priority == 0 then Ahead(Top(s), p) + 1
    else Potential(pr, s.threshold) + n - 1
  }

  /** `t` leaves `x` in line, no later than in `s`. */
  ghost predicate NoLater(s: Sys, t: Sys, x: Pid)
    requires x in s.procs
  {
    && x in t.procs && t.procs[x] == s.procs[x]
    && (x in Top(s) ==> x in Top(t) && Ahead(Top(t), x) <= Ahead(Top(s), x))
  }

  lemma MovedNoLater(s: Sys, p: Pid, pr: Proc, x: Pid)
    requires OneHome(s) && p in s.procs && x in s.procs && x != p && (HomeOf(pr) == Cpu ==> !Busy(s))
    ensures NoLater(s, Moved(s, p, pr), x)
  {
    MovedKeepsHomes(s, p, pr);
    if x in Top(s) { MovedOthersAhead(s, p, pr, x); }
  }

  lemma {:induction false} DrainedOthersAhead(s: Sys, k: Place, x: Pid)
    requires OneHome(s) && Ranged(s) && k != ExitQ && !k.ReadyQ? && x in Top(s)
    ensures x in Top(Drained(s, k, Ready))
    ensures Ahead(Top(Drained(s, k, Ready)), x) <= Ahead(Top(s), x)
    decreases |Q(s, k)|
  {
    if Q(s, k) != [] {
      var p := Last(Q(s, k));
      DrainMove(s, k);
      assert x in s.procs && HomeOf(s.procs[x]) == ReadyQ(0);
      MovedNoLater(s, p, WithStatus(s, p, Ready), x);
      DrainedOthersAhead(Moved(s, p, WithStatus(s, p, Ready)), k, x);
    }
  }

  lemma OtherEventsNoLater(s: Sys, e: Event, x: Pid)
    requires OneHome(s) && Ranged(s) && Enabled(s, e) && IsReady(s, x) && !Targets(e, x)
    requires !e.Tick? && !e.Dispatch?
    ensures NoLater(s, Next(s, e), x)
  {
    assert x in Q(s, ReadyQ(s.procs[x].priority));
    if Busy(s) { CurrentKnown(s); }
    match e
    case Create(p, k) =>
    case Run(p) => if p in Q(s, NewQ) { MovedNoLater(s, p, WithStatus(s, p, Ready), x); }
    case RunEvery => if x in Top(s) { DrainedOthersAhead(s, NewQ, x); }
    case Block(c) => MovedNoLater(s, Current(s), WithStatus(s, Current(s), Blocked(c)), x);
    case Wake(c) =>
      var q := Q(s, ChanQ(c));
      if q != [] {
        assert Last(q) in q;
        MovedNoLater(s, Last(q), WithStatus(s, Last(q), Ready), x);
      }
    case WakeEvery(c) => if x in Top(s) { DrainedOthersAhead(s, ChanQ(c), x); }
    case Exit(p) =>
      if p in s.procs { MovedNoLater(s, p, WithStatus(s, p, Exited), x); }
    case Reprioritize(p, k) =>
      if s.procs[p].status == Ready { MovedNoLater(s, p, s.procs[p].(priority := k, waiting := 0), x); }
  }

  lemma DispatchedNoLater(s: Sys, x: Pid)
    requires OneHome(s) && Ranged(s) && !Busy(s) && IsReady(s, x)
    ensures Runs(Dispatched(s), x) || NoLater(s, Dispatched(s), x)
  {
    var i := FirstLevel(s, 0);
    if i < s.levels {
      var p := Last(Q(s, ReadyQ(i)));
      assert p in Q(s, ReadyQ(i));
      if p != x { MovedNoLater(s, p, WithStatus(s, p, Running), x); }
    }
  }

  /** A ready process that a tick does not dispatch is aged or promoted, exactly once. */
  lemma TickedProc(s: Sys, x: Pid)
    requires OneHome(s) && Ranged(s) && Busy(s) && !PromotesFromTop(s) && IsReady(s, x)
    ensures Runs(Ticked(s), x) || (x in Ticked(s).procs && Ticked(s).procs[x] == AgedProc(s, x))
  {
    AgedKeepsHomes(s);
    var a := Aged(s);
    CurrentKnown(a);
    PutBackKeepsHomes(a);
    var b := PutBack(a);
    DispatchedNoLater(b, x);
  }

  lemma AgedPotential(s: Sys, x: Pid)
    requires IsReady(s, x) && s.procs[x].priority > 0 && s.procs[x].waiting <= s.threshold + 1
    ensures Potential(AgedProc(s, x), s.threshold) == Potential(s.procs[x], s.threshold) - 1
  {
    var pr := s.procs[x];
    assert (pr.priority - 1) * (s.threshold + 2) == pr.priority * (s.threshold + 2) - (s.threshold + 2);
  }

  /** Above level 0 the potential of a waiting process falls by exactly one with each tick. */
  lemma TickPotential(s: Sys, x: Pid)
    requires OneHome(s) && Ranged(s) && Capped(s) && Busy(s) && !PromotesFromTop(s)
    requires IsReady(s, x) && s.procs[x].priority > 0
    ensures Runs(Ticked(s), x) ||
      (x in Ticked(s).procs &&
       Potential(Ticked(s).procs[x], s.threshold) == Potential(s.procs[x], s.threshold) - 1)
  {
    AgedPotential(s, x);
    TickedProc(s, x);
  }

  lemma TickWaitTop(s: Sys, x: Pid, n: nat)
    requires OneHome(s) && Ranged(s) && Busy(s) && !PromotesFromTop(s) && IsReady(s, x)
    requires s.procs[x].priority == 0
    ensures Keeps(s, Ticked(s))
    ensures Runs(Ticked(s), x) ||
      (IsReady(Ticked(s), x) && WaitBound(Ticked(s), x, n) == WaitBound(s, x, n) - 1)
  {
    TickedKeepsHomes(s);
    assert x in Q(s, ReadyQ(0));
    TickedTop(s, x);
    if Ahead(Top(s), x) == 0 { CurrentKnown(Ticked(s)); }
  }

  lemma ArrivalAtTop(t: Sys, x: Pid, n: nat)
    requires OneHome(t) && Busy(t) && IsReady(t, x) && t.procs[x].priority == 0 && |Runnable(t)| <= n
    ensures WaitBound(t, x, n) <= n - 1
  {
    assert x in Q(t, ReadyQ(0));
    TopBound(t);
  }

  lemma TickWaitBound(s: Sys, x: Pid, n: nat)
    requires OneHome(s) && Ranged(s) && Capped(s) && Busy(s) && !PromotesFromTop(s) && IsReady(s, x)
    requires |Runnable(Ticked(s))| <= n
    ensures Keeps(s, Ticked(s))
    ensures Runs(Ticked(s), x) ||
      (IsReady(Ticked(s), x) && WaitBound(Ticked(s), x, n) <= WaitBound(s, x, n) - 1)
  {
    TickedKeepsHomes(s);
    if s.procs[x].priority == 0 {
      TickWaitTop(s, x, n);
    } else {
      TickedProc(s, x);
      TickPotential(s, x);
      TickBusy(s);
      BoundFromPotential(s, Ticked(s), x, n);
    }
  }

  lemma BoundFromPotential(s: Sys, t: Sys, x: Pid, n: nat)
    requires OneHome(s) && Ranged(s) && Capped(s) && IsReady(s, x) && s.procs[x].priority > 0
    requires Keeps(s, t) && Busy(t) && |Runnable(t)| <= n
    requires Runs(t, x) ||
      (t.procs[x] == AgedProc(s, x) &&
       Potential(t.procs[x], s.threshold) == Potential(s.procs[x], s.threshold) - 1)
    ensures Runs(t, x) || (IsReady(t, x) && WaitBound(t, x, n) <= WaitBound(s, x, n) - 1)
  {
    if !Runs(t, x) && t.procs[x].priority == 0 { ArrivalAtTop(t, x, n); }
  }

  lemma DispatchedBusy(s: Sys, p: Pid)
    requires OneHome(s) && Ranged(s) && !Busy(s) && IsReady(s, p)
    ensures Busy(Dispatched(s))
  {
    assert p in Q(s, ReadyQ(s.procs[p].priority));
    var j := FirstLevel(s, 0);
    assert j < s.levels;
    var x := Last(Q(s, ReadyQ(j)));
    assert x in Q(s, ReadyQ(j));
    MovedKeepsHomes(s, x, WithStatus(s, x, Running));
  }

  lemma TickBusy(s: Sys)
    requires OneHome(s) && Ranged(s) && Busy(s) && !PromotesFromTop(s)
    ensures Busy(Ticked(s))
  {
    AgedKeepsHomes(s);
    var a := Aged(s);
    CurrentKnown(a);
    PutBackKeepsHomes(a);
    DispatchedBusy(PutBack(a), Current(a));
  }

  function Ticks(es: seq<Event>): (r: nat) {
    if es == [] then 0 else (if es[0].Tick? then 1 else 0) + Ticks(es[1..])
  }

  /** Some state of the run, after its start, has `p` on the processor. */
  ghost predicate Dispatches(s: Sys, es: seq<Event>, p: Pid)
    requires OneHome(s) && Ranged(s)
    decreases |es|
  {
    es != [] && Enabled(s, es[0]) && !Faults(s, es[0]) &&
    (NextKeepsHomes(s, es[0]); Runs(Next(s, es[0]), p) || Dispatches(Next(s, es[0]), es[1..], p))
  }

  lemma NoLaterBound(s: Sys, t: Sys, p: Pid, n: nat)
    requires OneHome(s) && OneHome(t) && t.threshold == s.threshold && IsReady(s, p) && NoLater(s, t, p)
    ensures IsReady(t, p) && WaitBound(t, p, n) <= WaitBound(s, p, n)
  {
    assert p in Q(s, ReadyQ(s.procs[p].priority));
  }

  lemma ClockFindsBusy(s: Sys, p: Pid)
    requires OneHome(s) && Ranged(s) && ClockRuns(s) && IsReady(s, p)
    ensures Busy(s)
  {
    if !Busy(s) {
      assert p in Q(s, ReadyQ(s.procs[p].priority));
      NobodyReady(s, s.procs[p].priority);
      assert false;
    }
  }

  lemma OtherWaitBound(s: Sys, e: Event, p: Pid, n: nat)
    requires OneHome(s) && Ranged(s) && Enabled(s, e) && !e.Tick?
    requires IsReady(s, p) && !Targets(e, p)
    ensures OneHome(Next(s, e)) && Ranged(Next(s, e))
    ensures Runs(Next(s, e), p) || (IsReady(Next(s, e), p) && WaitBound(Next(s, e), p, n) <= WaitBound(s, p, n))
  {
    var t := Next(s, e);
    NextKeepsHomes(s, e);
    if e.Dispatch? { DispatchedNoLater(s, p); } else { OtherEventsNoLater(s, e, p); }
    if !Runs(t, p) { NoLaterBound(s, t, p, n); }
  }

  lemma NextWaitBound(s: Sys, e: Event, p: Pid, n: nat)
    requires OneHome(s) && Ranged(s) && Capped(s) && Admitted(s, e, n) && !Faults(s, e)
    requires IsReady(s, p) && !Targets(e, p)
    ensures OneHome(Next(s, e)) && Ranged(Next(s, e))
    ensures Runs(Next(s, e), p) ||
      (IsReady(Next(s, e), p) &&
       WaitBound(Next(s, e), p, n) <= WaitBound(s, p, n) - (if e.Tick? then 1 else 0))
  {
    if e.Tick? {
      ClockFindsBusy(s, p);
      assert Next(s, e) == Ticked(s);
      TickWaitBound(s, p, n);
    } else {
      OtherWaitBound(s, e, p, n);
    }
  }

  lemma WaitBoundPositive(s: Sys, p: Pid, n: nat)
    requires OneHome(s) && Ranged(s) && Capped(s) && IsReady(s, p) && n > 0
    ensures WaitBound(s, p, n) >= 1
  {
    var pr := s.procs[p];
    if pr.priority > 0 {
      assert pr.priority * (s.threshold + 2) >= 1 * (s.threshold + 2);
    }
  }

  /** A run with as many ticks as `WaitBound` dispatches the process. */
  lemma {:induction false} DispatchedWithinBound(s: Sys, es: seq<Event>, p: Pid, n: nat)
    requires OneHome(s) && Ranged(s) && Capped(s) && Safe(s) && AdmittedRun(s, es, n)
    requires |Runnable(s)| <= n <= s.threshold + 2
    requires IsReady(s, p) && (forall e :: e in es ==> !Targets(e, p))
    requires Ticks(es) >= WaitBound(s, p, n)
    ensures Dispatches(s, es, p)
    decreases |es|
  {
    RunnableNonEmpty(s, p);
    WaitBoundPositive(s, p, n);
    NextSafe(s, es[0], n);
    NextKeepsHomes(s, es[0]);
    NextWaitBound(s, es[0], p, n);
    NextCapped(s, es[0]);
    if !Runs(Next(s, es[0]), p) {
      DispatchedWithinBound(Next(s, es[0]), es[1..], p, n);
    }
  }

  lemma RunnableNonEmpty(s: Sys, p: Pid)
    requires IsReady(s, p)
    ensures |Runnable(s)| > 0
  {
    assert p in Runnable(s);
  }

  /** Bounded waiting: with `n <= threshold + 2` competing processes, a ready process is
      dispatched within `priority * (threshold + 2) + n` ticks. */
  lemma BoundedWaiting(s: Sys, es: seq<Event>, p: Pid, n: nat)
    requires OneHome(s) && Ranged(s) && Capped(s) && Safe(s) && AdmittedRun(s, es, n)
    requires |Runnable(s)| <= n <= s.threshold + 2
    requires IsReady(s, p) && (forall e :: e in es ==> !Targets(e, p))
    requires Ticks(es) >= s.procs[p].priority * (s.threshold + 2) + n
    ensures Dispatches(s, es, p)
  {
    assert p in Q(s, ReadyQ(s.procs[p].priority));
    TopBound(s);
    DispatchedWithinBound(s, es, p, n);
  }

  // ----- where a stale counter hurts

  /** `wakeup_one` keeps a level-0 system safe exactly when the counter the sleeper kept
      still fits in front of the processes already queued there. */
  lemma WakeIsSafeIff(s: Sys, c: ChannelId)
    requires OneHome(s) && Ranged(s) && Safe(s) && Q(s, ChanQ(c)) != []
    ensures var p := Last(Q(s, ChanQ(c)));
      && p in s.procs
      && (s.procs[p].priority == 0 ==>
           (Safe(WakeOne(s, c)) <==> s.procs[p].waiting + |Top(s)| <= s.threshold + Idle(s)))
  {
    var p := Last(Q(s, ChanQ(c)));
    assert p in Q(s, ChanQ(c));
    var pr := WithStatus(s, p, Ready);
    if pr.priority == 0 {
      MovedKeepsHomes(s, p, pr);
      var t := WakeOne(s, c);
      assert Top(t) == [p] + Top(s) && t.procs[p] == pr;
      assert p in Top(t) && Ahead(Top(t), p) == |Top(s)|;
      if s.procs[p].waiting + |Top(s)| <= s.threshold + Idle(s) { SafeMoved(s, p, pr); }
    }
  }

  /** Two processes and threshold 0: the sleeper ran after waiting one tick, so it wakes
      with counter 1 ... */
  ghost function StaleSleeper(): (s: Sys) {
    Sys(map[1 := Proc(Running, 0, 0), 2 := Proc(Blocked(7), 0, 1)],
        map[Cpu := [1], ChanQ(7) := [2]], 1, 0)
  }

  lemma StaleSleeperHomes()
    ensures OneHome(StaleSleeper()) && Ranged(StaleSleeper()) && Safe(StaleSleeper())
  {
    var s := StaleSleeper();
    assert Q(s, Cpu) == [1] && Q(s, ChanQ(7)) == [2] && Top(s) == [];
    forall k ensures NoDup(Q(s, k)) { }
    forall p, k ensures p in Q(s, k) <==> p in s.procs && HomeOf(s.procs[p]) == k { }
  }

  /** ... and the next tick uses index -1. */
  lemma StaleWakeupFaults()
    ensures exists s: Sys, c ::
      && OneHome(s) && Ranged(s) && Safe(s) && Busy(s)
      && |Runnable(WakeOne(s, c))| <= s.threshold + 2
      && !FaultFree(s, [Wake(c), Tick])
  {
    var s := StaleSleeper();
    StaleSleeperHomes();
    var t := WakeOne(s, 7);
    WakeKeepsHomes(s, 7);
    MovedKeepsHomes(s, 2, WithStatus(s, 2, Ready));
    assert Runnable(t) == {1, 2};
    assert 2 in Top(t) && 2 in Starved(t);
    FaultFreeTick(t, []);
    assert [Wake(7), Tick][1..] == [Tick] + [];
  }
}
