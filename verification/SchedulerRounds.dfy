/** Turns: at one level processes run in rotation, and sleepers of one channel wake in the
    order of falling asleep. */
module SchedulerRounds {
  import opened Seqs
  import opened Scheduler
  import opened SchedulerSteps
  import opened SchedulerRuns

  // ----- round robin

  /** For `n` ticks level `i` stays the first in use and nobody there is due for promotion. */
  ghost predicate Calm(s: Sys, i: nat, n: nat) {
    && i < s.levels && n <= s.threshold + 1 && (forall k: nat :: k < i ==> Q(s, ReadyQ(k)) == [])
    && Busy(s) && Current(s) in s.procs && s.procs[Current(s)].priority >= i
    && forall x :: x in Q(s, ReadyQ(i)) && x in s.procs ==> s.procs[x].waiting + n <= s.threshold + 1
  }

  lemma CalmRound(s: Sys, i: nat, n: nat)
    requires OneHome(s) && Ranged(s) && Calm(s, i, n) && n > 0
    ensures !PromotesFromTop(s) && Round(s, i)
  {
    forall x | x in Q(s, ReadyQ(i)) ensures x !in Starved(s) { }
    assert i > 0 ==> Q(s, ReadyQ(0)) == [];
  }

  /** Nobody gets below level `i`. */
  lemma NobodyBelow(s: Sys, i: nat, x: Pid)
    requires OneHome(s) && Ranged(s) && Round(s, i) && IsReady(s, x)
    ensures AgedProc(s, x).priority >= i
  {
    var j := s.procs[x].priority;
    assert x in Q(s, ReadyQ(j));
    assert j < i ==> Q(s, ReadyQ(j)) == [];
  }

  lemma PickedBelow(s: Sys, i: nat, b: Sys, k: nat)
    requires OneHome(s) && Ranged(s) && Round(s, i) && OneHome(b) && k < i
    requires b.procs == Aged(s).procs[Current(s) := Proc(Ready, s.procs[Current(s)].priority, 0)]
    ensures Q(b, ReadyQ(k)) == []
  {
    var q := Q(b, ReadyQ(k));
    if q != [] {
      var x := q[0];
      assert x in q;
      BelowReady(s, b, x, k);
      if x != Current(s) { NobodyBelow(s, i, x); }
    }
  }

  lemma BelowReady(s: Sys, b: Sys, x: Pid, k: nat)
    requires OneHome(s) && Ranged(s) && Busy(s) && Current(s) in s.procs && OneHome(b) && x in Q(b, ReadyQ(k))
    requires b.procs == Aged(s).procs[Current(s) := Proc(Ready, s.procs[Current(s)].priority, 0)]
    ensures if x == Current(s) then s.procs[x].priority == k else IsReady(s, x) && AgedProc(s, x).priority == k
  {
    assert HomeOf(b.procs[x]) == ReadyQ(k);
  }

  lemma CalmPicked(s: Sys, t: Sys, i: nat, b: Sys, j: nat, p: Pid)
    requires OneHome(s) && Ranged(s) && Busy(s) && Round(s, i) && Picks(s, t, b, j, p)
    ensures j >= i && forall k: nat :: k < i ==> Q(t, ReadyQ(k)) == []
  {
    forall k: nat | k < i ensures Q(b, ReadyQ(k)) == [] { PickedBelow(s, i, b, k); }
  }

  /** A process that is ready after a tick was running before it, or ready and aged. */
  lemma WasReady(s: Sys, t: Sys, b: Sys, j: nat, p: Pid, x: Pid)
    requires Busy(s) && Picks(s, t, b, j, p) && x in t.procs && t.procs[x].status == Ready
    ensures if x == Current(s) then t.procs[x].waiting == 0 else IsReady(s, x) && t.procs[x] == AgedProc(s, x)
  {
    assert x != p && x in b.procs && t.procs[x] == b.procs[x];
    if x != Current(s) { assert x in Aged(s).procs && Aged(s).procs[x] == AgedProc(s, x); }
  }

  lemma CalmWaiting(s: Sys, i: nat, n: nat, t: Sys, x: Pid)
    requires OneHome(s) && Calm(s, i, n) && n > 0 && x in t.procs && HomeOf(t.procs[x]) == ReadyQ(i)
    requires if x == Current(s) then t.procs[x].waiting == 0 else IsReady(s, x) && t.procs[x] == AgedProc(s, x)
    ensures t.procs[x].waiting + n - 1 <= s.threshold + 1
  {
    if x != Current(s) && s.procs[x].priority == i { assert x in Q(s, ReadyQ(i)); }
  }

  lemma CalmAfter(s: Sys, t: Sys, i: nat, n: nat, b: Sys, j: nat, p: Pid)
    requires OneHome(s) && Ranged(s) && Calm(s, i, n) && n > 0 && Round(s, i) && Picks(s, t, b, j, p) && Keeps(s, t)
    ensures Calm(t, i, n - 1)
  {
    CalmPicked(s, t, i, b, j, p);
    PickedFrom(s, t, b, j, p);
    forall x | x in Q(t, ReadyQ(i)) && x in t.procs ensures t.procs[x].waiting + n - 1 <= t.threshold + 1 {
      assert HomeOf(t.procs[x]) == ReadyQ(i);
      WasReady(s, t, b, j, p, x);
      CalmWaiting(s, i, n, t, x);
    }
  }

  lemma CalmTick(s: Sys, i: nat, n: nat)
    requires OneHome(s) && Ranged(s) && Calm(s, i, n) && n > 0
    ensures !PromotesFromTop(s) && Keeps(s, Ticked(s)) && Calm(Ticked(s), i, n - 1)
  {
    CalmRound(s, i, n);
    TickedKeepsHomes(s);
    var b, j, p := TickedPicks(s);
    CalmAfter(s, Ticked(s), i, n, b, j, p);
  }

  /** `p` is at level `i` with `a` processes ahead of it, for `n` calm ticks. */
  ghost predicate InTurn(s: Sys, i: nat, p: Pid, a: nat, n: nat) {
    OneHome(s) && Ranged(s) && Calm(s, i, n) && a < n && p in Q(s, ReadyQ(i)) && Ahead(Q(s, ReadyQ(i)), p) == a
  }

  lemma RoundStep(s: Sys, i: nat, p: Pid, a: nat, n: nat)
    requires InTurn(s, i, p, a, n)
    ensures !PromotesFromTop(s) && Keeps(s, Ticked(s))
    ensures if a == 0 then Runs(Ticked(s), p) else IsReady(Ticked(s), p) && InTurn(Ticked(s), i, p, a - 1, n - 1)
  {
    CalmRound(s, i, n);
    CalmTick(s, i, n);
    TickedRound(s, i, p);
    var t := Ticked(s);
    if a == 0 { CurrentKnown(t); } else { assert HomeOf(t.procs[p]) == ReadyQ(i); }
  }

  /** The states of a run of ticks. */
  ghost predicate TickRun(ss: seq<Sys>) {
    forall j, k :: 0 <= j && k == j + 1 < |ss| ==> IsTick(ss[j], ss[k])
  }

  ghost predicate IsTick(s: Sys, t: Sys) { OneHome(s) && Ranged(s) && !PromotesFromTop(s) && t == Ticked(s) }

  lemma {:induction false} TurnNearer(ss: seq<Sys>, i: nat, p: Pid, a: nat, n: nat, j: nat)
    requires TickRun(ss) && j <= a && j < |ss| && InTurn(ss[0], i, p, a, n)
    ensures InTurn(ss[j], i, p, a - j, n - j)
  {
    if j > 0 {
      var k := j - 1;
      TurnNearer(ss, i, p, a, n, k);
      assert IsTick(ss[k], ss[j]);
      RoundStep(ss[k], i, p, a - k, n - k);
    }
  }

  /** Round robin: at the first level in use, whichever it is, a process waits through as
      many ticks as there are processes ahead of it, and runs after the next. */
  lemma RoundRobin(ss: seq<Sys>, i: nat, p: Pid, n: nat)
    requires TickRun(ss) && ss != [] && OneHome(ss[0]) && Ranged(ss[0]) && Calm(ss[0], i, n)
    requires p in Q(ss[0], ReadyQ(i)) && Ahead(Q(ss[0], ReadyQ(i)), p) < n
    ensures var a := Ahead(Q(ss[0], ReadyQ(i)), p);
      && (forall j :: 0 <= j <= a && j < |ss| ==> IsReady(ss[j], p))
      && (a + 1 < |ss| ==> Runs(ss[a + 1], p))
  {
    var a := Ahead(Q(ss[0], ReadyQ(i)), p);
    forall j | 0 <= j <= a && j < |ss| ensures IsReady(ss[j], p) {
      TurnNearer(ss, i, p, a, n, j);
      assert HomeOf(ss[j].procs[p]) == ReadyQ(i);
    }
    if a + 1 < |ss| {
      var last := a + 1;
      TurnNearer(ss, i, p, a, n, a);
      assert IsTick(ss[a], ss[last]);
      RoundStep(ss[a], i, p, 0, n - a);
    }
  }

  /** And there is such a run: no tick of it promotes out of level 0. */
  lemma {:induction false} CalmRun(s: Sys, i: nat, n: nat) returns (ss: seq<Sys>)
    requires OneHome(s) && Ranged(s) && Calm(s, i, n)
    ensures |ss| == n + 1 && ss[0] == s && TickRun(ss)
    decreases n
  {
    ss := [s];
    if n > 0 {
      CalmTick(s, i, n);
      var rest := CalmRun(Ticked(s), i, n - 1);
      ss := [s] + rest;
      forall j, k | 0 <= j && k == j + 1 < |ss| ensures IsTick(ss[j], ss[k]) {
        if j > 0 { assert IsTick(rest[j - 1], rest[k - 1]); }
      }
    }
  }

  // ----- sleepers

  ghost predicate IsRun(s: Sys, es: seq<Event>)
    requires OneHome(s) && Ranged(s)
    decreases |es|
  {
    es == [] ||
    (Enabled(s, es[0]) && !Faults(s, es[0]) && (NextKeepsHomes(s, es[0]); IsRun(Next(s, es[0]), es[1..])))
  }

  ghost function After(s: Sys, es: seq<Event>): (t: Sys)
    requires OneHome(s) && Ranged(s) && IsRun(s, es)
    ensures OneHome(t) && Ranged(t)
    decreases |es|
  {
    if es == [] then s else (NextKeepsHomes(s, es[0]); After(Next(s, es[0]), es[1..]))
  }

  /** `p` sleeps on `c` with `m` sleepers to be woken before it. */
  ghost predicate SleepsBehind(s: Sys, p: Pid, c: ChannelId, m: nat) {
    p in s.procs && s.procs[p].status == Blocked(c) && p in Q(s, ChanQ(c)) && Ahead(Q(s, ChanQ(c)), p) == m
  }

  lemma TickChannel(s: Sys, c: ChannelId)
    requires OneHome(s) && Ranged(s) && !PromotesFromTop(s)
    ensures Q(Ticked(s), ChanQ(c)) == Q(s, ChanQ(c))
  {
    AgedKeepsHomes(s);
    AgedPlaces(s, ChanQ(c));
    if Busy(s) {
      PutBackIs(Aged(s));
      DispatchedIs(PutBack(Aged(s)));
    }
  }

  /** Every event's effect on the sleepers of a channel: only a sleep on that channel adds
      one, as the newest; only its wakeups take any away, the oldest or all. */
  lemma ChannelStep(s: Sys, e: Event, c: ChannelId)
    requires OneHome(s) && Ranged(s) && Enabled(s, e) && !Faults(s, e)
    ensures var q := Q(s, ChanQ(c));
      Q(Next(s, e), ChanQ(c)) ==
        if e == Block(c) then [Current(s)] + q
        else if e == Wake(c) && q != [] then q[..|q| - 1]
        else if e == WakeEvery(c) then [] else q
  {
    match e
    case Block(d) => SleepIs(s, d);
    case Wake(d) => WakeIs(s, d);
    case WakeEvery(d) => if d == c { DrainedOrder(s, ChanQ(c), 0); } else { DrainedRest(s, ChanQ(d), ChanQ(c)); }
    case _ => ChannelKept(s, e, c);
  }

  lemma ChannelKept(s: Sys, e: Event, c: ChannelId)
    requires OneHome(s) && Ranged(s) && Enabled(s, e) && !Faults(s, e) && !e.Block? && !e.Wake? && !e.WakeEvery?
    ensures Q(Next(s, e), ChanQ(c)) == Q(s, ChanQ(c))
  {
    match e
    case Create(p, k) =>
    case Run(p) => RunIs(s, p);
    case RunEvery => DrainedRest(s, NewQ, ChanQ(c));
    case Tick => TickChannel(s, c);
    case Dispatch => DispatchedIs(s);
    case Exit(p) => ExitIs(s, p);
    case ExitEvery => ExitLevelsRest(s, 0, ChanQ(c));
    case Reprioritize(p, k) => SetPriorityIs(s, p, k);
  }

  lemma SleeperStep(s: Sys, e: Event, p: Pid, c: ChannelId, m: nat)
    requires OneHome(s) && Ranged(s) && Enabled(s, e) && !Faults(s, e) && SleepsBehind(s, p, c, m) && e != WakeEvery(c)
    ensures if e != Wake(c) then SleepsBehind(Next(s, e), p, c, m)
      else if m > 0 then SleepsBehind(Next(s, e), p, c, m - 1) else IsReady(Next(s, e), p)
  {
    var q, t := Q(s, ChanQ(c)), Next(s, e);
    ChannelStep(s, e, c);
    NextKeepsHomes(s, e);
    assert NoDup(q);
    if e == Block(c) {
      CurrentKnown(s);
      AheadPrefix([Current(s)], q, p);
    } else if e == Wake(c) {
      AheadZero(q, p);
      if m > 0 { AheadDropLast(q, p); } else { WakeIs(s, c); }
    }
    if p in Q(t, ChanQ(c)) { assert HomeOf(t.procs[p]) == ChanQ(c); }
  }

  function Wakes(es: seq<Event>, c: ChannelId): (r: nat) {
    if es == [] then 0 else (if es[0] == Wake(c) then 1 else 0) + Wakes(es[1..], c)
  }

  /** Over any run without a `wakeup_all` of its channel, a sleeper stays asleep through as
      many wakeups as there are sleepers ahead of it, and is ready after the next. */
  lemma {:induction false} WokenInTurn(s: Sys, es: seq<Event>, p: Pid, c: ChannelId, m: nat)
    requires OneHome(s) && Ranged(s) && IsRun(s, es) && SleepsBehind(s, p, c, m) && WakeEvery(c) !in es
    requires Wakes(es, c) <= m
    ensures SleepsBehind(After(s, es), p, c, m - Wakes(es, c))
    ensures Wakes(es, c) == m ==> IsReady(Next(After(s, es), Wake(c)), p)
    decreases |es|
  {
    if es == [] {
      SleeperStep(s, Wake(c), p, c, m);
    } else {
      assert es[0] in es;
      SleeperStep(s, es[0], p, c, m);
      NextKeepsHomes(s, es[0]);
      WokenInTurn(Next(s, es[0]), es[1..], p, c, if es[0] == Wake(c) then m - 1 else m);
    }
  }

  // ----- what becomes of a process

  /** The ways in which an event may change the status of `p`. */
  predicate MayBecome(e: Event, p: Pid, was: Status, now: Status) {
    || now == was
    || (was == New && now == Ready && (e == Run(p) || e == RunEvery))
    || (was == Ready && now == Running && (e == Tick || e == Dispatch))
    || (was == Running && now == Ready && e == Tick)
    || (was == Running && now.Blocked? && e == Block(now.on))
    || (was.Blocked? && now == Ready && (e == Wake(was.on) || e == WakeEvery(was.on)))
    || (was == Ready && now == Exited && (e == Exit(p) || e == ExitEvery))
    || (was == Running && now == Exited && e == Exit(p))
  }

  lemma TickStatus(s: Sys, p: Pid)
    requires OneHome(s) && Ranged(s) && !PromotesFromTop(s) && p in s.procs
    ensures p in Ticked(s).procs && MayBecome(Tick, p, s.procs[p].status, Ticked(s).procs[p].status)
  {
    if Busy(s) {
      CurrentKnown(s);
      var b, i, x := TickedPicks(s);
      PickedFrom(s, Ticked(s), b, i, x);
      assert Aged(s).procs[p] == AgedProc(s, p);
    }
  }

  lemma DispatchStatus(s: Sys, p: Pid)
    requires OneHome(s) && Ranged(s) && !Busy(s) && p in s.procs
    ensures p in Dispatched(s).procs && MayBecome(Dispatch, p, s.procs[p].status, Dispatched(s).procs[p].status)
  {
    var i := FirstLevel(s, 0);
    DispatchedIs(s);
    if i < s.levels {
      assert Best(s, i);
      var q := Q(s, ReadyQ(i));
      assert q[|q| - 1] in q && HomeOf(s.procs[q[|q| - 1]]) == ReadyQ(i);
    }
  }

  lemma WakeStatus(s: Sys, c: ChannelId, p: Pid)
    requires OneHome(s) && p in s.procs
    ensures p in WakeOne(s, c).procs && MayBecome(Wake(c), p, s.procs[p].status, WakeOne(s, c).procs[p].status)
  {
    var q := Q(s, ChanQ(c));
    WakeIs(s, c);
    if q != [] { assert q[|q| - 1] in q && HomeOf(s.procs[q[|q| - 1]]) == ChanQ(c); }
  }

  /** A process changes its status only along these edges: created, made ready, dispatched,
      preempted, blocked, woken, gone, and each by its own event only. */
  lemma StatusStep(s: Sys, e: Event, p: Pid)
    requires OneHome(s) && Ranged(s) && Enabled(s, e) && !Faults(s, e) && p in s.procs
    ensures p in Next(s, e).procs && MayBecome(e, p, s.procs[p].status, Next(s, e).procs[p].status)
  {
    match e
    case Tick => TickStatus(s, p);
    case Dispatch => DispatchStatus(s, p);
    case Run(x) => RunIs(s, x); assert x in Q(s, NewQ) ==> HomeOf(s.procs[x]) == NewQ;
    case Block(c) => SleepIs(s, c); CurrentKnown(s);
    case Wake(c) => WakeStatus(s, c, p);
    case Exit(x) => ExitIs(s, x);
    case Reprioritize(x, k) => SetPriorityIs(s, x, k);
    case _ =>
  }

  /** Once gone, a process stays gone. */
  lemma {:induction false} ExitedForGood(s: Sys, es: seq<Event>, p: Pid)
    requires OneHome(s) && Ranged(s) && IsRun(s, es) && p in s.procs && s.procs[p].status == Exited
    ensures p in After(s, es).procs && After(s, es).procs[p].status == Exited
    decreases |es|
  {
    if es != [] {
      StatusStep(s, es[0], p);
      NextKeepsHomes(s, es[0]);
      ExitedForGood(Next(s, es[0]), es[1..], p);
    }
  }
}
