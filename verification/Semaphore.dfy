/** The kernel semaphore under any interleaving of its callers. */
module Semaphore {
  import opened Seqs
  import opened Channel

  /** Program points of `wait_ksemaphore` and `signal_ksemaphore`. */
  datatype Pc =
    | Idle
    | Decrement             // wait: holds lk
    | Sleeping(at: SleepPc) // wait: inside sleep
    | WaitExit              // wait: holds lk, about to release it and return
    | Increment             // signal: holds lk
    | WakeTakeQ             // wakeup_one: holds lk, about to acquire qlock
    | WakeDequeue           // wakeup_one: holds lk and qlock
    | WakeDropQ             // wakeup_one: holds lk and qlock, about to release qlock
    | SignalExit            // signal: holds lk, about to release it and return

  /** `waits`, `signals` and `completed` count executed decrements, executed increments
      and returned waits. */
  datatype Sem = Sem(c: Chan, count: int, pcs: map<Pid, Pc>, init: int, waits: nat, signals: nat, completed: nat)

  datatype Action = CallWait(p: Pid) | CallSignal(p: Pid) | Advance(p: Pid) | TakeQlock | ReturnQlock

  function Initial(value: int): (s: Sem) { Sem(Unused, value, map[], value, 0, 0, 0) }

  function At(s: Sem, p: Pid): (r: Pc) { if p in s.pcs then s.pcs[p] else Idle }

  predicate HoldsLk(pc: Pc) {
    match pc
    case Idle => false
    case Sleeping(at) => SleeperHoldsLk(at)
    case _ => true
  }

  predicate HoldsQ(pc: Pc) {
    match pc
    case Sleeping(at) => SleeperHoldsQ(at)
    case _ => pc == WakeDequeue || pc == WakeDropQ
  }

  predicate Enabled(s: Sem, a: Action) {
    match a
    case CallWait(p) => At(s, p) == Idle && s.c.lk == None
    case CallSignal(p) => At(s, p) == Idle && s.c.lk == None
    case TakeQlock => s.c.qlock == QFree
    case ReturnQlock => s.c.qlock == QOther
    case Advance(p) =>
      match At(s, p)
      case Idle => false
      case Sleeping(at) => SleepEnabled(s.c, at)
      case WakeTakeQ => s.c.qlock == QFree
      case _ => true
  }

  function Goto(s: Sem, p: Pid, pc: Pc): (r: Sem) { s.(pcs := s.pcs[p := pc]) }

  /** One step of the process `p`. */
  function Stepped(s: Sem, p: Pid): (r: Sem) {
    match At(s, p)
    case Idle => s
    case Decrement =>
      Goto(s, p, if s.count - 1 < 0 then Sleeping(TakeQ) else WaitExit).(count := s.count - 1, waits := s.waits + 1)
    case Sleeping(at) =>
      Goto(s, p, if SleepNext(at).Some? then Sleeping(SleepNext(at).value) else WaitExit).(c := SleepChan(s.c, p, at))
    case WaitExit => Goto(s, p, Idle).(c := s.c.(lk := None), completed := s.completed + 1)
    case Increment =>
      Goto(s, p, if s.count + 1 <= 0 then WakeTakeQ else SignalExit).(count := s.count + 1, signals := s.signals + 1)
    case WakeTakeQ => Goto(s, p, WakeDequeue).(c := s.c.(qlock := QProc(p)))
    case WakeDequeue =>
      if s.c.queue == [] then Goto(s, p, WakeDropQ)
      else Goto(Goto(s, Oldest(s.c), Sleeping(Resumable)), p, WakeDropQ).(c := Dequeued(s.c))
    case WakeDropQ => Goto(s, p, SignalExit).(c := s.c.(qlock := QFree))
    case SignalExit => Goto(s, p, Idle).(c := s.c.(lk := None))
  }

  function Next(s: Sem, a: Action): (r: Sem) {
    match a
    case CallWait(p) => Goto(s, p, Decrement).(c := s.c.(lk := Some(p)))
    case CallSignal(p) => Goto(s, p, Increment).(c := s.c.(lk := Some(p)))
    case Advance(p) => Stepped(s, p)
    case TakeQlock => s.(c := s.c.(qlock := QOther))
    case ReturnQlock => s.(c := s.c.(qlock := QFree))
  }

  // ----- invariants

  ghost predicate LocksMatch(s: Sem) {
    && (forall p :: HoldsLk(At(s, p)) <==> s.c.lk == Some(p))
    && (forall p :: HoldsQ(At(s, p)) <==> s.c.qlock == QProc(p))
  }

  ghost predicate QueueMatches(s: Sem) {
    && Orderly(s.c)
    && (forall p :: p in s.c.queue <==> At(s, p) == Sleeping(Asleep))
  }

  /** A process that has decided to sleep and is not in the queue yet: at most one still
      holds `lk` and at most one holds only `qlock`. */
  ghost function Moving(s: Sem): (r: nat) {
    (if s.c.lk.Some? && At(s, s.c.lk.value) in {Sleeping(TakeQ), Sleeping(DropLk)} then 1 else 0) +
    (if s.c.qlock.QProc? && At(s, s.c.qlock.p) == Sleeping(Enroll) then 1 else 0)
  }

  /** A signal that has counted but not dequeued yet. */
  ghost function Waking(s: Sem): (r: nat) {
    if s.c.lk.Some? && At(s, s.c.lk.value) in {WakeTakeQ, WakeDequeue} then 1 else 0
  }

  function Debt(count: int): (r: nat) { if count < 0 then -count else 0 }

  /** The processes that have been let through but have not returned. */
  ghost function InFlight(s: Sem): (r: set<Pid>) {
    set p | p in s.pcs && s.pcs[p] in {Sleeping(Resumable), Sleeping(RetakeLk), Sleeping(DropQ), WaitExit}
  }

  ghost predicate Inv(s: Sem) {
    && LocksMatch(s)
    && QueueMatches(s)
    && s.count == s.init + s.signals - s.waits
    && |s.c.queue| + Moving(s) == Debt(s.count) + Waking(s)
    && s.waits == s.completed + |s.c.queue| + Moving(s) + |InFlight(s)|
  }

  /** The invariant holds initially exactly for a non-negative value; `init_ksemaphore`
      accepts any. */
  lemma InitialInv(value: int)
    ensures Inv(Initial(value)) <==> value >= 0
  {
    var s := Initial(value);
    assert InFlight(s) == {};
  }

  /** The process that `a` wakes, if it wakes one. */
  ghost function Woken(s: Sem, a: Action): (r: Option<Pid>) {
    if a.Advance? && At(s, a.p) == WakeDequeue && s.c.queue != [] then Some(Oldest(s.c)) else None
  }

  /** Only the acting process and the process it wakes change their program points. */
  lemma OthersStay(s: Sem, a: Action, x: Pid)
    requires (a.CallWait? || a.CallSignal? || a.Advance?) ==> x != a.p
    ensures At(Next(s, a), x) == if Woken(s, a) == Some(x) then Sleeping(Resumable) else At(s, x)
  {
  }

  lemma LocksKept(s: Sem, a: Action)
    requires LocksMatch(s) && QueueMatches(s) && Enabled(s, a)
    ensures LocksMatch(Next(s, a))
  {
    var t := Next(s, a);
    if Woken(s, a).Some? { assert Woken(s, a).value in s.c.queue; }
    forall x
      ensures HoldsLk(At(t, x)) <==> t.c.lk == Some(x)
      ensures HoldsQ(At(t, x)) <==> t.c.qlock == QProc(x)
    {
      assert HoldsLk(At(s, x)) <==> s.c.lk == Some(x);
      assert HoldsQ(At(s, x)) <==> s.c.qlock == QProc(x);
      if !((a.CallWait? || a.CallSignal? || a.Advance?) && x == a.p) { OthersStay(s, a, x); }
    }
  }

  lemma QueueKept(s: Sem, a: Action)
    requires QueueMatches(s) && Enabled(s, a)
    ensures QueueMatches(Next(s, a))
  {
    if a.Advance? && At(s, a.p) == Sleeping(Enroll) {
      assert a.p !in s.c.queue;
      EnrolledFifo(s.c, a.p);
    }
    if Woken(s, a).Some? { DequeuedFifo(s.c); }
    forall x ensures x in Next(s, a).c.queue <==> At(Next(s, a), x) == Sleeping(Asleep) { QueueMember(s, a, x); }
  }

  lemma QueueMember(s: Sem, a: Action, x: Pid)
    requires QueueMatches(s) && Enabled(s, a)
    ensures x in Next(s, a).c.queue <==> At(Next(s, a), x) == Sleeping(Asleep)
  {
    assert x in s.c.queue <==> At(s, x) == Sleeping(Asleep);
    if a.Advance? && At(s, a.p) == Sleeping(Enroll) {
      assert a.p !in s.c.queue;
      EnrolledFifo(s.c, a.p);
    }
    if Woken(s, a).Some? { DequeuedFifo(s.c); }
    if !((a.CallWait? || a.CallSignal? || a.Advance?) && x == a.p) { OthersStay(s, a, x); }
  }

  /** At the dequeue point nobody is half way into the queue, so a signal that found a
      debt finds a sleeper. */
  lemma DequeueFindsSleeper(s: Sem, p: Pid)
    requires LocksMatch(s) && At(s, p) == WakeDequeue
    requires |s.c.queue| + Moving(s) == Debt(s.count) + Waking(s)
    ensures s.c.lk == Some(p) && s.c.qlock == QProc(p)
    ensures Moving(s) == 0 && |s.c.queue| == Debt(s.count) + 1
  {
  }

  /** The debt and the pending wakeup, as one step changes them. */
  lemma OwedStep(s: Sem, a: Action)
    requires LocksMatch(s) && QueueMatches(s) && Enabled(s, a)
    requires |s.c.queue| + Moving(s) == Debt(s.count) + Waking(s)
    ensures var t := Next(s, a);
      Debt(t.count) + Waking(t) == Debt(s.count) + Waking(s)
        + (if a.Advance? && At(s, a.p) == Decrement && s.count <= 0 then 1 else 0)
        - (if Woken(s, a).Some? then 1 else 0)
  {
    if a.Advance? {
      assert HoldsLk(At(s, a.p)) <==> s.c.lk == Some(a.p);
      if At(s, a.p) == WakeDequeue { DequeueFindsSleeper(s, a.p); }
      if s.c.lk.Some? && s.c.lk.value != a.p { OthersStay(s, a, s.c.lk.value); }
    }
  }

  /** The sleepers and those on their way to sleep, as one step changes them. */
  lemma SleepersStep(s: Sem, a: Action)
    requires LocksMatch(s) && LocksMatch(Next(s, a)) && QueueMatches(s) && Enabled(s, a)
    ensures var t := Next(s, a);
      |t.c.queue| + Moving(t) == |s.c.queue| + Moving(s)
        + (if a.Advance? && At(s, a.p) == Decrement && s.count <= 0 then 1 else 0)
        - (if Woken(s, a).Some? then 1 else 0)
  {
    match a
    case Advance(p) =>
      assert HoldsLk(At(s, p)) <==> s.c.lk == Some(p);
      assert HoldsQ(At(s, p)) <==> s.c.qlock == QProc(p);
      if Woken(s, a).Some? { assert Woken(s, a).value in s.c.queue; }
      if s.c.lk.Some? && s.c.lk.value != p { OthersStay(s, a, s.c.lk.value); }
      if s.c.qlock.QProc? && s.c.qlock.p != p { OthersStay(s, a, s.c.qlock.p); }
    case CallWait(p) => if s.c.qlock.QProc? && s.c.qlock.p != p { OthersStay(s, a, s.c.qlock.p); }
    case CallSignal(p) => if s.c.qlock.QProc? && s.c.qlock.p != p { OthersStay(s, a, s.c.qlock.p); }
    case _ =>
  }

  lemma BalanceKept(s: Sem, a: Action)
    requires LocksMatch(s) && QueueMatches(s) && Enabled(s, a)
    requires |s.c.queue| + Moving(s) == Debt(s.count) + Waking(s)
    ensures |Next(s, a).c.queue| + Moving(Next(s, a)) == Debt(Next(s, a).count) + Waking(Next(s, a))
  {
    LocksKept(s, a);
    SleepersStep(s, a);
    OwedStep(s, a);
  }

  ghost predicate Through(pc: Pc) {
    pc in {Sleeping(Resumable), Sleeping(RetakeLk), Sleeping(DropQ), WaitExit}
  }

  /** How the set of processes let through changes. */
  lemma InFlightStep(s: Sem, a: Action)
    requires LocksMatch(s) && QueueMatches(s) && Enabled(s, a)
    ensures
      var grow := if Woken(s, a).Some? then {Woken(s, a).value}
                  else if a.Advance? && At(s, a.p) == Decrement && s.count > 0 then {a.p} else {};
      var leave := if a.Advance? && At(s, a.p) == WaitExit then {a.p} else {};
      && grow !! InFlight(s) && leave <= InFlight(s)
      && InFlight(Next(s, a)) == InFlight(s) + grow - leave
  {
    if Woken(s, a).Some? { assert Woken(s, a).value in s.c.queue; }
    var t := Next(s, a);
    forall x ensures x in InFlight(t) <==> Through(At(t, x)) { }
    forall x ensures x in InFlight(s) <==> Through(At(s, x)) { }
    forall x | (a.CallWait? || a.CallSignal? || a.Advance?) ==> x != a.p
      ensures At(t, x) == if Woken(s, a) == Some(x) then Sleeping(Resumable) else At(s, x)
    {
      OthersStay(s, a, x);
    }
  }

  lemma InFlightCount(s: Sem, a: Action)
    requires LocksMatch(s) && QueueMatches(s) && Enabled(s, a)
    ensures |InFlight(Next(s, a))| == |InFlight(s)|
      + (if Woken(s, a).Some? || (a.Advance? && At(s, a.p) == Decrement && s.count > 0) then 1 else 0)
      - (if a.Advance? && At(s, a.p) == WaitExit then 1 else 0)
  {
    InFlightStep(s, a);
  }

  lemma FlowKept(s: Sem, a: Action)
    requires Inv(s) && Enabled(s, a)
    ensures var t := Next(s, a); t.waits == t.completed + |t.c.queue| + Moving(t) + |InFlight(t)|
  {
    var t := Next(s, a);
    BalanceKept(s, a);
    assert |t.c.queue| + Moving(t) == Debt(t.count) + Waking(t);
    InFlightCount(s, a);
    OwedStep(s, a);
    CountersStep(s, a);
  }

  lemma CountersStep(s: Sem, a: Action)
    ensures var t := Next(s, a);
      && t.waits == s.waits + (if a.Advance? && At(s, a.p) == Decrement then 1 else 0)
      && t.completed == s.completed + (if a.Advance? && At(s, a.p) == WaitExit then 1 else 0)
  {
  }

  /** Every step of every caller keeps the invariant. */
  lemma NextInv(s: Sem, a: Action)
    requires Inv(s) && Enabled(s, a)
    ensures Inv(Next(s, a))
  {
    LocksKept(s, a);
    QueueKept(s, a);
    BalanceKept(s, a);
    FlowKept(s, a);
  }

  // ----- whole runs

  ghost predicate IsRun(s: Sem, run: seq<Action>)
    decreases |run|
  {
    run == [] || (Enabled(s, run[0]) && IsRun(Next(s, run[0]), run[1..]))
  }

  function After(s: Sem, run: seq<Action>): (r: Sem)
    decreases |run|
  {
    if run == [] then s else After(Next(s, run[0]), run[1..])
  }

  lemma {:induction false} RunInv(s: Sem, run: seq<Action>)
    requires Inv(s) && IsRun(s, run)
    ensures Inv(After(s, run))
    ensures After(s, run).init == s.init
    decreases |run|
  {
    if run != [] {
      NextInv(s, run[0]);
      RunInv(Next(s, run[0]), run[1..]);
    }
  }

  /** For any interleaving: when `lk` is free, the sleepers plus the one still moving
      into the queue are exactly the debt; no more waits return than the initial value
      plus the signals; and wakeups follow the order of falling asleep. */
  lemma SemaphoreTheorem(value: nat, run: seq<Action>)
    requires IsRun(Initial(value), run)
    ensures var s := After(Initial(value), run);
      && (s.c.lk == None ==> Moving(s) <= 1 && |s.c.queue| + Moving(s) == Debt(s.count))
      && s.completed <= value + s.signals
      && s.completed + Debt(s.count) <= s.waits
      && s.c.woken <= s.c.slept
  {
    InitialInv(value);
    RunInv(Initial(value), run);
    var s := After(Initial(value), run);
    assert s.c.slept == s.c.woken + Reverse(s.c.queue);
  }

  /** A signal that leaves the count at or below zero wakes exactly one process, the one
      that has slept longest. */
  lemma SignalWakesLongestSleeper(s: Sem, p: Pid)
    requires Inv(s) && At(s, p) == WakeDequeue
    ensures var t := Stepped(s, p); var k := |s.c.woken|;
      && s.c.queue != [] && k < |s.c.slept|
      && t.c.woken == s.c.slept[..k + 1]
      && At(s, s.c.slept[k]) == Sleeping(Asleep) && At(t, s.c.slept[k]) == Sleeping(Resumable)
      && (forall x :: x != p && x != s.c.slept[k] ==> At(t, x) == At(s, x))
  {
    DequeueFindsSleeper(s, p);
    var n := |s.c.queue| - 1;
    var oldest := s.c.queue[n];
    assert s.c.slept[|s.c.woken|] == Reverse(s.c.queue)[0] == oldest;
    assert oldest in s.c.queue;
  }

  /** No process in a run acquires a spin lock it holds or releases one it does not. */
  lemma LocksUsedProperly(s: Sem, p: Pid)
    requires Inv(s)
    ensures At(s, p) in {Sleeping(TakeQ), WakeTakeQ} ==> s.c.qlock != QProc(p)
    ensures At(s, p) == Sleeping(RetakeLk) ==> s.c.lk != Some(p)
    ensures At(s, p) in {Sleeping(DropLk), WaitExit, SignalExit} ==> s.c.lk == Some(p)
    ensures At(s, p) in {Sleeping(DropQ), WakeDropQ} ==> s.c.qlock == QProc(p)
  {
    assert HoldsLk(At(s, p)) <==> s.c.lk == Some(p);
  }

  // ----- what callers see

  /** Who is inside a wait or a signal, how many calls of each there have been, and how many
      waits have returned: told from the calls, and from processes being idle again. */
  datatype Seen = Seen(waiting: set<Pid>, signalling: set<Pid>, waits: nat, signals: nat, returned: nat)

  const Nothing: Seen := Seen({}, {}, 0, 0, 0)

  function Observe(v: Seen, s: Sem, a: Action): (w: Seen) {
    match a
    case CallWait(p) => v.(waiting := v.waiting + {p}, waits := v.waits + 1)
    case CallSignal(p) => v.(signalling := v.signalling + {p}, signals := v.signals + 1)
    case Advance(p) =>
      if At(Next(s, a), p) != Idle then v
      else v.(waiting := v.waiting - {p}, signalling := v.signalling - {p},
              returned := v.returned + if p in v.waiting then 1 else 0)
    case _ => v
  }

  function Watch(v: Seen, s: Sem, run: seq<Action>): (w: Seen)
    decreases |run|
  {
    if run == [] then v else Watch(Observe(v, s, run[0]), Next(s, run[0]), run[1..])
  }

  predicate InWait(pc: Pc) { pc == Decrement || pc.Sleeping? || pc == WaitExit }

  predicate InSignal(pc: Pc) { pc in {Increment, WakeTakeQ, WakeDequeue, WakeDropQ, SignalExit} }

  /** 1 if the holder of `lk` is at that point. */
  ghost function HolderAt(s: Sem, pc: Pc): (r: nat) { if s.c.lk.Some? && At(s, s.c.lk.value) == pc then 1 else 0 }

  ghost predicate CallersMatch(s: Sem, v: Seen) {
    && (forall p :: p in v.waiting <==> InWait(At(s, p)))
    && (forall p :: p in v.signalling <==> InSignal(At(s, p)))
  }

  /** Each call counts once, as soon as it gets there; a signal wakes at most one process. */
  ghost predicate CountsMatch(s: Sem, v: Seen) {
    && v.returned == s.completed
    && v.waits == s.waits + HolderAt(s, Decrement) && v.signals == s.signals + HolderAt(s, Increment)
    && |s.c.woken| + Waking(s) <= s.signals
  }

  lemma CallersKept(s: Sem, v: Seen, a: Action)
    requires QueueMatches(s) && CallersMatch(s, v) && Enabled(s, a)
    ensures CallersMatch(Next(s, a), Observe(v, s, a))
  {
    if Woken(s, a).Some? { assert Woken(s, a).value in s.c.queue; }
    forall p
      ensures p in Observe(v, s, a).waiting <==> InWait(At(Next(s, a), p))
      ensures p in Observe(v, s, a).signalling <==> InSignal(At(Next(s, a), p))
    {
      if !((a.CallWait? || a.CallSignal? || a.Advance?) && p == a.p) { OthersStay(s, a, p); }
    }
  }

  lemma CountsKept(s: Sem, v: Seen, a: Action)
    requires LocksMatch(s) && QueueMatches(s) && CallersMatch(s, v) && CountsMatch(s, v) && Enabled(s, a)
    ensures CountsMatch(Next(s, a), Observe(v, s, a))
  {
    if a.Advance? {
      assert HoldsLk(At(s, a.p)) <==> s.c.lk == Some(a.p);
      assert a.p in v.waiting <==> InWait(At(s, a.p));
    }
    if Woken(s, a).Some? { assert Woken(s, a).value in s.c.queue; }
    if s.c.lk.Some? && !(a.Advance? && s.c.lk.value == a.p) { OthersStay(s, a, s.c.lk.value); }
  }

  lemma {:induction false} RunSeen(s: Sem, v: Seen, run: seq<Action>)
    requires LocksMatch(s) && QueueMatches(s) && CallersMatch(s, v) && CountsMatch(s, v) && IsRun(s, run)
    ensures CallersMatch(After(s, run), Watch(v, s, run)) && CountsMatch(After(s, run), Watch(v, s, run))
    decreases |run|
  {
    if run != [] {
      LocksKept(s, run[0]);
      QueueKept(s, run[0]);
      CallersKept(s, v, run[0]);
      CountsKept(s, v, run[0]);
      RunSeen(Next(s, run[0]), Observe(v, s, run[0]), run[1..]);
    }
  }

  /** Calls are what counts, from any value: every wait call lowers the count once and every
      signal call raises it once, except those still before that step, and a signal call
      wakes at most one process. */
  lemma CallsCount(value: int, run: seq<Action>)
    requires IsRun(Initial(value), run)
    ensures var s := After(Initial(value), run); var v := Watch(Nothing, Initial(value), run);
      && s.count == value + (v.signals - HolderAt(s, Increment)) - (v.waits - HolderAt(s, Decrement))
      && |s.c.woken| <= v.signals
      && (forall p :: At(s, p) == Idle <==> p !in v.waiting && p !in v.signalling)
  {
    var s := Initial(value);
    RunSeen(s, Nothing, run);
    RunCount(s, run);
    var t := After(s, run);
    forall p ensures At(t, p) == Idle <==> !InWait(At(t, p)) && !InSignal(At(t, p)) { }
  }

  lemma {:induction false} RunCount(s: Sem, run: seq<Action>)
    ensures var t := After(s, run); t.count - t.signals + t.waits == s.count - s.signals + s.waits
    decreases |run|
  {
    if run != [] {
      CountStep(s, run[0]);
      RunCount(Next(s, run[0]), run[1..]);
    }
  }

  lemma CountStep(s: Sem, a: Action)
    ensures var t := Next(s, a); t.count - t.signals + t.waits == s.count - s.signals + s.waits
  {
  }

  /** Hence no more wait calls return than the initial value plus the signal calls. */
  lemma ReturnsBounded(value: nat, run: seq<Action>)
    requires IsRun(Initial(value), run)
    ensures var v := Watch(Nothing, Initial(value), run); v.returned <= value + v.signals && v.returned <= v.waits
  {
    InitialInv(value);
    RunSeen(Initial(value), Nothing, run);
    SemaphoreTheorem(value, run);
  }

  /** How many steps of its own a process has left in its call, at most. */
  function StepsLeft(pc: Pc): (n: nat) {
    match pc
    case Idle => 0
    case Decrement => 9
    case Sleeping(at) =>
      (match at case TakeQ => 8 case DropLk => 7 case Enroll => 6 case Asleep => 5 case Resumable => 4 case RetakeLk => 3 case DropQ => 2)
    case WaitExit => 1
    case Increment => 5
    case WakeTakeQ => 4
    case WakeDequeue => 3
    case WakeDropQ => 2
    case SignalExit => 1
  }

  /** Every step brings the call of its process nearer its end, and nobody else's further
      from it: a signal takes at most five steps, a wait at most nine. */
  lemma CallsEnd(s: Sem, a: Action, p: Pid)
    requires QueueMatches(s) && Enabled(s, a) && a != CallWait(p) && a != CallSignal(p)
    ensures StepsLeft(At(Next(s, a), p)) <= StepsLeft(At(s, p)) - if a == Advance(p) then 1 else 0
  {
    if Woken(s, a).Some? { assert Woken(s, a).value in s.c.queue; }
    if a != Advance(p) { OthersStay(s, a, p); }
  }

  ghost predicate Reaches(s: Sem, run: seq<Action>, t: Sem) { IsRun(s, run) && After(s, run) == t }

  lemma Extend(s: Sem, run: seq<Action>, t: Sem, a: Action) returns (longer: seq<Action>, u: Sem)
    requires Reaches(s, run, t) && Enabled(t, a)
    ensures Reaches(s, longer, u) && u == Next(t, a)
  {
    longer, u := run + [a], Next(t, a);
    ExtendIs(s, run, t, a);
  }

  lemma {:induction false} ExtendIs(s: Sem, run: seq<Action>, t: Sem, a: Action)
    requires Reaches(s, run, t) && Enabled(t, a)
    ensures Reaches(s, run + [a], Next(t, a))
    decreases |run|
  {
    if run == [] {
      assert ([a])[1..] == [] && run + [a] == [a];
    } else {
      assert (run + [a])[1..] == run[1..] + [a];
      ExtendIs(Next(s, run[0]), run[1..], t, a);
    }
  }

  /** What `n` waits in a row leave of a positive value. */
  lemma {:induction false} SpendValue(value: int, n: nat) returns (run: seq<Action>, t: Sem)
    requires n == 0 || n <= value
    ensures Reaches(Initial(value), run, t)
    ensures t == Sem(Unused, value - n, if n == 0 then map[] else map[1 := Idle], value, n, 0, n)
  {
    var s := Initial(value);
    run, t := [], s;
    if n > 0 {
      run, t := SpendValue(value, n - 1);
      run, t := Extend(s, run, t, CallWait(1));
      run, t := Extend(s, run, t, Advance(1));
      run, t := Extend(s, run, t, Advance(1));
    }
  }

  function Spent(value: int): (r: nat) { if value > 0 then value else 0 }

  lemma FindsNothing(value: int) returns (run: seq<Action>, t: Sem)
    ensures Reaches(Initial(value), run, t)
    ensures var n := Spent(value);
      t == Sem(Chan(Some(1), QProc(1), [], [], []), value - n - 1, map[1 := Sleeping(DropLk)], value, n + 1, 0, n)
  {
    var s := Initial(value);
    run, t := SpendValue(value, Spent(value));
    run, t := Extend(s, run, t, CallWait(1));
    run, t := Extend(s, run, t, Advance(1));
    run, t := Extend(s, run, t, Advance(1));
  }

  /** Once the value is spent, a wait goes to sleep ... */
  lemma SleepsAtOnce(value: int) returns (run: seq<Action>, t: Sem)
    ensures Reaches(Initial(value), run, t)
    ensures var n := Spent(value);
      t == Sem(Chan(None, QFree, [1], [1], []), value - n - 1, map[1 := Sleeping(Asleep)], value, n + 1, 0, n)
  {
    var s := Initial(value);
    run, t := FindsNothing(value);
    run, t := Extend(s, run, t, Advance(1));
    run, t := Extend(s, run, t, Advance(1));
    run, t := Extend(s, run, t, ReturnQlock);
  }

  /** ... a signal finds the debt ... */
  lemma ThenFound(value: int) returns (run: seq<Action>, t: Sem)
    ensures Reaches(Initial(value), run, t)
    ensures var n := Spent(value);
      t == Sem(Chan(Some(2), QProc(2), [1], [1], []), value - n,
               map[1 := Sleeping(Asleep), 2 := WakeDequeue], value, n + 1, 1, n)
  {
    var s := Initial(value);
    run, t := SleepsAtOnce(value);
    run, t := Extend(s, run, t, CallSignal(2));
    run, t := Extend(s, run, t, Advance(2));
    run, t := Extend(s, run, t, Advance(2));
  }

  /** ... and wakes the sleeper. */
  lemma ThenSignalled(value: int) returns (run: seq<Action>, t: Sem)
    ensures Reaches(Initial(value), run, t)
    ensures var n := Spent(value);
      t == Sem(Chan(None, QFree, [], [1], [1]), value - n, map[1 := Sleeping(Resumable), 2 := Idle],
               value, n + 1, 1, n)
  {
    var s := Initial(value);
    run, t := ThenFound(value);
    run, t := Extend(s, run, t, Advance(2));
    run, t := Extend(s, run, t, Advance(2));
    run, t := Extend(s, run, t, Advance(2));
  }

  /** From a negative value that sleeper returns, although the value plus the signals is at
      most zero. */
  lemma NegativeValueOverruns(value: int) returns (run: seq<Action>)
    requires value < 0
    ensures IsRun(Initial(value), run)
    ensures After(Initial(value), run).completed > value + After(Initial(value), run).signals
  {
    var s := Initial(value);
    var t;
    run, t := ThenSignalled(value);
    run, t := Extend(s, run, t, TakeQlock);
    run, t := Extend(s, run, t, Advance(1));
    run, t := Extend(s, run, t, Advance(1));
    run, t := Extend(s, run, t, Advance(1));
    run, t := Extend(s, run, t, Advance(1));
  }

  // ----- when nobody can move

  ghost predicate Stuck(s: Sem) { forall a :: !Enabled(s, a) }

  /** The holder of `lk` spins for `qlock`, and the holder of `qlock`, on its way out of
      `sleep`, spins for `lk`. */
  ghost predicate Crossed(s: Sem) {
    && s.c.lk.Some? && At(s, s.c.lk.value) in {Sleeping(TakeQ), WakeTakeQ}
    && s.c.qlock.QProc? && At(s, s.c.qlock.p) == Sleeping(RetakeLk)
  }

  lemma CrossedIsStuck(s: Sem)
    requires LocksMatch(s)
    ensures Stuck(s) <==> Crossed(s)
  {
    if Crossed(s) {
      forall a ensures !Enabled(s, a) {
        if a.Advance? {
          assert HoldsLk(At(s, a.p)) <==> s.c.lk == Some(a.p);
          assert HoldsQ(At(s, a.p)) <==> s.c.qlock == QProc(a.p);
        }
      }
    }
    if Stuck(s) {
      assert !Enabled(s, TakeQlock) && !Enabled(s, ReturnQlock);
      var q := s.c.qlock.p;
      assert !Enabled(s, Advance(q)) && (HoldsQ(At(s, q)) <==> s.c.qlock == QProc(q));
      var p := s.c.lk.value;
      assert !Enabled(s, Advance(p)) && (HoldsLk(At(s, p)) <==> s.c.lk == Some(p));
    }
  }

  lemma {:induction false} RunLocks(s: Sem, run: seq<Action>)
    requires LocksMatch(s) && QueueMatches(s) && IsRun(s, run)
    ensures LocksMatch(After(s, run))
    decreases |run|
  {
    if run != [] {
      LocksKept(s, run[0]);
      QueueKept(s, run[0]);
      RunLocks(Next(s, run[0]), run[1..]);
    }
  }

  /** In any reachable state, from any value: nobody can move exactly if the two locks are
      held crosswise. */
  lemma StuckIff(value: int, run: seq<Action>)
    requires IsRun(Initial(value), run)
    ensures Stuck(After(Initial(value), run)) <==> Crossed(After(Initial(value), run))
  {
    RunLocks(Initial(value), run);
    CrossedIsStuck(After(Initial(value), run));
  }

  /** Such a state is reachable from every value: a wait takes `lk` after a sleeper has been
      woken and before it is back. */
  lemma CanGetStuck(value: int) returns (run: seq<Action>)
    ensures IsRun(Initial(value), run) && Stuck(After(Initial(value), run))
  {
    var s := Initial(value);
    var t;
    run, t := ThenSignalled(value);
    run, t := Extend(s, run, t, TakeQlock);
    run, t := Extend(s, run, t, CallWait(2));
    run, t := Extend(s, run, t, Advance(2));
    run, t := Extend(s, run, t, Advance(1));
    StuckIff(value, run);
  }
}
