/** How many competing processes the scheduler bears: the bound of `SchedulerRuns` is exact. */
module SchedulerCrowds {
  import opened Seqs
  import opened Scheduler
  import opened SchedulerRuns
  import opened SchedulerSteps

  // ----- one tick of a fixed crowd

  lemma TickRunnable(s: Sys)
    requires OneHome(s) && Ranged(s) && Busy(s) && !PromotesFromTop(s)
    ensures Keeps(s, Ticked(s)) && Busy(Ticked(s)) && Runnable(Ticked(s)) == Runnable(s)
  {
    TickedKeepsHomes(s);
    TickBusy(s);
    AgedRunnable(s);
    AgedKeepsHomes(s);
    CurrentKnown(Aged(s));
    PutBackKeepsHomes(Aged(s));
    DispatchedRunnable(PutBack(Aged(s)));
  }

  lemma DispatchedRunnable(s: Sys)
    requires OneHome(s) && Ranged(s) && !Busy(s)
    ensures Runnable(Dispatched(s)) == Runnable(s)
  {
    var i := FirstLevel(s, 0);
    if i < s.levels { assert Last(Q(s, ReadyQ(i))) in Q(s, ReadyQ(i)); }
  }

  /** A safe crowd within the bound stays within it while only the clock ticks. */
  lemma {:induction false} TicksAdmitted(s: Sys, es: seq<Event>, n: nat)
    requires OneHome(s) && Ranged(s) && Busy(s) && OnlyTicks(es) && |Runnable(s)| <= n
    ensures AdmittedRun(s, es, n)
    decreases |es|
  {
    if es != [] {
      assert es[0] == Tick;
      if !Faults(s, Tick) {
        TickRunnable(s);
        NextKeepsHomes(s, Tick);
        TicksAdmitted(Ticked(s), es[1..], n);
      }
    }
  }

  // ----- too large a crowd

  /** One step of the ladder for each level a process has above it. */
  ghost function Ladder(s: Sys): (r: set<(Pid, int)>) {
    set p, i | p in s.procs && 0 <= i < s.procs[p].priority :: (p, i)
  }

  /** A tick changes a process's priority only by promotion. */
  lemma TickPriority(s: Sys, p: Pid)
    requires OneHome(s) && Ranged(s) && Busy(s) && !PromotesFromTop(s) && p in s.procs
    ensures p in Ticked(s).procs && Ticked(s).procs[p].priority == AgedProc(s, p).priority
  {
    AgedKeepsHomes(s);
    var a := Aged(s);
    CurrentKnown(a);
    PutBackKeepsHomes(a);
    var b := PutBack(a);
    var i := FirstLevel(b, 0);
    if i < b.levels { assert Last(Q(b, ReadyQ(i))) in Q(b, ReadyQ(i)); }
  }

  ghost predicate SomeoneStarved(s: Sys) { exists p :: IsReady(s, p) && p in Starved(s) }

  lemma ProperSubsetCard<T>(a: set<T>, b: set<T>, x: T)
    requires a <= b && x in b && x !in a
    ensures |a| < |b|
  {
    SubsetCard(a, b - {x});
  }

  lemma LadderFalls(s: Sys)
    requires OneHome(s) && Ranged(s) && Busy(s) && !PromotesFromTop(s)
    ensures Ladder(Ticked(s)) <= Ladder(s) && |Ladder(Ticked(s))| <= |Ladder(s)|
  {
    TickedKeepsHomes(s);
    forall p | p in s.procs ensures Ticked(s).procs[p].priority <= s.procs[p].priority { TickPriority(s, p); }
    SubsetCard(Ladder(Ticked(s)), Ladder(s));
  }

  /** Promotion takes steps off the ladder, and nothing puts any on. */
  lemma TickLadder(s: Sys)
    requires OneHome(s) && Ranged(s) && Busy(s) && !PromotesFromTop(s) && SomeoneStarved(s)
    ensures |Ladder(Ticked(s))| < |Ladder(s)|
  {
    LadderFalls(s);
    var p :| IsReady(s, p) && p in Starved(s);
    PromotedStep(s, p);
    ProperSubsetCard(Ladder(Ticked(s)), Ladder(s), (p, s.procs[p].priority - 1));
  }

  lemma PromotedStep(s: Sys, p: Pid)
    requires OneHome(s) && Ranged(s) && Busy(s) && !PromotesFromTop(s) && IsReady(s, p) && p in Starved(s)
    ensures s.procs[p].priority > 0
    ensures (p, s.procs[p].priority - 1) in Ladder(s) && (p, s.procs[p].priority - 1) !in Ladder(Ticked(s))
  {
    assert p in Q(s, ReadyQ(s.procs[p].priority));
    TickPriority(s, p);
  }

  /** More than `d` ready processes that would all be promoted after `d` more ticks. */
  ghost predicate Crowded(s: Sys, crowd: set<Pid>, d: nat) {
    && |crowd| > d
    && (forall p :: p in crowd ==> IsReady(s, p) && s.procs[p].waiting + d > s.threshold)
  }

  /** A tick can serve one of them; the others are one tick closer. */
  lemma CrowdTick(s: Sys, crowd: set<Pid>, d: nat)
    requires OneHome(s) && Ranged(s) && Busy(s) && !PromotesFromTop(s) && !SomeoneStarved(s)
    requires Crowded(s, crowd, d)
    ensures d > 0 && Keeps(s, Ticked(s)) && Busy(Ticked(s))
    ensures Crowded(Ticked(s), crowd - {Current(Ticked(s))}, d - 1)
  {
    var t := Ticked(s);
    TickRunnable(s);
    CrowdHasTime(s, crowd, d);
    RemoveCard(crowd, Current(t));
    forall p | p in crowd && p != Current(t) ensures IsReady(t, p) && t.procs[p].waiting + (d - 1) > t.threshold {
      CrowdMember(s, p);
    }
  }

  lemma CrowdHasTime(s: Sys, crowd: set<Pid>, d: nat)
    requires !SomeoneStarved(s) && Crowded(s, crowd, d)
    ensures d > 0
  {
    var p := SomeMember(crowd);
    assert IsReady(s, p) && p !in Starved(s);
  }

  lemma SomeMember<T>(a: set<T>) returns (x: T)
    requires |a| > 0
    ensures x in a
  {
    assert a != {};
    x :| x in a;
  }

  lemma RemoveCard<T>(a: set<T>, x: T)
    ensures |a - {x}| >= |a| - 1
  {
    if x in a { assert a == (a - {x}) + {x}; } else { assert a == a - {x}; }
  }

  /** A ready, patient process that a tick does not dispatch has waited one tick more. */
  lemma CrowdMember(s: Sys, p: Pid)
    requires OneHome(s) && Ranged(s) && Busy(s) && !PromotesFromTop(s) && !SomeoneStarved(s) && IsReady(s, p)
    ensures Keeps(s, Ticked(s)) && Busy(Ticked(s))
    ensures p != Current(Ticked(s)) ==> IsReady(Ticked(s), p) && Ticked(s).procs[p].waiting == s.procs[p].waiting + 1
  {
    TickRunnable(s);
    TickedProc(s, p);
    var t := Ticked(s);
    if Runs(t, p) { RunsIsCurrent(t, p); }
  }

  lemma RunsIsCurrent(s: Sys, p: Pid)
    requires OneHome(s) && Runs(s, p)
    ensures Busy(s) && Current(s) == p
  {
    assert p in Q(s, Cpu);
  }

  /** The processes waiting for the processor. */
  ghost function ReadySet(s: Sys): (r: set<Pid>) { set p | p in s.procs && s.procs[p].status == Ready }

  lemma ReadyCount(s: Sys)
    requires OneHome(s) && Busy(s)
    ensures |Runnable(s)| == |ReadySet(s)| + 1
  {
    var c := Current(s);
    CurrentKnown(s);
    forall p ensures p in Runnable(s) <==> p in ReadySet(s) || p == c {
      if p in Runnable(s) && p !in ReadySet(s) { RunsIsCurrent(s, p); }
    }
    assert Runnable(s) == ReadySet(s) + {c};
  }

  lemma CrowdedAtFirst(s: Sys)
    requires OneHome(s) && Busy(s) && |Runnable(s)| > s.threshold + 2
    ensures Crowded(s, ReadySet(s), s.threshold + 1)
  {
    ReadyCount(s);
  }

  /** A crowd of more than `threshold + 2` reaches index -1: each round of the crowd is too
      long, so it promotes somebody, and the ladder is finite. */
  lemma {:induction false} CrowdFaults(s: Sys, crowd: set<Pid>, d: nat) returns (es: seq<Event>)
    requires OneHome(s) && Ranged(s) && Busy(s) && |Runnable(s)| > s.threshold + 2 && Crowded(s, crowd, d)
    ensures OnlyTicks(es) && !FaultFree(s, es)
    decreases |Ladder(s)|, d
  {
    var rest: seq<Event> := [];
    if !PromotesFromTop(s) {
      TickRunnable(s);
      var t := Ticked(s);
      if SomeoneStarved(s) {
        TickLadder(s);
        CrowdedAtFirst(t);
        rest := CrowdFaults(t, ReadySet(t), t.threshold + 1);
      } else {
        CrowdTick(s, crowd, d);
        LadderFalls(s);
        rest := CrowdFaults(t, crowd - {Current(t)}, d - 1);
      }
    }
    es := [Tick] + rest;
    FaultFreeTick(s, rest);
  }

  // ----- the exact bound

  lemma UnsafeFaults(s: Sys) returns (es: seq<Event>)
    requires OneHome(s) && Ranged(s) && Busy(s) && !Safe(s)
    ensures OnlyTicks(es) && !FaultFree(s, es)
  {
    var p :| p in Top(s) && p in s.procs && s.procs[p].waiting + Ahead(Top(s), p) > s.threshold + Idle(s);
    es := seq(s.threshold + 2, _ => Tick);
    UnsafeTicksFault(s, p, es);
  }

  /** While something runs, the clock can tick for ever without reaching index -1 exactly if
      level 0 is safe and at most `threshold + 2` processes compete, at whatever levels. */
  lemma CrowdBoundIsExact(s: Sys)
    requires OneHome(s) && Ranged(s) && Busy(s)
    ensures (forall es :: OnlyTicks(es) ==> FaultFree(s, es)) <==> Safe(s) && |Runnable(s)| <= s.threshold + 2
  {
    if Safe(s) && |Runnable(s)| <= s.threshold + 2 {
      forall es | OnlyTicks(es) ensures FaultFree(s, es) {
        TicksAdmitted(s, es, |Runnable(s)|);
        NoRunPromotesFromTop(s, es, |Runnable(s)|);
      }
    } else if !Safe(s) {
      var es := UnsafeFaults(s);
    } else {
      CrowdedAtFirst(s);
      var es := CrowdFaults(s, ReadySet(s), s.threshold + 1);
    }
  }

  // ----- from the start

  /** `sched_init_PRIRR` has just run: no processes yet. */
  ghost predicate IsEmpty(s: Sys) { s.levels > 0 && s.procs == map[] && forall k :: Q(s, k) == [] }

  /** A system without processes meets all that the run theorems ask of their first state. */
  lemma EmptyIsSafe(s: Sys)
    requires IsEmpty(s)
    ensures OneHome(s) && Ranged(s) && Safe(s) && Capped(s) && |Runnable(s)| == 0
  {
    assert Runnable(s) == {};
  }

  /** Hence no admitted run from initialisation promotes out of level 0. */
  lemma NoFaultFromStart(s: Sys, es: seq<Event>, n: nat)
    requires IsEmpty(s) && OneHome(s) && Ranged(s) && AdmittedRun(s, es, n) && n <= s.threshold + 2
    ensures FaultFree(s, es)
  {
    EmptyIsSafe(s);
    NoRunPromotesFromTop(s, es, n);
  }
}
