/** The scheduler's mutable state and its operations as the kernel performs them, loop by
    loop. Each is proved to do what the specification in `Scheduler` says. */
module ProcessQueues {
  import opened Seqs
  import opened Scheduler
  import opened SchedulerRuns
  import opened SchedulerSteps

  /** Level by level and element by element: the queues when the aging loop has finished
      the levels below `i` and the first `j` elements of level `i`. */
  ghost function PartlyAged(s: Sys, i: nat, j: nat, k: Place): (r: seq<Pid>)
    requires j <= |Q(s, ReadyQ(i))|
  {
    var q := Q(s, ReadyQ(i));
    if !k.ReadyQ? || k.level > i then Q(s, k)
    else if k.level == i then Only(q[..j], Patient(s)) + q[j..]
    else if k.level == i - 1 then Reverse(Only(q[..j], Starved(s))) + Only(Q(s, k), Patient(s))
    else AgedQueue(s, k.level)
  }

  ghost predicate Handled(s: Sys, i: nat, j: nat, p: Pid)
    requires j <= |Q(s, ReadyQ(i))| && p in s.procs
  {
    s.procs[p].status == Ready && (s.procs[p].priority < i || p in Q(s, ReadyQ(i))[..j])
  }

  /** One turn of the inner loop. */
  lemma PartlyAgedStep(s: Sys, i: nat, j: nat)
    requires OneHome(s) && j < |Q(s, ReadyQ(i))|
    ensures var q := Q(s, ReadyQ(i)); var p := q[j];
      && p in s.procs
      && PartlyAged(s, i, j + 1, ReadyQ(i)) ==
         if p in Starved(s) then Without(PartlyAged(s, i, j, ReadyQ(i)), p) else PartlyAged(s, i, j, ReadyQ(i))
  {
    var q := Q(s, ReadyQ(i));
    var p := q[j];
    assert p in q && NoDup(q);
    UnlinkStep(q, j, Patient(s));
  }

  /** ... and what it does to the level above. */
  lemma PartlyAgedStepAbove(s: Sys, i: nat, j: nat)
    requires j < |Q(s, ReadyQ(i))|
    ensures var p := Q(s, ReadyQ(i))[j];
      PartlyAged(s, i, j + 1, ReadyQ(i - 1)) ==
        (if p in Starved(s) then [p] else []) + PartlyAged(s, i, j, ReadyQ(i - 1))
  {
    var q := Q(s, ReadyQ(i));
    var p := q[j];
    var up, stay := Only(q[..j], Starved(s)), Only(Q(s, ReadyQ(i - 1)), Patient(s));
    OnlyStep(q, j, Starved(s));
    if p in Starved(s) {
      ReverseAppend(up, p);
      AppendAssociative([p], Reverse(up), stay);
    } else {
      assert up + [] == up && [] + (Reverse(up) + stay) == Reverse(up) + stay;
    }
  }

  lemma PartlyAgedNextLevel(s: Sys, i: nat, k: Place)
    ensures PartlyAged(s, i, |Q(s, ReadyQ(i))|, k) == PartlyAged(s, i + 1, 0, k)
  {
    var q := Q(s, ReadyQ(i));
    assert q[..|q|] == q && q[|q|..] == [];
    if k == ReadyQ(i + 1) { assert Q(s, k)[0..] == Q(s, k); }
  }

  ghost predicate Started(s: Sys) {
    OneHome(s) && Ranged(s) && (forall k :: ReadyQ(k) in s.queues <==> 0 <= k < s.levels)
  }

  ghost predicate QueuesAged(s: Sys, queues: map<Place, seq<Pid>>, i: nat, j: nat)
    requires j <= |Q(s, ReadyQ(i))|
  {
    queues.Keys == s.queues.Keys && forall k :: QueueAged(s, queues, i, j, k)
  }

  ghost predicate QueueAged(s: Sys, queues: map<Place, seq<Pid>>, i: nat, j: nat, k: Place)
    requires j <= |Q(s, ReadyQ(i))|
  {
    k in queues ==> queues[k] == PartlyAged(s, i, j, k)
  }

  ghost predicate ProcsAged(s: Sys, procs: map<Pid, Proc>, i: nat, j: nat)
    requires j <= |Q(s, ReadyQ(i))|
  {
    procs.Keys == s.procs.Keys && forall p :: ProcAged(s, procs, i, j, p)
  }

  ghost predicate ProcAged(s: Sys, procs: map<Pid, Proc>, i: nat, j: nat, p: Pid)
    requires j <= |Q(s, ReadyQ(i))| && procs.Keys == s.procs.Keys
  {
    p in s.procs ==> procs[p] == if Handled(s, i, j, p) then AgedProc(s, p) else s.procs[p]
  }

  lemma QueuesStep(s: Sys, q0: map<Place, seq<Pid>>, q1: map<Place, seq<Pid>>, i: nat, j: nat)
    requires Started(s) && i < s.levels && j < |Q(s, ReadyQ(i))| && QueuesAged(s, q0, i, j)
    requires var p := Q(s, ReadyQ(i))[j];
      if p in Starved(s)
      then i > 0 && q1 == q0[ReadyQ(i) := Without(q0[ReadyQ(i)], p)][ReadyQ(i - 1) := [p] + q0[ReadyQ(i - 1)]]
      else q1 == q0
    ensures QueuesAged(s, q1, i, j + 1)
  {
    assert QueueAged(s, q0, i, j, ReadyQ(i)) && QueueAged(s, q0, i, j, ReadyQ(i - 1));
    var next := j + 1;
    forall k ensures QueueAged(s, q1, i, next, k) {
      assert QueueAged(s, q0, i, j, k);
      QueueStep(s, q0, q1, i, j, k);
    }
  }

  lemma QueueStep(s: Sys, q0: map<Place, seq<Pid>>, q1: map<Place, seq<Pid>>, i: nat, j: nat, k: Place)
    requires Started(s) && i < s.levels && j < |Q(s, ReadyQ(i))| && q0.Keys == s.queues.Keys
    requires QueueAged(s, q0, i, j, ReadyQ(i)) && QueueAged(s, q0, i, j, ReadyQ(i - 1)) && QueueAged(s, q0, i, j, k)
    requires var p := Q(s, ReadyQ(i))[j];
      if p in Starved(s)
      then i > 0 && q1 == q0[ReadyQ(i) := Without(q0[ReadyQ(i)], p)][ReadyQ(i - 1) := [p] + q0[ReadyQ(i - 1)]]
      else q1 == q0
    ensures QueueAged(s, q1, i, j + 1, k)
  {
    PartlyAgedStep(s, i, j);
    PartlyAgedStepAbove(s, i, j);
  }

  lemma ProcsStep(s: Sys, p0: map<Pid, Proc>, i: nat, j: nat)
    requires Started(s) && i < s.levels && j < |Q(s, ReadyQ(i))| && ProcsAged(s, p0, i, j)
    ensures var p := Q(s, ReadyQ(i))[j];
      && p in s.procs && p0[p] == s.procs[p] && HomeOf(s.procs[p]) == ReadyQ(i)
      && ProcsAged(s, p0[p := AgedProc(s, p)], i, j + 1)
  {
    var q := Q(s, ReadyQ(i));
    var p := q[j];
    assert p in q && NoDup(q);
    assert q[..j + 1] == q[..j] + [p];
    assert !Handled(s, i, j, p) && ProcAged(s, p0, i, j, p);
    var p1, next := p0[p := AgedProc(s, p)], j + 1;
    forall x ensures ProcAged(s, p1, i, next, x) { assert ProcAged(s, p0, i, j, x); }
  }

  lemma LevelDone(s: Sys, queues: map<Place, seq<Pid>>, procs: map<Pid, Proc>, i: nat)
    requires Started(s) && i < s.levels
    requires QueuesAged(s, queues, i, |Q(s, ReadyQ(i))|) && ProcsAged(s, procs, i, |Q(s, ReadyQ(i))|)
    ensures QueuesAged(s, queues, i + 1, 0) && ProcsAged(s, procs, i + 1, 0)
  {
    var q, next, n := Q(s, ReadyQ(i)), i + 1, |Q(s, ReadyQ(i))|;
    assert q[..n] == q;
    forall k ensures QueueAged(s, queues, next, 0, k) {
      assert QueueAged(s, queues, i, n, k);
      PartlyAgedNextLevel(s, i, k);
    }
    forall p ensures ProcAged(s, procs, next, 0, p) {
      assert ProcAged(s, procs, i, n, p);
      assert p in q <==> p in s.procs && HomeOf(s.procs[p]) == ReadyQ(i);
    }
  }

  lemma AgingDone(s: Sys, t: Sys)
    requires Started(s) && !PromotesFromTop(s) && t.levels == s.levels && t.threshold == s.threshold
    requires QueuesAged(s, t.queues, s.levels, 0) && ProcsAged(s, t.procs, s.levels, 0)
    ensures t == Aged(s)
  {
    NothingBeyond(s, s.levels);
    forall k | k in t.queues ensures t.queues[k] == Q(Aged(s), k) {
      assert QueueAged(s, t.queues, s.levels, 0, k);
      AgedPlaces(s, k);
    }
    assert t.queues == Aged(s).queues;
    forall p | p in s.procs ensures t.procs[p] == AgedProc(s, p) {
      assert Scheduler.Valid(s, s.procs[p].priority) && ProcAged(s, t.procs, s.levels, 0, p);
    }
    assert t.procs == Aged(s).procs;
  }

  class Kernel {
    var procs: map<Pid, Proc>
    var queues: map<Place, seq<Pid>>
    const levels: nat
    var threshold: nat

    ghost function State(): (s: Sys)
      reads this
    {
      Sys(procs, queues, levels, threshold)
    }

    ghost predicate Valid()
      reads this
    {
      Started(State())
    }

    /** `sched_init_PRIRR`: all queues empty. */
    constructor (levels: nat, threshold: nat)
      requires levels > 0
      ensures Valid() && State().procs == map[]
      ensures forall k :: Q(State(), k) == []
      ensures this.levels == levels && this.threshold == threshold
    {
      this.levels := levels;
      this.threshold := threshold;
      procs := map[];
      queues := map i | 0 <= i < levels :: ReadyQ(i) := [];
    }

    method Enqueue(k: Place, p: Pid)
      modifies this`queues
      ensures queues == old(queues)[k := [p] + Q(old(State()), k)]
    {
      queues := queues[k := [p] + if k in queues then queues[k] else []];
    }

    /** `dequeue`: unlink and return the last element. */
    method Dequeue(k: Place) returns (r: Option<Pid>)
      requires Valid()
      modifies this`queues
      ensures Q(old(State()), k) == [] ==> r == None && queues == old(queues)
      ensures Q(old(State()), k) != [] ==>
        && r == Some(Last(Q(old(State()), k)))
        && queues == old(queues)[k := Without(Q(old(State()), k), r.value)]
    {
      var q := if k in queues then queues[k] else [];
      if q == [] { return None; }
      ghost var s := State();
      assert NoDup(Q(s, k));
      DropLast(q);
      queues := queues[k := q[..|q| - 1]];
      return Some(q[|q| - 1]);
    }

    /** Promotion: from level `i` to the head of level `i - 1`, with a cleared counter. */
    method Promote(i: nat, env: Pid)
      requires i > 0 && env in procs && procs[env].priority == i && ReadyQ(i) in queues && ReadyQ(i - 1) in queues
      modifies this`procs, this`queues
      ensures procs == old(procs)[env := old(procs)[env].(priority := i - 1, waiting := 0)]
      ensures queues == old(queues)[ReadyQ(i) := Without(old(queues)[ReadyQ(i)], env)]
                                   [ReadyQ(i - 1) := [env] + old(queues)[ReadyQ(i - 1)]]
    {
      queues := queues[ReadyQ(i) := Without(queues[ReadyQ(i)], env)];
      procs := procs[env := procs[env].(priority := i - 1, waiting := 0)];
      Enqueue(ReadyQ(i - 1), env);
    }

    /** The loop body of `clock_interrupt_handler` for `env`, element `j` of level `i`.
        `fault` reports a promotion to index -1. */
    method AgeOne(i: nat, ghost j: nat, env: Pid, ghost s: Sys) returns (fault: bool)
      requires Started(s) && i < levels == s.levels && threshold == s.threshold
      requires j < |Q(s, ReadyQ(i))| && env == Q(s, ReadyQ(i))[j]
      requires QueuesAged(s, queues, i, j) && ProcsAged(s, procs, i, j)
      modifies this`procs, this`queues
      ensures env in s.procs && (fault <==> i == 0 && env in Starved(s))
      ensures !fault ==> QueuesAged(s, queues, i, j + 1) && ProcsAged(s, procs, i, j + 1)
    {
      ProcsStep(s, procs, i, j);
      ghost var p0, q0 := procs, queues;
      if procs[env].waiting > threshold {
        var newPriority := procs[env].priority - 1;
        if newPriority < 0 {
          return true;
        }
        Promote(i, env);
      } else {
        procs := procs[env := procs[env].(waiting := procs[env].waiting + 1)];
      }
      assert procs == p0[env := AgedProc(s, env)];
      QueuesStep(s, q0, queues, i, j);
      return false;
    }

    /** The walk over one level. `LIST_FOREACH` has fetched the next element before the
        body runs, so a level is walked as it was when its walk began. */
    method AgeLevel(i: nat, ghost s: Sys) returns (fault: bool)
      requires Started(s) && i < levels == s.levels && threshold == s.threshold
      requires QueuesAged(s, queues, i, 0) && ProcsAged(s, procs, i, 0)
      modifies this`procs, this`queues
      ensures fault <==> i == 0 && !NoneStarved(s, Q(s, ReadyQ(0)), |Q(s, ReadyQ(0))|)
      ensures !fault ==>
        && QueuesAged(s, queues, i, |Q(s, ReadyQ(i))|)
        && ProcsAged(s, procs, i, |Q(s, ReadyQ(i))|)
    {
      LevelAsAtFirst(s, queues, i);
      var q := queues[ReadyQ(i)];
      assert q == Q(s, ReadyQ(i));
      var j := 0;
      fault := false;
      while j < |q| && !fault
        invariant 0 <= j <= |q|
        invariant !fault ==> QueuesAged(s, queues, i, j) && ProcsAged(s, procs, i, j)
        invariant !fault ==> (i == 0 ==> NoneStarved(s, q, j))
        invariant fault ==> i == 0 && NoneStarved(s, q, |q|) == false
      {
        fault := AgeOne(i, j, q[j], s);
        NoneStarvedStep(s, q, j);
        j := j + 1;
      }
    }

    /** The whole aging loop. Its invariant is stated as equations so that the verifier does
        not unfold their quantifiers at every turn. */
    method AgeReady() returns (fault: bool)
      requires Valid()
      modifies this`procs, this`queues
      ensures fault <==> PromotesFromTop(old(State()))
      ensures !fault ==> State() == Aged(old(State())) && Valid()
    {
      ghost var s := State();
      AgingStarts(s);
      var i := 0;
      while i < levels
        invariant 0 <= i <= levels
        invariant QueuesAged(s, queues, i, 0) == true && ProcsAged(s, procs, i, 0) == true
        invariant i > 0 ==> !PromotesFromTop(s)
      {
        fault := AgeLevel(i, s);
        TopVerdict(s);
        if fault { return; }
        LevelDone(s, queues, procs, i);
        i := i + 1;
      }
      AgingDone(s, State());
      AgedKeepsHomes(s);
      return false;
    }

    /** The first half of `fos_scheduler_PRIRR`: the running process goes back. */
    method PutCurrentBack()
      requires Valid()
      modifies this`procs, this`queues
      ensures old(Busy(State()) ==> Current(State()) in State().procs)
      ensures State() == PutBack(old(State()))
      ensures Valid() && !Busy(State())
    {
      ghost var s := State();
      PutBackKeepsHomes(s);
      var current := if Cpu in queues then queues[Cpu] else [];
      if current != [] {
        assert current == Q(s, Cpu);
        var p := current[0];
        assert p in Q(s, Cpu);
        WithoutOnly(current);
        queues := queues[Cpu := []];
        procs := procs[p := procs[p].(status := Ready)];
        Enqueue(ReadyQ(procs[p].priority), p);
        procs := procs[p := procs[p].(waiting := 0)];
      }
    }

    /** The process chosen from level `i` gets the processor. */
    method DispatchFrom(i: nat) returns (p: Pid)
      requires Valid() && !Busy(State()) && i == FirstLevel(State(), 0) < levels
      modifies this`procs, this`queues
      ensures State() == Dispatched(old(State())) && Valid()
      ensures Busy(State()) && Current(State()) == p
    {
      ghost var s := State();
      DispatchedKeepsHomes(s);
      var next := Dequeue(ReadyQ(i));
      p := next.value;
      assert p in Q(s, ReadyQ(i));
      procs := procs[p := procs[p].(status := Running)];
      Enqueue(Cpu, p);
    }

    /** `fos_scheduler_PRIRR` and the dispatch in `fos_scheduler`: put the running process
        back, scan the levels upwards, take the oldest process of the first non-empty one. */
    method Schedule() returns (next: Option<Pid>)
      requires Valid()
      modifies this`procs, this`queues
      ensures old(Busy(State()) ==> Current(State()) in State().procs)
      ensures OneHome(PutBack(old(State()))) && State() == Dispatched(PutBack(old(State())))
      ensures Valid()
      ensures next == if Busy(State()) then Some(Current(State())) else None
    {
      PutCurrentBack();
      ghost var b := State();
      var i := 0;
      while i < levels
        invariant 0 <= i <= levels
        invariant State() == b
        invariant forall k :: 0 <= k < i ==> Q(b, ReadyQ(k)) == []
      {
        if queues[ReadyQ(i)] != [] {
          FirstLevelIs(b, i);
          var p := DispatchFrom(i);
          return Some(p);
        }
        i := i + 1;
      }
      FirstLevelIs(b, levels);
      return None;
    }

    /** A clock interrupt: aging, then `yield` if a process is running. */
    method ClockInterrupt() returns (fault: bool)
      requires Valid()
      modifies this`procs, this`queues
      ensures fault <==> PromotesFromTop(old(State()))
      ensures !fault ==> State() == Ticked(old(State())) && Valid()
    {
      fault := AgeReady();
      if !fault && Cpu in queues && queues[Cpu] != [] {
        AgedKeepsHomes(old(State()));
        var next := Schedule();
      }
    }

    /** `sched_insert_ready`. */
    method InsertReady(p: Pid)
      requires p in procs
      modifies this`procs, this`queues
      ensures procs == old(procs)[p := old(procs)[p].(status := Ready)]
      ensures queues == old(queues)[ReadyQ(old(procs)[p].priority) := [p] + Q(old(State()), ReadyQ(old(procs)[p].priority))]
    {
      procs := procs[p := procs[p].(status := Ready)];
      Enqueue(ReadyQ(procs[p].priority), p);
    }

    /** `sched_run_env`: search the NEW queue for the id. */
    method RunEnv(id: Pid)
      requires Valid()
      modifies this`procs, this`queues
      ensures State() == Scheduler.RunEnv(old(State()), id) && Valid()
    {
      ghost var s := State();
      var q := if NewQ in queues then queues[NewQ] else [];
      assert q == Q(s, NewQ);
      var j := 0;
      while j < |q|
        invariant 0 <= j <= |q| && State() == s
        invariant id !in q[..j]
      {
        if q[j] == id {
          assert id in Q(s, NewQ);
          MovedKeepsHomes(s, id, WithStatus(s, id, Ready));
          queues := queues[NewQ := Without(q, id)];
          InsertReady(id);
          return;
        }
        j := j + 1;
      }
      assert q[..j] == q;
    }

    /** `dequeue` from `k`, then `sched_insert_ready`. */
    method ReadyOldest(k: Place) returns (moved: bool)
      requires Valid() && k != Cpu && !k.ReadyQ?
      modifies this`procs, this`queues
      ensures Valid()
      ensures moved <==> Q(old(State()), k) != []
      ensures !moved ==> State() == old(State())
      ensures moved ==>
        var s := old(State()); var p := Last(Q(s, k));
        p in s.procs && State() == Moved(s, p, WithStatus(s, p, Ready))
    {
      ghost var s := State();
      var next := Dequeue(k);
      if next.None? { return false; }
      var p := next.value;
      assert p in Q(s, k);
      MovedKeepsHomes(s, p, WithStatus(s, p, Ready));
      InsertReady(p);
      return true;
    }

    /** `sched_run_all`: as many turns as the NEW queue was long. At the end it panics unless
        the scheduler has not been started yet. */
    method RunAll(schedulerStopped: bool) returns (ok: bool)
      requires Valid()
      modifies this`procs, this`queues
      ensures State() == Scheduler.RunAll(old(State())) && Valid()
      ensures ok == schedulerStopped
    {
      var size := if NewQ in queues then |queues[NewQ]| else 0;
      ghost var s := State();
      for i := 0 to size
        invariant Valid() && Drained(State(), NewQ, Ready) == Drained(s, NewQ, Ready)
        invariant |Q(State(), NewQ)| == size - i
      {
        DrainStep(State(), NewQ);
        var moved := ReadyOldest(NewQ);
      }
      ok := schedulerStopped;
    }

    /** `wakeup_all`. */
    method WakeupAll(c: ChannelId)
      requires Valid()
      modifies this`procs, this`queues
      ensures State() == WakeAll(old(State()), c) && Valid()
    {
      ghost var s := State();
      var more := true;
      while more
        invariant Valid() && Drained(State(), ChanQ(c), Ready) == Drained(s, ChanQ(c), Ready)
        invariant !more ==> Q(State(), ChanQ(c)) == []
        decreases more, |Q(State(), ChanQ(c))|
      {
        DrainStep(State(), ChanQ(c));
        more := ReadyOldest(ChanQ(c));
      }
    }

    /** `wakeup_one`. */
    method WakeupOne(c: ChannelId)
      requires Valid()
      modifies this`procs, this`queues
      ensures State() == WakeOne(old(State()), c) && Valid()
    {
      var moved := ReadyOldest(ChanQ(c));
    }

    /** The queue part of `sleep`, by the running process. */
    method Sleep(c: ChannelId)
      requires Valid() && Busy(State())
      modifies this`procs, this`queues
      ensures Current(old(State())) in old(procs)
      ensures State() == Scheduler.Sleep(old(State()), c) && Valid()
    {
      ghost var s := State();
      var p := queues[Cpu][0];
      assert p in Q(s, Cpu);
      WithoutOnly(queues[Cpu]);
      MovedKeepsHomes(s, p, WithStatus(s, p, Blocked(c)));
      queues := queues[Cpu := []];
      procs := procs[p := procs[p].(status := Blocked(c))];
      Enqueue(ChanQ(c), p);
    }

    /** `sched_remove_ready`: look for the process level by level and unlink it. */
    method RemoveReady(p: Pid)
      requires Valid() && p in procs && procs[p].status == Ready
      modifies this`queues
      ensures var h := ReadyQ(procs[p].priority);
        queues == old(queues)[h := Without(Q(old(State()), h), p)]
    {
      ghost var s := State();
      assert p in Q(s, ReadyQ(procs[p].priority));
      var i := 0;
      while i < levels
        invariant 0 <= i <= procs[p].priority
        invariant State() == s
      {
        if p in queues[ReadyQ(i)] {
          assert p in Q(s, ReadyQ(i));
          queues := queues[ReadyQ(i) := Without(queues[ReadyQ(i)], p)];
          return;
        }
        i := i + 1;
      }
    }

    /** `env_set_priority`. It fails for an unknown process, where the code releases a lock
        it does not hold, and for a ready one with a priority that is no queue index, which
        the code does not check. Other processes take any priority. */
    method SetPriority(p: Pid, priority: int) returns (ok: bool)
      requires Valid()
      modifies this`procs, this`queues
      ensures ok <==> p in old(procs) && (old(procs)[p].status == Ready ==> 0 <= priority < levels)
      ensures ok ==> State() == Scheduler.SetPriority(old(State()), p, priority)
      ensures !ok ==> State() == old(State())
      ensures 0 <= priority < levels || !ok ==> Valid()
    {
      ghost var s := State();
      if p !in procs { return false; }
      if procs[p].status == Ready {
        if priority < 0 || priority >= levels { return false; }
        SetPriorityKeepsHomes(s, p, priority);
        RemoveReady(p);
        procs := procs[p := procs[p].(priority := priority, waiting := 0)];
        InsertReady(p);
      } else {
        if 0 <= priority < levels { SetPriorityKeepsHomes(s, p, priority); }
        procs := procs[p := procs[p].(priority := priority)];
      }
      return true;
    }

    /** `sched_insert_exit`. */
    method InsertExit(p: Pid)
      requires p in procs
      modifies this`procs, this`queues
      ensures procs == old(procs)[p := old(procs)[p].(status := Exited)]
      ensures queues == old(queues)[ExitQ := [p] + Q(old(State()), ExitQ)]
    {
      procs := procs[p := procs[p].(status := Exited)];
      Enqueue(ExitQ, p);
    }

    /** `sched_exit_env`. A process of the NEW queue is unlinked but the search loop runs
        on until its pointer is null, so the insertion into EXIT panics. */
    method ExitEnv(p: Pid) returns (panics: bool)
      requires Valid() && Busy(State())
      modifies this`procs, this`queues
      ensures panics <==> p in Q(old(State()), NewQ)
      ensures !panics ==> State() == Scheduler.ExitEnv(old(State()), p) && Valid()
    {
      ghost var s := State();
      var newcomers := if NewQ in queues then queues[NewQ] else [];
      assert newcomers == Q(s, NewQ);
      if p in newcomers {
        queues := queues[NewQ := Without(newcomers, p)];
        return true;
      }
      ExitKeepsHomes(s, p);
      if p in procs && procs[p].status == Ready {
        RemoveReady(p);
        InsertExit(p);
      } else if queues[Cpu][0] == p {
        assert p in Q(s, Cpu);
        WithoutOnly(queues[Cpu]);
        queues := queues[Cpu := []];
        InsertExit(p);
      } else {
        assert p in s.procs && s.procs[p].status == Running ==> p in Q(s, Cpu);
      }
      return false;
    }

    /** `LIST_REMOVE` of the head of a ready level, then `sched_insert_exit`. */
    method ExitHead(i: nat)
      requires Valid() && i < levels && Q(State(), ReadyQ(i)) != []
      modifies this`procs, this`queues
      ensures Valid()
      ensures |Q(State(), ReadyQ(i))| == |Q(old(State()), ReadyQ(i))| - 1
      ensures ExitLevels(State(), i) == ExitLevels(old(State()), i)
    {
      ghost var s := State();
      var p := queues[ReadyQ(i)][0];
      assert p in Q(s, ReadyQ(i));
      MovedKeepsHomes(s, p, WithStatus(s, p, Exited));
      queues := queues[ReadyQ(i) := queues[ReadyQ(i)][1..]];
      InsertExit(p);
      assert State() == Moved(s, p, WithStatus(s, p, Exited));
    }

    /** `sched_exit_all_ready_envs`. */
    method ExitAllReady()
      requires Valid()
      modifies this`procs, this`queues
      ensures State() == Scheduler.ExitAllReady(old(State())) && Valid()
    {
      ghost var s := State();
      var i := 0;
      while i < levels
        invariant 0 <= i <= levels
        invariant Valid() && ExitLevels(State(), i) == ExitLevels(s, 0)
      {
        while queues[ReadyQ(i)] != []
          invariant Valid() && i < levels && ExitLevels(State(), i) == ExitLevels(s, 0)
          decreases |Q(State(), ReadyQ(i))|
        {
          ExitHead(i);
        }
        i := i + 1;
      }
    }
  }

  lemma DrainStep(s: Sys, k: Place)
    requires OneHome(s) && Ranged(s) && k != ExitQ && !k.ReadyQ?
    ensures Q(s, k) != [] ==> var p := Last(Q(s, k));
      && p in s.procs && OneHome(Moved(s, p, WithStatus(s, p, Ready))) && Ranged(Moved(s, p, WithStatus(s, p, Ready)))
      && Drained(s, k, Ready) == Drained(Moved(s, p, WithStatus(s, p, Ready)), k, Ready)
      && |Q(Moved(s, p, WithStatus(s, p, Ready)), k)| == |Q(s, k)| - 1
  {
    if Q(s, k) != [] {
      var p := Last(Q(s, k));
      assert p in Q(s, k);
      MovedKeepsHomes(s, p, WithStatus(s, p, Ready));
    }
  }

  lemma AgingStarts(s: Sys)
    requires Started(s)
    ensures QueuesAged(s, s.queues, 0, 0) && ProcsAged(s, s.procs, 0, 0)
  {
    var q := Q(s, ReadyQ(0));
    assert q[0..] == q && q[..0] == [];
    forall k ensures QueueAged(s, s.queues, 0, 0, k) {
      if k.ReadyQ? && k.level < 0 { NothingBeyond(s, k.level); }
    }
    forall p ensures ProcAged(s, s.procs, 0, 0, p) { }
  }

  lemma LevelAsAtFirst(s: Sys, queues: map<Place, seq<Pid>>, i: nat)
    requires Started(s) && i < s.levels && QueuesAged(s, queues, i, 0)
    ensures ReadyQ(i) in queues && queues[ReadyQ(i)] == Q(s, ReadyQ(i))
  {
    var q := Q(s, ReadyQ(i));
    assert q[..0] == [] && q[0..] == q;
    assert ReadyQ(i) in queues && QueueAged(s, queues, i, 0, ReadyQ(i));
  }

  lemma TopVerdict(s: Sys)
    ensures PromotesFromTop(s) <==> !NoneStarved(s, Q(s, ReadyQ(0)), |Q(s, ReadyQ(0))|)
  {
    var q := Q(s, ReadyQ(0));
    if x :| 0 <= x < |q| && q[x] in Starved(s) {
      var p := q[x];
      assert p in q;
    }
  }

  /** None of the first `j` elements has passed the threshold. */
  ghost predicate NoneStarved(s: Sys, q: seq<Pid>, j: nat)
    requires j <= |q|
  {
    forall x :: 0 <= x < j ==> q[x] !in Starved(s)
  }

  lemma NoneStarvedStep(s: Sys, q: seq<Pid>, j: nat)
    requires j < |q|
    ensures NoneStarved(s, q, j) ==> (NoneStarved(s, q, j + 1) <==> q[j] !in Starved(s))
    ensures NoneStarved(s, q, |q|) ==> q[j] !in Starved(s)
  {
  }

  lemma WithoutOnly(q: seq<Pid>)
    requires |q| == 1
    ensures Without(q, q[0]) == []
  {
  }

  lemma {:induction false} FirstLevelIs(s: Sys, i: nat)
    requires i <= s.levels
    requires forall k :: 0 <= k < i ==> Q(s, ReadyQ(k)) == []
    requires i < s.levels ==> Q(s, ReadyQ(i)) != []
    ensures FirstLevel(s, 0) == i
  {
    var f := FirstLevel(s, 0);
    assert f < i ==> Q(s, ReadyQ(f)) == [];
  }
}
