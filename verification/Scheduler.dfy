/** Priority round-robin scheduling with starvation promotion: the process queues as
    one value, and what each kernel operation does to it. */
module Scheduler {
  import opened Seqs

  type Pid = int
  type ChannelId = int

  /** Where a process can be. Every place is a queue; the processor's holds at most one. */
  datatype Place = NewQ | ReadyQ(level: int) | ExitQ | ChanQ(chan: ChannelId) | Cpu

  datatype Status = New | Ready | Running | Blocked(on: ChannelId) | Exited

  /** The scheduling part of `struct Env`. */
  datatype Proc = Proc(status: Status, priority: int, waiting: nat)

  /** `queues` lists each queue from head to tail: `enqueue` inserts at the head and
      `dequeue` takes the last element, so the last element is the oldest. */
  datatype Sys = Sys(procs: map<Pid, Proc>, queues: map<Place, seq<Pid>>, levels: nat, threshold: nat)

  function Q(s: Sys, k: Place): (r: seq<Pid>) {
    if k in s.queues then s.queues[k] else []
  }

  /** The place that status and priority promise. */
  function HomeOf(pr: Proc): (r: Place) {
    match pr.status
    case New => NewQ
    case Ready => ReadyQ(pr.priority)
    case Running => Cpu
    case Blocked(c) => ChanQ(c)
    case Exited => ExitQ
  }

  ghost predicate NoDups(s: Sys) { forall k :: NoDup(Q(s, k)) }

  /** The queues partition the processes: a process is in the queue its status and
      priority name, once, and in no other. */
  ghost predicate OneHome(s: Sys) {
    && s.levels > 0
    && NoDups(s)
    && |Q(s, Cpu)| <= 1
    && (forall p, k :: p in Q(s, k) <==> p in s.procs && HomeOf(s.procs[p]) == k)
  }

  predicate Valid(s: Sys, level: int) { 0 <= level < s.levels }

  /** All priorities are queue indices. `env_set_priority` does not check this. */
  ghost predicate Ranged(s: Sys) {
    forall p :: p in s.procs ==> Valid(s, s.procs[p].priority)
  }

  predicate Busy(s: Sys) { Q(s, Cpu) != [] }

  function Current(s: Sys): (r: Pid)
    requires Busy(s)
  {
    Q(s, Cpu)[0]
  }

  /** Unlink `p`, give it the descriptor `pr` and insert it at the head of its new home. */
  function Moved(s: Sys, p: Pid, pr: Proc): (r: Sys)
    requires p in s.procs
  {
    var h := HomeOf(s.procs[p]);
    var t := s.(queues := s.queues[h := Without(Q(s, h), p)]);
    s.(procs := s.procs[p := pr], queues := t.queues[HomeOf(pr) := [p] + Q(t, HomeOf(pr))])
  }

  function WithStatus(s: Sys, p: Pid, st: Status): (r: Proc)
    requires p in s.procs
  {
    s.procs[p].(status := st)
  }

  function Last(q: seq<Pid>): (r: Pid)
    requires q != []
  {
    q[|q| - 1]
  }

  // ----- clock_interrupt_handler

  /** The processes whose wait counter has passed the threshold. */
  function Starved(s: Sys): (r: set<Pid>) {
    set p | p in s.procs && s.procs[p].waiting > s.threshold
  }

  function Patient(s: Sys): (r: set<Pid>) { s.procs.Keys - Starved(s) }

  /** The tick would promote some process out of level 0, to the queue with index -1. */
  ghost predicate PromotesFromTop(s: Sys) {
    exists p :: p in Q(s, ReadyQ(0)) && p in Starved(s)
  }

  function AgedProc(s: Sys, p: Pid): (r: Proc)
    requires p in s.procs
  {
    var pr := s.procs[p];
    if pr.status != Ready then pr
    else if pr.waiting > s.threshold then pr.(priority := pr.priority - 1, waiting := 0)
    else pr.(waiting := pr.waiting + 1)
  }

  /** Level `i` after the aging pass: its patient processes keep their order and the
      starved ones of the level below have been put in front of them one by one. */
  function AgedQueue(s: Sys, i: int): (r: seq<Pid>) {
    Reverse(Only(Q(s, ReadyQ(i + 1)), Starved(s))) + Only(Q(s, ReadyQ(i)), Patient(s))
  }

  /** The whole aging pass, all levels and processes at once. */
  function Aged(s: Sys): (r: Sys) {
    s.(procs := map p | p in s.procs :: AgedProc(s, p),
       queues := map k | k in s.queues.Keys + (set i | 0 <= i < s.levels :: ReadyQ(i)) ::
         if k.ReadyQ? then AgedQueue(s, k.level) else Q(s, k))
  }

  // ----- fos_scheduler_PRIRR and the selection loop of fos_scheduler

  /** The running process goes back to its queue with a cleared counter. */
  function PutBack(s: Sys): (r: Sys)
    requires Busy(s) ==> Current(s) in s.procs
  {
    if Busy(s) then Moved(s, Current(s), WithStatus(s, Current(s), Ready).(waiting := 0)) else s
  }

  /** The lowest-numbered non-empty level from `i` on, `s.levels` if there is none. */
  function FirstLevel(s: Sys, i: nat): (r: nat)
    requires i <= s.levels
    ensures i <= r <= s.levels
    ensures r < s.levels ==> Q(s, ReadyQ(r)) != []
    ensures forall k :: i <= k < r ==> Q(s, ReadyQ(k)) == []
    decreases s.levels - i
  {
    if i == s.levels || Q(s, ReadyQ(i)) != [] then i else FirstLevel(s, i + 1)
  }

  /** The oldest process of the best level gets the processor. */
  ghost function Dispatched(s: Sys): (r: Sys)
    requires OneHome(s)
  {
    var i := FirstLevel(s, 0);
    if i == s.levels then s
    else
      var p := Last(Q(s, ReadyQ(i)));
      assert p in Q(s, ReadyQ(i));
      Moved(s, p, WithStatus(s, p, Running))
  }

  /** A clock interrupt: aging, then `yield` when a process is running. */
  ghost function Ticked(s: Sys): (r: Sys)
    requires OneHome(s) && Ranged(s) && !PromotesFromTop(s)
  {
    AgedKeepsHomes(s);
    if !Busy(s) then Aged(s)
    else
      PutBackKeepsHomes(Aged(s));
      Dispatched(PutBack(Aged(s)))
  }

  // ----- the other operations

  /** `sched_new_env` of a fresh environment. */
  function NewEnv(s: Sys, p: Pid, priority: int): (r: Sys) {
    s.(procs := s.procs[p := Proc(New, priority, 0)], queues := s.queues[NewQ := [p] + Q(s, NewQ)])
  }

  /** `sched_run_env`: no effect unless the process is in the NEW queue. */
  ghost function RunEnv(s: Sys, p: Pid): (r: Sys)
    requires OneHome(s)
  {
    if p in Q(s, NewQ) then Moved(s, p, WithStatus(s, p, Ready)) else s
  }

  /** Empty queue `k`, oldest first, giving every process the status `st`. */
  ghost function Drained(s: Sys, k: Place, st: Status): (r: Sys)
    requires OneHome(s) && Ranged(s) && st in {Ready, Exited} && k != ExitQ && !k.ReadyQ?
    ensures OneHome(r) && Ranged(r) && r.levels == s.levels && r.threshold == s.threshold
    ensures r.procs.Keys == s.procs.Keys
    ensures forall p :: p in s.procs ==>
      r.procs[p] == if HomeOf(s.procs[p]) == k then WithStatus(s, p, st) else s.procs[p]
    decreases |Q(s, k)|
  {
    if Q(s, k) == [] then s
    else
      var p := Last(Q(s, k));
      assert p in Q(s, k);
      MovedKeepsHomes(s, p, WithStatus(s, p, st));
      Drained(Moved(s, p, WithStatus(s, p, st)), k, st)
  }

  /** `sched_run_all` moves the NEW queue to the ready queues in first-in first-out order. */
  ghost function RunAll(s: Sys): (r: Sys)
    requires OneHome(s) && Ranged(s)
  {
    Drained(s, NewQ, Ready)
  }

  /** `sleep`, by the running process. */
  function Sleep(s: Sys, c: ChannelId): (r: Sys)
    requires Busy(s) && Current(s) in s.procs
  {
    Moved(s, Current(s), WithStatus(s, Current(s), Blocked(c)))
  }

  /** `wakeup_one`: the oldest sleeper, if any. The wait counter is not reset. */
  ghost function WakeOne(s: Sys, c: ChannelId): (r: Sys)
    requires OneHome(s)
  {
    var q := Q(s, ChanQ(c));
    if q == [] then s
    else
      assert Last(q) in q;
      Moved(s, Last(q), WithStatus(s, Last(q), Ready))
  }

  /** `wakeup_all`. */
  ghost function WakeAll(s: Sys, c: ChannelId): (r: Sys)
    requires OneHome(s) && Ranged(s)
  {
    Drained(s, ChanQ(c), Ready)
  }

  /** `sched_exit_env` for a process that is not in the NEW queue: a ready process or
      the running one is moved to EXIT, anything else is left alone. */
  function ExitEnv(s: Sys, p: Pid): (r: Sys) {
    if p in s.procs && (s.procs[p].status == Ready || s.procs[p].status == Running)
    then Moved(s, p, WithStatus(s, p, Exited)) else s
  }

  /** `sched_exit_all_ready_envs`: levels `i` on in order, each from head to tail. */
  ghost function ExitLevels(s: Sys, i: nat): (r: Sys)
    requires OneHome(s) && Ranged(s) && i <= s.levels
    ensures OneHome(r) && Ranged(r) && r.levels == s.levels && r.threshold == s.threshold
    ensures r.procs.Keys == s.procs.Keys
    ensures forall p :: p in s.procs ==>
      r.procs[p] == if s.procs[p].status == Ready && s.procs[p].priority >= i then WithStatus(s, p, Exited) else s.procs[p]
    decreases s.levels - i, |Q(s, ReadyQ(i))|
  {
    if i == s.levels then s
    else if Q(s, ReadyQ(i)) == [] then ExitLevels(s, i + 1)
    else
      var p := Q(s, ReadyQ(i))[0];
      MovedKeepsHomes(s, p, WithStatus(s, p, Exited));
      ExitLevels(Moved(s, p, WithStatus(s, p, Exited)), i)
  }

  ghost function ExitAllReady(s: Sys): (r: Sys)
    requires OneHome(s) && Ranged(s)
  {
    ExitLevels(s, 0)
  }

  /** `env_set_priority` of an existing process: a ready process is requeued with a
      cleared counter, any other just gets the new priority. */
  function SetPriority(s: Sys, p: Pid, k: int): (r: Sys)
    requires p in s.procs
  {
    var pr := s.procs[p];
    if pr.status == Ready then Moved(s, p, pr.(priority := k, waiting := 0))
    else s.(procs := s.procs[p := pr.(priority := k)])
  }

  // ----- the moves keep the partition

  lemma MovedQueue(s: Sys, p: Pid, pr: Proc, k: Place)
    requires p in s.procs
    ensures var h := HomeOf(s.procs[p]); var base := if k == h then Without(Q(s, k), p) else Q(s, k);
      Q(Moved(s, p, pr), k) == if k == HomeOf(pr) then [p] + base else base
  {
  }

  lemma MovedMember(s: Sys, p: Pid, pr: Proc, x: Pid, k: Place)
    requires OneHome(s) && p in s.procs
    ensures x in Q(Moved(s, p, pr), k) <==> if x == p then k == HomeOf(pr) else x in Q(s, k)
  {
    MovedQueue(s, p, pr, k);
    assert NoDup(Q(s, k));
    WithoutMember(Q(s, k), p, x);
    assert x in Q(s, k) <==> x in s.procs && HomeOf(s.procs[x]) == k;
  }

  lemma MovedNoDup(s: Sys, p: Pid, pr: Proc, k: Place)
    requires OneHome(s) && p in s.procs
    ensures NoDup(Q(Moved(s, p, pr), k))
  {
    MovedQueue(s, p, pr, k);
    assert NoDup(Q(s, k));
    WithoutNoDup(Q(s, k), p);
    WithoutMember(Q(s, k), p, p);
    var base := if k == HomeOf(s.procs[p]) then Without(Q(s, k), p) else Q(s, k);
    assert p in Q(s, k) <==> HomeOf(s.procs[p]) == k;
    NoDupAppend([p], base);
  }

  lemma MovedPartition(s: Sys, p: Pid, pr: Proc)
    requires OneHome(s) && p in s.procs
    ensures var t := Moved(s, p, pr);
      && NoDups(t)
      && (forall x, k :: x in Q(t, k) <==> x in t.procs && HomeOf(t.procs[x]) == k)
      && (forall x, k :: x != p ==> (x in Q(t, k) <==> x in Q(s, k)))
  {
    var t := Moved(s, p, pr);
    forall k ensures NoDup(Q(t, k)) { MovedNoDup(s, p, pr, k); }
    forall x, k ensures x in Q(t, k) <==> x in t.procs && HomeOf(t.procs[x]) == k {
      MovedMember(s, p, pr, x, k);
      assert x in Q(s, k) <==> x in s.procs && HomeOf(s.procs[x]) == k;
    }
    forall x, k | x != p ensures x in Q(t, k) <==> x in Q(s, k) { MovedMember(s, p, pr, x, k); }
  }

  lemma MovedPlaces(s: Sys, p: Pid, pr: Proc)
    requires p in s.procs
    ensures var h := HomeOf(s.procs[p]); h != HomeOf(pr) ==>
      && Q(Moved(s, p, pr), h) == Without(Q(s, h), p)
      && Q(Moved(s, p, pr), HomeOf(pr)) == [p] + Q(s, HomeOf(pr))
    ensures forall k :: k != HomeOf(s.procs[p]) && k != HomeOf(pr) ==> Q(Moved(s, p, pr), k) == Q(s, k)
  {
  }

  lemma MovedCpu(s: Sys, p: Pid, pr: Proc)
    requires OneHome(s) && p in s.procs
    requires HomeOf(pr) == Cpu ==> !Busy(s)
    ensures |Q(Moved(s, p, pr), Cpu)| <= 1
  {
    MovedQueue(s, p, pr, Cpu);
    assert p in Q(s, Cpu) <==> HomeOf(s.procs[p]) == Cpu;
  }

  lemma MovedKeepsHomes(s: Sys, p: Pid, pr: Proc)
    requires OneHome(s) && p in s.procs
    requires HomeOf(pr) == Cpu ==> !Busy(s)
    ensures OneHome(Moved(s, p, pr))
    ensures Ranged(s) && Valid(s, pr.priority) ==> Ranged(Moved(s, p, pr))
    ensures forall x, k :: x != p ==> (x in Q(Moved(s, p, pr), k) <==> x in Q(s, k))
    ensures var h := HomeOf(s.procs[p]); h != HomeOf(pr) ==>
      && Q(Moved(s, p, pr), h) == Without(Q(s, h), p)
      && Q(Moved(s, p, pr), HomeOf(pr)) == [p] + Q(s, HomeOf(pr))
    ensures forall k :: k != HomeOf(s.procs[p]) && k != HomeOf(pr) ==> Q(Moved(s, p, pr), k) == Q(s, k)
  {
    MovedPartition(s, p, pr);
    MovedPlaces(s, p, pr);
    MovedCpu(s, p, pr);
  }

  lemma AgedMember(s: Sys, i: int, p: Pid)
    ensures p in AgedQueue(s, i) <==>
      || (p in Q(s, ReadyQ(i)) && p in Patient(s))
      || (p in Q(s, ReadyQ(i + 1)) && p in Starved(s))
  {
    OnlyMember(Q(s, ReadyQ(i)), Patient(s), p);
    OnlyMember(Q(s, ReadyQ(i + 1)), Starved(s), p);
    ReverseMember(Only(Q(s, ReadyQ(i + 1)), Starved(s)), p);
  }

  lemma AgedQueueNoDup(s: Sys, i: int)
    requires NoDups(s)
    ensures NoDup(AgedQueue(s, i))
  {
    var up := Only(Q(s, ReadyQ(i + 1)), Starved(s));
    var stay := Only(Q(s, ReadyQ(i)), Patient(s));
    OnlyNoDup(Q(s, ReadyQ(i)), Patient(s));
    OnlyNoDup(Q(s, ReadyQ(i + 1)), Starved(s));
    forall p | p in Reverse(up) ensures p !in stay {
      ReverseMember(up, p);
      OnlyMember(Q(s, ReadyQ(i + 1)), Starved(s), p);
      OnlyMember(Q(s, ReadyQ(i)), Patient(s), p);
    }
    NoDupAppend(Reverse(up), stay);
  }

  lemma AgedQueueHome(s: Sys, p: Pid, i: int)
    requires OneHome(s)
    ensures p in AgedQueue(s, i) <==> p in s.procs && HomeOf(AgedProc(s, p)) == ReadyQ(i)
  {
    AgedMember(s, i, p);
    assert p in Q(s, ReadyQ(i)) <==> p in s.procs && HomeOf(s.procs[p]) == ReadyQ(i);
    assert p in Q(s, ReadyQ(i + 1)) <==> p in s.procs && HomeOf(s.procs[p]) == ReadyQ(i + 1);
  }

  lemma AgedRanged(s: Sys, p: Pid)
    requires OneHome(s) && Ranged(s) && !PromotesFromTop(s) && p in s.procs
    ensures Valid(s, AgedProc(s, p).priority)
  {
    if s.procs[p].status == Ready { assert p in Q(s, ReadyQ(s.procs[p].priority)); }
  }

  lemma AgedNowhere(s: Sys, i: int)
    requires OneHome(s) && Ranged(s) && !PromotesFromTop(s) && !Valid(s, i)
    ensures AgedQueue(s, i) == []
  {
    if AgedQueue(s, i) != [] {
      var p := AgedQueue(s, i)[0];
      AgedQueueHome(s, p, i);
      AgedRanged(s, p);
      assert false;
    }
  }

  lemma AgedPlaces(s: Sys, k: Place)
    requires OneHome(s) && Ranged(s) && !PromotesFromTop(s)
    ensures Q(Aged(s), k) == if k.ReadyQ? then AgedQueue(s, k.level) else Q(s, k)
  {
    if k.ReadyQ? && !Valid(s, k.level) {
      AgedNowhere(s, k.level);
    }
  }

  lemma AgedHome(s: Sys, p: Pid, k: Place)
    requires OneHome(s) && Ranged(s) && !PromotesFromTop(s)
    ensures p in Q(Aged(s), k) <==> p in s.procs && HomeOf(AgedProc(s, p)) == k
  {
    AgedPlaces(s, k);
    if k.ReadyQ? {
      AgedQueueHome(s, p, k.level);
    } else {
      assert p in Q(s, k) <==> p in s.procs && HomeOf(s.procs[p]) == k;
    }
  }

  lemma AgedNoDups(s: Sys)
    requires OneHome(s) && Ranged(s) && !PromotesFromTop(s)
    ensures NoDups(Aged(s))
  {
    var t := Aged(s);
    forall k ensures NoDup(Q(t, k)) {
      AgedPlaces(s, k);
      if k.ReadyQ? { AgedQueueNoDup(s, k.level); } else { assert NoDup(Q(s, k)); }
    }
  }

  lemma AgedPartition(s: Sys)
    requires OneHome(s) && Ranged(s) && !PromotesFromTop(s)
    ensures forall p, k :: p in Q(Aged(s), k) <==> p in Aged(s).procs && HomeOf(Aged(s).procs[p]) == k
  {
    forall p, k ensures p in Q(Aged(s), k) <==> p in Aged(s).procs && HomeOf(Aged(s).procs[p]) == k {
      AgedHome(s, p, k);
    }
  }

  lemma AgedAllRanged(s: Sys)
    requires OneHome(s) && Ranged(s) && !PromotesFromTop(s)
    ensures Ranged(Aged(s))
  {
    forall p | p in s.procs ensures Valid(s, AgedProc(s, p).priority) { AgedRanged(s, p); }
  }

  /** Aging and promotion keep the partition, provided nobody is promoted out of level 0. */
  lemma AgedKeepsHomes(s: Sys)
    requires OneHome(s) && Ranged(s) && !PromotesFromTop(s)
    ensures OneHome(Aged(s)) && Ranged(Aged(s))
    ensures Q(Aged(s), Cpu) == Q(s, Cpu)
  {
    AgedNoDups(s);
    AgedPlaces(s, Cpu);
    AgedPartition(s);
    AgedAllRanged(s);
  }

  lemma PutBackKeepsHomes(s: Sys)
    requires OneHome(s) && Ranged(s)
    ensures Busy(s) ==> Current(s) in s.procs
    ensures OneHome(PutBack(s)) && Ranged(PutBack(s)) && !Busy(PutBack(s))
  {
    if Busy(s) {
      var p := Current(s);
      assert p in Q(s, Cpu);
      MovedKeepsHomes(s, p, WithStatus(s, p, Ready).(waiting := 0));
    }
  }

  lemma DispatchedKeepsHomes(s: Sys)
    requires OneHome(s) && Ranged(s) && !Busy(s)
    ensures OneHome(Dispatched(s)) && Ranged(Dispatched(s))
  {
    var i := FirstLevel(s, 0);
    if i < s.levels {
      var p := Last(Q(s, ReadyQ(i)));
      assert p in Q(s, ReadyQ(i));
      MovedKeepsHomes(s, p, WithStatus(s, p, Running));
    }
  }
}
