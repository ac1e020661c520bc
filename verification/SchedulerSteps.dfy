/** What the steps of the scheduler do to each queue and each process, told without
    unlinking and inserting: who is dispatched, who stays ahead of whom, and what becomes of
    the process that a call names. */
module SchedulerSteps {
  import opened Seqs
  import opened Scheduler

  lemma CurrentKnown(s: Sys)
    requires OneHome(s) && Busy(s)
    ensures Current(s) in s.procs && s.procs[Current(s)].status == Running
  {
    assert Current(s) in Q(s, Cpu);
  }

  lemma DropLast(q: seq<Pid>)
    requires NoDup(q) && q != []
    ensures Without(q, Last(q)) == q[..|q| - 1]
    ensures Last(q) !in q[..|q| - 1]
  {
    var a := q[..|q| - 1];
    assert q == a + [Last(q)] + [];
    WithoutMiddle(a, Last(q), []);
  }

  lemma ReadyIsValid(s: Sys, p: Pid, i: int)
    requires OneHome(s) && Ranged(s) && p in Q(s, ReadyQ(i))
    ensures Valid(s, i)
  {
    assert HomeOf(s.procs[p]) == ReadyQ(i);
  }

  lemma NobodyReady(s: Sys, i: int)
    requires OneHome(s) && Ranged(s) && FirstLevel(s, 0) == s.levels
    ensures Q(s, ReadyQ(i)) == []
  {
    if !Valid(s, i) { NothingBeyond(s, i); }
  }

  lemma NothingBeyond(s: Sys, i: int)
    requires OneHome(s) && Ranged(s) && !Valid(s, i)
    ensures Q(s, ReadyQ(i)) == []
  {
    var q := Q(s, ReadyQ(i));
    if q != [] {
      ReadyIsValid(s, q[0], i);
      assert false;
    }
  }

  lemma {:induction false} AheadZero(q: seq<Pid>, p: Pid)
    requires NoDup(q) && p in q
    ensures Ahead(q, p) == 0 <==> p == Last(q)
  {
    if |q| > 1 && q[0] != p {
      AheadZero(q[1..], p);
    }
  }

  // ----- who is dispatched

  /** Level `i` is the first at which somebody waits. */
  ghost predicate Best(s: Sys, i: nat) {
    i < s.levels && Q(s, ReadyQ(i)) != [] && forall k: nat :: k < i ==> Q(s, ReadyQ(k)) == []
  }

  lemma BestIsFirst(s: Sys, i: nat)
    requires Best(s, i)
    ensures FirstLevel(s, 0) == i
  {
  }

  /** `t` is `s` with the processor given to the last process of level `i`. */
  ghost predicate GivesLast(s: Sys, t: Sys, i: nat)
    requires Best(s, i)
  {
    var q := Q(s, ReadyQ(i));
    var p := q[|q| - 1];
    && p in s.procs && t.procs == s.procs[p := s.procs[p].(status := Running)]
    && Q(t, Cpu) == [p] && Q(t, ReadyQ(i)) == q[..|q| - 1]
    && forall k :: k != ReadyQ(i) && k != Cpu ==> Q(t, k) == Q(s, k)
  }

  lemma DispatchedFrom(s: Sys, i: nat)
    requires OneHome(s) && Ranged(s) && !Busy(s) && Best(s, i)
    ensures GivesLast(s, Dispatched(s), i)
  {
    BestIsFirst(s, i);
    var q := Q(s, ReadyQ(i));
    var p := q[|q| - 1];
    assert p in q && NoDup(q);
    DropLast(q);
    MovedKeepsHomes(s, p, WithStatus(s, p, Running));
  }

  /** The processor goes to the last process of the first level that is not empty, at
      whatever level; nothing else changes, and with nobody ready nothing at all. */
  lemma DispatchedIs(s: Sys)
    requires OneHome(s) && Ranged(s) && !Busy(s)
    ensures (forall i: nat :: !Best(s, i)) ==> Dispatched(s) == s
    ensures forall i: nat :: Best(s, i) ==> GivesLast(s, Dispatched(s), i)
  {
    if FirstLevel(s, 0) < s.levels { assert Best(s, FirstLevel(s, 0)); }
    forall i: nat | Best(s, i) ensures GivesLast(s, Dispatched(s), i) { DispatchedFrom(s, i); }
  }

  /** Hence the one with nobody ahead runs, and everybody else of that level moves up. */
  lemma DispatchedRound(s: Sys, i: nat, p: Pid)
    requires OneHome(s) && Ranged(s) && !Busy(s) && Best(s, i) && p in Q(s, ReadyQ(i))
    ensures var q := Q(s, ReadyQ(i)); var t := Dispatched(s);
      && Busy(t) && p in s.procs
      && (Ahead(q, p) == 0 ==> Current(t) == p)
      && (Ahead(q, p) > 0 ==>
            p in Q(t, ReadyQ(i)) && Ahead(Q(t, ReadyQ(i)), p) == Ahead(q, p) - 1 && t.procs[p] == s.procs[p])
  {
    DispatchedFrom(s, i);
    var q := Q(s, ReadyQ(i));
    assert NoDup(q);
    AheadZero(q, p);
    if Last(q) != p { AheadDropLast(q, p); }
  }

  // ----- one tick at the first level in use

  /** Level `i` is the first in use, by waiting processes or the running one, and nobody
      there is due for promotion. */
  ghost predicate Round(s: Sys, i: nat) {
    && i < s.levels && (forall k: nat :: k < i ==> Q(s, ReadyQ(k)) == [])
    && Busy(s) && Current(s) in s.procs && s.procs[Current(s)].priority >= i
    && forall x :: x in Q(s, ReadyQ(i)) ==> x !in Starved(s)
  }

  /** The aging pass only adds processes at the head of such a level ... */
  lemma AgedLevel(s: Sys, i: nat)
    requires OneHome(s) && Ranged(s) && !PromotesFromTop(s) && i < s.levels
    requires forall x :: x in Q(s, ReadyQ(i)) ==> x !in Starved(s)
    ensures Q(Aged(s), ReadyQ(i)) == Reverse(Only(Q(s, ReadyQ(i + 1)), Starved(s))) + Q(s, ReadyQ(i))
  {
    AgedPlaces(s, ReadyQ(i));
    forall x | x in Q(s, ReadyQ(i)) ensures x in Patient(s) { assert x in s.procs; }
    OnlyAll(Q(s, ReadyQ(i)), Patient(s));
  }

  /** ... and none at the levels below it. */
  lemma AgedBelow(s: Sys, i: nat, k: nat)
    requires OneHome(s) && Ranged(s) && !PromotesFromTop(s) && Round(s, i) && k < i
    ensures Q(Aged(s), ReadyQ(k)) == []
  {
    AgedPlaces(s, ReadyQ(k));
    var next := k + 1;
    assert next < i ==> Q(s, ReadyQ(next)) == [];
    forall x | x in Q(s, ReadyQ(k + 1)) ensures x !in Starved(s) { assert x in Q(s, ReadyQ(i)); }
    OnlyNone(Q(s, ReadyQ(k + 1)), Starved(s));
  }

  lemma AgedRound(s: Sys, i: nat, p: Pid)
    requires OneHome(s) && Ranged(s) && !PromotesFromTop(s) && Round(s, i) && p in Q(s, ReadyQ(i))
    ensures p in Q(Aged(s), ReadyQ(i)) && Ahead(Q(Aged(s), ReadyQ(i)), p) == Ahead(Q(s, ReadyQ(i)), p)
    ensures p in s.procs && Aged(s).procs[p] == s.procs[p].(waiting := s.procs[p].waiting + 1)
  {
    assert HomeOf(s.procs[p]) == ReadyQ(i) && p !in Starved(s);
    AgedLevel(s, i);
    AheadPromoted(Q(s, ReadyQ(i + 1)), Starved(s), Q(s, ReadyQ(i)), p);
  }

  lemma AheadPromoted(above: seq<Pid>, starved: set<Pid>, q: seq<Pid>, p: Pid)
    requires p in q && p !in starved
    ensures var r := Reverse(Only(above, starved)) + q; p in r && Ahead(r, p) == Ahead(q, p)
  {
    var up := Only(above, starved);
    OnlyMember(above, starved, p);
    ReverseMember(up, p);
    AheadPrefix(Reverse(up), q, p);
  }

  /** Putting the running process back delays nobody either. */
  lemma PutBackIs(s: Sys)
    requires OneHome(s) && Ranged(s) && Busy(s)
    ensures var c := Current(s); var t := PutBack(s);
      && c in s.procs && OneHome(t) && Ranged(t) && !Busy(t)
      && t.procs == s.procs[c := Proc(Ready, s.procs[c].priority, 0)]
      && Q(t, ReadyQ(s.procs[c].priority)) == [c] + Q(s, ReadyQ(s.procs[c].priority))
      && forall k :: k != ReadyQ(s.procs[c].priority) && k != Cpu ==> Q(t, k) == Q(s, k)
  {
    CurrentKnown(s);
    PutBackKeepsHomes(s);
    var c := Current(s);
    MovedKeepsHomes(s, c, WithStatus(s, c, Ready).(waiting := 0));
  }

  lemma PutBackRound(s: Sys, i: nat, p: Pid)
    requires OneHome(s) && Ranged(s) && Busy(s) && i < s.levels && p in Q(s, ReadyQ(i))
    requires forall k: nat :: k < i ==> Q(s, ReadyQ(k)) == []
    requires Current(s) in s.procs && s.procs[Current(s)].priority >= i
    ensures var t := PutBack(s);
      && OneHome(t) && Ranged(t) && !Busy(t) && Best(t, i) && p in Q(t, ReadyQ(i))
      && Ahead(Q(t, ReadyQ(i)), p) == Ahead(Q(s, ReadyQ(i)), p)
      && p in s.procs && t.procs[p] == s.procs[p]
  {
    PutBackIs(s);
    CurrentKnown(s);
    var c := Current(s);
    assert HomeOf(s.procs[p]) == ReadyQ(i);
    if s.procs[c].priority == i { AheadPrefix([c], Q(s, ReadyQ(i)), p); }
  }

  /** One tick dispatches the process of that level with nobody ahead, and moves every other
      one up by one place. */
  lemma TickedRound(s: Sys, i: nat, p: Pid)
    requires OneHome(s) && Ranged(s) && !PromotesFromTop(s) && Round(s, i) && p in Q(s, ReadyQ(i))
    ensures Busy(Ticked(s))
    ensures Ahead(Q(s, ReadyQ(i)), p) == 0 ==> Current(Ticked(s)) == p
    ensures Ahead(Q(s, ReadyQ(i)), p) > 0 ==>
      && p in Q(Ticked(s), ReadyQ(i))
      && Ahead(Q(Ticked(s), ReadyQ(i)), p) == Ahead(Q(s, ReadyQ(i)), p) - 1
      && p in s.procs && p in Ticked(s).procs
      && Ticked(s).procs[p] == s.procs[p].(waiting := s.procs[p].waiting + 1)
  {
    CurrentKnown(s);
    AgedKeepsHomes(s);
    AgedRound(s, i, p);
    forall k: nat | k < i ensures Q(Aged(s), ReadyQ(k)) == [] { AgedBelow(s, i, k); }
    PutBackRound(Aged(s), i, p);
    DispatchedRound(PutBack(Aged(s)), i, p);
  }

  // ----- the running process at a tick

  /** A tick from `s` to `t` seen from the state `b` in which the running process has been
      put back: `p` is picked from level `i`. */
  ghost predicate Picks(s: Sys, t: Sys, b: Sys, i: nat, p: Pid)
    requires Busy(s)
  {
    var c := Current(s);
    && c in s.procs && OneHome(b) && Ranged(b) && b.levels == s.levels && Best(b, i)
    && b.procs == Aged(s).procs[c := Proc(Ready, s.procs[c].priority, 0)]
    && i <= s.procs[c].priority && Q(b, ReadyQ(s.procs[c].priority)) != [] && Q(b, ReadyQ(s.procs[c].priority))[0] == c
    && p == Q(b, ReadyQ(i))[|Q(b, ReadyQ(i))| - 1] && GivesLast(b, t, i)
  }

  lemma TickedPicks(s: Sys) returns (b: Sys, i: nat, p: Pid)
    requires OneHome(s) && Ranged(s) && Busy(s) && !PromotesFromTop(s)
    ensures Picks(s, Ticked(s), b, i, p)
  {
    var c := Current(s);
    CurrentKnown(s);
    AgedKeepsHomes(s);
    PutBackIs(Aged(s));
    b := PutBack(Aged(s));
    assert Aged(s).procs[c] == s.procs[c];
    i := FirstLevel(b, 0);
    assert Q(b, ReadyQ(s.procs[c].priority)) != [];
    assert Best(b, i);
    DispatchedFrom(b, i);
    p := Q(b, ReadyQ(i))[|Q(b, ReadyQ(i))| - 1];
  }

  lemma PickedFrom(s: Sys, t: Sys, b: Sys, i: nat, p: Pid)
    requires OneHome(s) && Busy(s) && Picks(s, t, b, i, p)
    ensures p in s.procs && p in b.procs && b.procs[p].status == Ready && b.procs[p].priority == i
    ensures Busy(t) && Current(t) == p
  {
    assert p in Q(b, ReadyQ(i)) && HomeOf(b.procs[p]) == ReadyQ(i);
  }

  /** A tick leaves the running process where it is exactly if nobody else is ready at its
      priority or a better one after aging. Otherwise it is the newest of its level, with its
      wait counter cleared. */
  lemma RunningGoesBack(s: Sys)
    requires OneHome(s) && Ranged(s) && Busy(s) && !PromotesFromTop(s)
    ensures var c := Current(s); var t := Ticked(s);
      && c in s.procs && Busy(t) && c in t.procs
      && (Current(t) == c <==>
            forall x :: x in s.procs && s.procs[x].status == Ready ==> AgedProc(s, x).priority > s.procs[c].priority)
      && (Current(t) != c ==>
            && t.procs[c] == Proc(Ready, s.procs[c].priority, 0)
            && Q(t, ReadyQ(s.procs[c].priority)) != [] && Q(t, ReadyQ(s.procs[c].priority))[0] == c)
  {
    var b, i, p := TickedPicks(s);
    CurrentKnown(s);
    PickedFrom(s, Ticked(s), b, i, p);
    if p == Current(s) { PickedAgain(s, Ticked(s), b, i); } else { PickedOther(s, Ticked(s), b, i, p); }
  }

  lemma PickedAgain(s: Sys, t: Sys, b: Sys, i: nat)
    requires OneHome(s) && Busy(s) && Picks(s, t, b, i, Current(s))
    ensures forall x :: x in s.procs && s.procs[x].status == Ready ==>
      AgedProc(s, x).priority > s.procs[Current(s)].priority
  {
    var c := Current(s);
    CurrentKnown(s);
    PickedFrom(s, t, b, i, c);
    forall x | x in s.procs && s.procs[x].status == Ready ensures AgedProc(s, x).priority > i {
      assert x != c && x in Aged(s).procs && Aged(s).procs[x] == AgedProc(s, x);
      LoneOnes(s, b, x, c, i);
    }
  }

  lemma PickedOther(s: Sys, t: Sys, b: Sys, i: nat, p: Pid)
    requires OneHome(s) && Busy(s) && Picks(s, t, b, i, p) && p != Current(s)
    ensures p in s.procs && s.procs[p].status == Ready && AgedProc(s, p).priority <= s.procs[Current(s)].priority
    ensures var c := Current(s);
      && c in t.procs && t.procs[c] == Proc(Ready, s.procs[c].priority, 0)
      && Q(t, ReadyQ(s.procs[c].priority)) != [] && Q(t, ReadyQ(s.procs[c].priority))[0] == c
  {
    PickedFrom(s, t, b, i, p);
    assert p in Aged(s).procs && Aged(s).procs[p] == AgedProc(s, p);
    var c := Current(s);
    var q := Q(b, ReadyQ(i));
    if i == s.procs[c].priority { assert q[0] == c && q[..|q| - 1][0] == c; }
  }

  /** If `c` is the last of the first level in use and also its head, nobody else is there. */
  lemma LoneOnes(s: Sys, b: Sys, x: Pid, c: Pid, i: nat)
    requires OneHome(b) && Ranged(b) && Best(b, i)
    requires x != c && x in s.procs && x in b.procs && b.procs[x] == AgedProc(s, x) && AgedProc(s, x).status == Ready
    requires var q := Q(b, ReadyQ(i)); q[0] == c && q[|q| - 1] == c
    ensures AgedProc(s, x).priority > i
  {
    var j := b.procs[x].priority;
    assert x in Q(b, ReadyQ(j));
    assert NoDup(Q(b, ReadyQ(i)));
    assert Q(b, ReadyQ(i)) == [c];
  }

  /** With nobody on the processor a tick ages and promotes, and dispatches nobody. */
  lemma IdleTick(s: Sys)
    requires OneHome(s) && Ranged(s) && !Busy(s) && !PromotesFromTop(s)
    ensures !Busy(Ticked(s)) && Ticked(s).procs.Keys == s.procs.Keys
    ensures forall p :: p in s.procs ==> Ticked(s).procs[p] == AgedProc(s, p)
  {
    AgedKeepsHomes(s);
  }

  // ----- the order that aging leaves

  /** Aging keeps the order of those that stay at a level and puts the promoted ones behind
      them, in the opposite of the order they had. */
  lemma AgedOrder(s: Sys, i: nat, p: Pid, r: Pid)
    requires OneHome(s) && Ranged(s) && !PromotesFromTop(s) && i < s.levels && p != r
    ensures var q := Q(Aged(s), ReadyQ(i));
      && (Stays(s, i, p) && Stays(s, i, r) && Ahead(Q(s, ReadyQ(i)), p) < Ahead(Q(s, ReadyQ(i)), r) ==>
            p in q && r in q && Ahead(q, p) < Ahead(q, r))
      && (Stays(s, i, p) && Rises(s, i, r) ==> p in q && r in q && Ahead(q, p) < Ahead(q, r))
      && (Rises(s, i, p) && Rises(s, i, r) && Ahead(Q(s, ReadyQ(i + 1)), r) < Ahead(Q(s, ReadyQ(i + 1)), p) ==>
            p in q && r in q && Ahead(q, p) < Ahead(q, r))
  {
    AgedPlaces(s, ReadyQ(i));
    if Stays(s, i, p) && Stays(s, i, r) && Ahead(Q(s, ReadyQ(i)), p) < Ahead(Q(s, ReadyQ(i)), r) { StayOrder(s, i, p, r); }
    if Stays(s, i, p) && Rises(s, i, r) { RiseBehind(s, i, p, r); }
    if Rises(s, i, p) && Rises(s, i, r) && Ahead(Q(s, ReadyQ(i + 1)), r) < Ahead(Q(s, ReadyQ(i + 1)), p) { RiseOrder(s, i, p, r); }
  }

  ghost predicate Stays(s: Sys, i: nat, p: Pid) { p in Q(s, ReadyQ(i)) && p in s.procs && s.procs[p].waiting <= s.threshold }

  ghost predicate Rises(s: Sys, i: nat, p: Pid) { p in Q(s, ReadyQ(i + 1)) && p in s.procs && s.procs[p].waiting > s.threshold }

  lemma AgedParts(s: Sys, i: nat, x: Pid)
    requires OneHome(s)
    ensures var up := Only(Q(s, ReadyQ(i + 1)), Starved(s)); var stay := Only(Q(s, ReadyQ(i)), Patient(s));
      && NoDup(up) && NoDup(stay) && NoDup(Reverse(up))
      && (Stays(s, i, x) ==> x in stay && x !in Reverse(up))
      && (Rises(s, i, x) ==> x in up && x in Reverse(up))
  {
    var up, stay := Only(Q(s, ReadyQ(i + 1)), Starved(s)), Only(Q(s, ReadyQ(i)), Patient(s));
    assert NoDup(Q(s, ReadyQ(i))) && NoDup(Q(s, ReadyQ(i + 1)));
    OnlyNoDup(Q(s, ReadyQ(i)), Patient(s));
    OnlyNoDup(Q(s, ReadyQ(i + 1)), Starved(s));
    ReverseNoDup(up);
    OnlyMember(Q(s, ReadyQ(i)), Patient(s), x);
    OnlyMember(Q(s, ReadyQ(i + 1)), Starved(s), x);
    ReverseMember(up, x);
  }

  lemma StayOrder(s: Sys, i: nat, p: Pid, r: Pid)
    requires OneHome(s) && Stays(s, i, p) && Stays(s, i, r)
    requires Ahead(Q(s, ReadyQ(i)), p) < Ahead(Q(s, ReadyQ(i)), r)
    ensures var q := AgedQueue(s, i); p in q && r in q && Ahead(q, p) < Ahead(q, r)
  {
    var up, stay := Only(Q(s, ReadyQ(i + 1)), Starved(s)), Only(Q(s, ReadyQ(i)), Patient(s));
    AgedParts(s, i, p);
    AgedParts(s, i, r);
    assert NoDup(Q(s, ReadyQ(i)));
    OnlyOrder(Q(s, ReadyQ(i)), Patient(s), p, r);
    AheadPrefix(Reverse(up), stay, p);
    AheadPrefix(Reverse(up), stay, r);
  }

  lemma RiseBehind(s: Sys, i: nat, p: Pid, r: Pid)
    requires OneHome(s) && Stays(s, i, p) && Rises(s, i, r)
    ensures var q := AgedQueue(s, i); p in q && r in q && Ahead(q, p) < Ahead(q, r)
  {
    var up, stay := Only(Q(s, ReadyQ(i + 1)), Starved(s)), Only(Q(s, ReadyQ(i)), Patient(s));
    AgedParts(s, i, p);
    AgedParts(s, i, r);
    AheadPrefix(Reverse(up), stay, p);
    AheadSuffix(Reverse(up), stay, r);
  }

  lemma RiseOrder(s: Sys, i: nat, p: Pid, r: Pid)
    requires OneHome(s) && Rises(s, i, p) && Rises(s, i, r)
    requires Ahead(Q(s, ReadyQ(i + 1)), r) < Ahead(Q(s, ReadyQ(i + 1)), p)
    ensures var q := AgedQueue(s, i); p in q && r in q && Ahead(q, p) < Ahead(q, r)
  {
    var up, stay := Only(Q(s, ReadyQ(i + 1)), Starved(s)), Only(Q(s, ReadyQ(i)), Patient(s));
    AgedParts(s, i, p);
    AgedParts(s, i, r);
    assert NoDup(Q(s, ReadyQ(i + 1)));
    OnlyOrder(Q(s, ReadyQ(i + 1)), Starved(s), r, p);
    ReverseAhead(up, p);
    ReverseAhead(up, r);
    AheadSuffix(Reverse(up), stay, p);
    AheadSuffix(Reverse(up), stay, r);
  }

  // ----- the process that a call names

  /** `p` has left the queue `from`, is the newest in the queue `to` and has become `pr`;
      nothing else has changed. */
  ghost predicate Transfers(s: Sys, t: Sys, p: Pid, from: Place, to: Place, pr: Proc) {
    && p in s.procs && p in Q(s, from) && t.procs == s.procs[p := pr]
    && t.levels == s.levels && t.threshold == s.threshold
    && (forall k :: k != from && k != to ==> Q(t, k) == Q(s, k))
    && Q(t, to) == [p] + (if from == to then Without(Q(s, to), p) else Q(s, to))
    && (from != to ==> Q(t, from) == Without(Q(s, from), p))
  }

  lemma MovedTransfers(s: Sys, p: Pid, pr: Proc)
    requires OneHome(s) && p in s.procs
    ensures Transfers(s, Moved(s, p, pr), p, HomeOf(s.procs[p]), HomeOf(pr), pr)
  {
    assert p in Q(s, HomeOf(s.procs[p]));
    forall k ensures k != HomeOf(s.procs[p]) && k != HomeOf(pr) ==> Q(Moved(s, p, pr), k) == Q(s, k) { MovedQueue(s, p, pr, k); }
    MovedQueue(s, p, pr, HomeOf(pr));
    MovedQueue(s, p, pr, HomeOf(s.procs[p]));
  }

  /** A new environment is the newest of the NEW queue, with nothing waited. */
  lemma CreateIs(s: Sys, p: Pid, k: int)
    requires p !in s.procs
    ensures var t := NewEnv(s, p, k);
      && t.procs == s.procs[p := Proc(New, k, 0)] && Q(t, NewQ) == [p] + Q(s, NewQ)
      && (forall j :: j != NewQ ==> Q(t, j) == Q(s, j))
  {
  }

  lemma RunIs(s: Sys, p: Pid)
    requires OneHome(s)
    ensures if p !in Q(s, NewQ) then RunEnv(s, p) == s
      else
        && p in s.procs
        && Transfers(s, RunEnv(s, p), p, NewQ, ReadyQ(s.procs[p].priority), s.procs[p].(status := Ready))
  {
    if p in Q(s, NewQ) { MovedTransfers(s, p, WithStatus(s, p, Ready)); }
  }

  /** The running process goes to sleep on the channel named, and on no other. */
  lemma SleepIs(s: Sys, c: ChannelId)
    requires OneHome(s) && Busy(s)
    ensures var p := Q(s, Cpu)[0];
      && p in s.procs && Current(s) in s.procs
      && Transfers(s, Sleep(s, c), p, Cpu, ChanQ(c), s.procs[p].(status := Blocked(c)))
      && Q(Sleep(s, c), Cpu) == []
  {
    CurrentKnown(s);
    MovedTransfers(s, Current(s), WithStatus(s, Current(s), Blocked(c)));
  }

  /** The last of the channel's queue becomes the newest of its level; its counter stays. */
  lemma WakeIs(s: Sys, c: ChannelId)
    requires OneHome(s)
    ensures var q := Q(s, ChanQ(c));
      if q == [] then WakeOne(s, c) == s
      else
        var p := q[|q| - 1];
        && p in s.procs && Q(WakeOne(s, c), ChanQ(c)) == q[..|q| - 1]
        && Transfers(s, WakeOne(s, c), p, ChanQ(c), ReadyQ(s.procs[p].priority), s.procs[p].(status := Ready))
  {
    var q := Q(s, ChanQ(c));
    if q != [] {
      var p := q[|q| - 1];
      assert p in q && NoDup(q);
      DropLast(q);
      MovedTransfers(s, p, WithStatus(s, p, Ready));
    }
  }

  /** A ready or running process moves to EXIT, any other stays. */
  lemma ExitIs(s: Sys, p: Pid)
    requires OneHome(s)
    ensures var t := ExitEnv(s, p);
      && (p in s.procs && s.procs[p].status == Ready ==>
            Transfers(s, t, p, ReadyQ(s.procs[p].priority), ExitQ, s.procs[p].(status := Exited)))
      && (p in s.procs && s.procs[p].status == Running ==>
            Transfers(s, t, p, Cpu, ExitQ, s.procs[p].(status := Exited)))
      && (p !in s.procs || s.procs[p].status !in {Ready, Running} ==> t == s)
  {
    if p in s.procs { MovedTransfers(s, p, WithStatus(s, p, Exited)); }
  }

  /** A ready process becomes the newest of its new level, with its counter cleared; for any
      other nothing but the priority changes. */
  lemma SetPriorityIs(s: Sys, p: Pid, k: int)
    requires OneHome(s) && p in s.procs
    ensures var t := SetPriority(s, p, k);
      && (s.procs[p].status == Ready ==>
            Transfers(s, t, p, ReadyQ(s.procs[p].priority), ReadyQ(k), Proc(Ready, k, 0)))
      && (s.procs[p].status != Ready ==>
            t.procs == s.procs[p := s.procs[p].(priority := k)] && forall j :: Q(t, j) == Q(s, j))
  {
    if s.procs[p].status == Ready { MovedTransfers(s, p, s.procs[p].(priority := k, waiting := 0)); }
  }

  /** Draining a queue touches that queue and the queues of the new status. */
  lemma {:induction false} DrainedRest(s: Sys, k: Place, j: Place)
    requires OneHome(s) && Ranged(s) && k != ExitQ && !k.ReadyQ? && !j.ReadyQ? && j != k
    ensures Q(Drained(s, k, Ready), j) == Q(s, j)
    decreases |Q(s, k)|
  {
    if Q(s, k) != [] {
      var p := Last(Q(s, k));
      assert p in Q(s, k);
      MovedKeepsHomes(s, p, WithStatus(s, p, Ready));
      assert NoDup(Q(s, k));
      DropLast(Q(s, k));
      DrainedRest(Moved(s, p, WithStatus(s, p, Ready)), k, j);
    }
  }

  /** The ready levels from `i` on in the order in which `sched_exit_all_ready_envs` takes
      their processes: level by level, each from its newest to its oldest. */
  ghost function ExitOrder(s: Sys, i: nat): (r: seq<Pid>)
    requires i <= s.levels
    decreases s.levels - i
  {
    if i == s.levels then [] else Q(s, ReadyQ(i)) + ExitOrder(s, i + 1)
  }

  lemma {:induction false} ExitOrderSame(s: Sys, t: Sys, i: nat)
    requires i <= s.levels == t.levels && forall k: nat :: i <= k ==> Q(t, ReadyQ(k)) == Q(s, ReadyQ(k))
    ensures ExitOrder(t, i) == ExitOrder(s, i)
    decreases s.levels - i
  {
    if i < s.levels { ExitOrderSame(s, t, i + 1); }
  }

  /** One process more in EXIT, one fewer to go. */
  lemma ExitStep(s: Sys, i: nat)
    requires OneHome(s) && Ranged(s) && i < s.levels && Q(s, ReadyQ(i)) != []
    ensures var p := Q(s, ReadyQ(i))[0]; p in s.procs && var t := Moved(s, p, WithStatus(s, p, Exited));
      && OneHome(t) && Ranged(t) && t.levels == s.levels && ExitLevels(t, i) == ExitLevels(s, i)
      && Q(t, ReadyQ(i)) == Q(s, ReadyQ(i))[1..] && Q(t, ExitQ) == [p] + Q(s, ExitQ)
      && forall k :: k != ReadyQ(i) && k != ExitQ ==> Q(t, k) == Q(s, k)
  {
    var q := Q(s, ReadyQ(i));
    var p := q[0];
    assert p in q && HomeOf(s.procs[p]) == ReadyQ(i);
    MovedKeepsHomes(s, p, WithStatus(s, p, Exited));
  }

  lemma {:induction false} ExitLevelsRest(s: Sys, i: nat, k: Place)
    requires OneHome(s) && Ranged(s) && i <= s.levels && k != ExitQ
    ensures Q(ExitLevels(s, i), k) == if k.ReadyQ? && i <= k.level < s.levels then [] else Q(s, k)
    decreases s.levels - i, |Q(s, ReadyQ(i))|
  {
    if i < s.levels {
      var q := Q(s, ReadyQ(i));
      if q == [] {
        ExitLevelsRest(s, i + 1, k);
      } else {
        ExitStep(s, i);
        ExitLevelsRest(Moved(s, q[0], WithStatus(s, q[0], Exited)), i, k);
      }
    }
  }

  lemma ExitOrderStep(q: seq<Pid>, more: seq<Pid>, exited: seq<Pid>)
    requires q != []
    ensures Reverse(q[1..] + more) + ([q[0]] + exited) == Reverse(q + more) + exited
  {
    var rest := q[1..] + more;
    assert q + more == [q[0]] + rest && (q + more)[1..] == rest;
    AppendAssociative(Reverse(rest), [q[0]], exited);
  }

  lemma ExitOrderMoved(s: Sys, t: Sys, i: nat)
    requires i < s.levels == t.levels && Q(s, ReadyQ(i)) != [] && Q(t, ReadyQ(i)) == Q(s, ReadyQ(i))[1..]
    requires Q(t, ExitQ) == [Q(s, ReadyQ(i))[0]] + Q(s, ExitQ)
    requires forall k :: k != ReadyQ(i) && k != ExitQ ==> Q(t, k) == Q(s, k)
    ensures Reverse(ExitOrder(t, i)) + Q(t, ExitQ) == Reverse(ExitOrder(s, i)) + Q(s, ExitQ)
  {
    ExitOrderSame(s, t, i + 1);
    ExitOrderStep(Q(s, ReadyQ(i)), ExitOrder(s, i + 1), Q(s, ExitQ));
  }

  /** Afterwards these levels are empty, their processes are in EXIT in that order, the last
      one taken newest, and every other queue is as it was. */
  lemma {:induction false} ExitLevelsIs(s: Sys, i: nat)
    requires OneHome(s) && Ranged(s) && i <= s.levels
    ensures Q(ExitLevels(s, i), ExitQ) == Reverse(ExitOrder(s, i)) + Q(s, ExitQ)
    decreases s.levels - i, |Q(s, ReadyQ(i))|
  {
    if i < s.levels {
      var q := Q(s, ReadyQ(i));
      if q == [] {
        ExitLevelsIs(s, i + 1);
        assert ExitOrder(s, i) == ExitOrder(s, i + 1);
      } else {
        ExitStep(s, i);
        var t := Moved(s, q[0], WithStatus(s, q[0], Exited));
        ExitLevelsIs(t, i);
        ExitOrderMoved(s, t, i);
      }
    }
  }
}
