/** Sleeping on a channel, step by step. A step is what one process does between two
    points where another may get in, so any interleaving of steps is a run. */
module Channel {
  import opened Seqs

  type Pid = int

  /** Who holds `ProcessQueues.qlock`: a process of this protocol, or the scheduler or
      any other part of the kernel. */
  datatype QHolder = QFree | QProc(p: Pid) | QOther

  /** A channel with the spin lock `lk` that guards its condition. `slept` and `woken`
      record, in order, every process that was ever enqueued and ever woken. */
  datatype Chan = Chan(lk: Option<Pid>, qlock: QHolder, queue: seq<Pid>, slept: seq<Pid>, woken: seq<Pid>)

  const Unused: Chan := Chan(None, QFree, [], [], [])

  /** The program points of `sleep`. */
  datatype SleepPc =
    | TakeQ      // holds lk, about to acquire qlock
    | DropLk     // holds lk and qlock, about to release lk
    | Enroll     // holds qlock, about to block, enqueue itself and switch to the scheduler
    | Asleep     // in the queue
    | Resumable  // made ready again, not yet dispatched
    | RetakeLk   // dispatched with qlock held, about to acquire lk
    | DropQ      // holds lk and qlock, about to release qlock

  predicate SleeperHoldsLk(pc: SleepPc) { pc == TakeQ || pc == DropLk || pc == DropQ }

  predicate SleeperHoldsQ(pc: SleepPc) { pc == DropLk || pc == Enroll || pc == RetakeLk || pc == DropQ }

  /** The step of `sleep` that process `p` takes at `pc` can be taken now. */
  predicate SleepEnabled(c: Chan, pc: SleepPc) {
    match pc
    case TakeQ => c.qlock == QFree
    case Asleep => false
    case Resumable => c.qlock == QOther
    case RetakeLk => c.lk == None
    case _ => true
  }

  function SleepChan(c: Chan, p: Pid, pc: SleepPc): (r: Chan) {
    match pc
    case TakeQ => c.(qlock := QProc(p))
    case DropLk => c.(lk := None)
    case Enroll => c.(queue := [p] + c.queue, slept := c.slept + [p], qlock := QOther)
    case Resumable => c.(qlock := QProc(p))
    case RetakeLk => c.(lk := Some(p))
    case DropQ => c.(qlock := QFree)
    case Asleep => c
  }

  /** The next point, `None` when `sleep` returns. */
  function SleepNext(pc: SleepPc): (r: Option<SleepPc>) {
    match pc
    case TakeQ => Some(DropLk)
    case DropLk => Some(Enroll)
    case Enroll => Some(Asleep)
    case Asleep => Some(Asleep)
    case Resumable => Some(RetakeLk)
    case RetakeLk => Some(DropQ)
    case DropQ => None
  }

  /** `dequeue` of the channel: the oldest sleeper leaves. */
  function Dequeued(c: Chan): (r: Chan)
    requires c.queue != []
  {
    var n := |c.queue| - 1;
    c.(queue := c.queue[..n], woken := c.woken + [c.queue[n]])
  }

  /** No gap for a wakeup to be lost in: until it is in the queue a process that goes to sleep
      has `lk` or `qlock`, and when it is, the scheduler has `qlock`; a woken one goes on only
      when it is given `qlock` by the scheduler. */
  lemma NoGap(c: Chan, p: Pid, pc: SleepPc)
    requires SleepEnabled(c, pc)
    requires (SleeperHoldsLk(pc) ==> c.lk == Some(p)) && (SleeperHoldsQ(pc) ==> c.qlock == QProc(p))
    ensures pc in {TakeQ, DropLk, Enroll} ==>
      var d := SleepChan(c, p, pc);
      d.lk == Some(p) || d.qlock == QProc(p) || (p in d.queue && d.qlock == QOther)
    ensures pc == Resumable ==> c.qlock == QOther && SleepChan(c, p, pc).qlock == QProc(p)
  {
  }

  /** The k-th process woken is the k-th that went to sleep, and the rest are still queued. */
  ghost predicate FifoHistory(c: Chan) { c.slept == c.woken + Reverse(c.queue) }

  /** Each sleeper is queued once, in the order of falling asleep. */
  ghost predicate Orderly(c: Chan) { NoDup(c.queue) && FifoHistory(c) }

  function Oldest(c: Chan): (p: Pid)
    requires c.queue != []
  {
    c.queue[|c.queue| - 1]
  }

  /** Waking takes the process that has slept longest, and no other. */
  lemma DequeuedFifo(c: Chan)
    requires c.queue != [] && Orderly(c)
    ensures Orderly(Dequeued(c))
    ensures |c.woken| < |c.slept| && Oldest(c) == c.slept[|c.woken|] && Dequeued(c).woken == c.slept[..|c.woken| + 1]
    ensures forall x :: x in Dequeued(c).queue <==> x in c.queue && x != Oldest(c)
  {
    var n := |c.queue| - 1;
    assert c.queue == c.queue[..n] + [c.queue[n]];
    ReverseAppend(c.queue[..n], c.queue[n]);
  }

  /** Falling asleep queues one more process, behind all others in order. */
  lemma EnrolledFifo(c: Chan, p: Pid)
    requires Orderly(c) && p !in c.queue
    ensures Orderly(SleepChan(c, p, Enroll))
    ensures forall x :: x in SleepChan(c, p, Enroll).queue <==> x in c.queue || x == p
  {
    assert ([p] + c.queue)[1..] == c.queue;
  }
}
