/**
 The two worker pools: httplib's ThreadPool (Httplib/httplib.h) and the TCP
 server's ThreadPool (socket/TCP/ThreadPool.hpp).  Workers wait on a condition
 variable for jobs; any number of clients enqueue; httplib's pool is also shut
 down by one caller.  Acquiring the mutex, the body of a critical section with
 its unlock, a notification and a job's end are the atomic steps.  A blocked
 worker can also wake up spuriously.
 */
module WorkerPool {
  import opened Prelude

  /** The pools differ in the queue limit (0 means none) and in whether the
      notification is sent before the lock is released. */
  datatype Config = Config(maxQueued: nat, signalLocked: bool)

  datatype Worker<J> =
    | Top                         // about to lock
    | Check                       // holds the lock, about to look at the queue
    | Waiting                     // blocked on the condition variable
    | Woken                       // notified, about to lock again
    | Running(ticket: nat, fn: J) // runs the job that was accepted as number `ticket`
    | Done                        // left its loop

  datatype Client<J> =
    | Idle
    | Holding(fn: J)              // holds the lock, about to offer fn
    | Notifying                   // queued its job, about to notify

  datatype Stopper =
    | NotYet
    | Locked                      // holds the lock
    | Announced                   // shutdown is set, about to notify all
    | Joining(k: nat)             // waits for worker k to be done
    | Returned

  datatype Holder = NoOne | W(i: nat) | C(i: nat) | S

  datatype State<J> = State(
    cfg: Config,
    mutex: Holder,
    jobs: seq<J>,
    shutdown: bool,
    workers: seq<Worker<J>>,
    clients: seq<Client<J>>,
    stopper: Stopper,
    accepted: seq<J>,      // every job ever queued, in order
    taken: nat,            // how many of them workers have taken
    finished: seq<nat>,    // tickets of the jobs that ended, in order
    orphaned: bool)        // a job was queued when every worker was already done

  /** A scheduling decision.  The waiter is the worker that a notification wakes
      if there is one to wake. */
  datatype Label<J> =
    | WorkerStep(i: nat)
    | Spurious(i: nat)
    | Call(c: nat, fn: J)
    | ClientStep(c: nat, waiter: nat)
    | StopperStep

  // ----- the steps

  predicate AllDone<J>(workers: seq<Worker<J>>) {
    forall i :: 0 <= i < |workers| ==> workers[i].Done?
  }

  predicate SomeWaiting<J>(workers: seq<Worker<J>>) {
    exists i :: 0 <= i < |workers| && workers[i].Waiting?
  }

  predicate CanStep<J>(s: State<J>, l: Label<J>) {
    match l
    case WorkerStep(i) => i < |s.workers| && (
                            match s.workers[i]
                            case Top => s.mutex.NoOne?
                            case Woken => s.mutex.NoOne?
                            case Check => true
                            case Running(_, _) => true
                            case Waiting => false
                            case Done => false)
    case Spurious(i) => i < |s.workers| && s.workers[i].Waiting?
    case Call(c, _) => c < |s.clients| && s.clients[c].Idle? && s.mutex.NoOne?
    case ClientStep(c, waiter) =>
      && c < |s.clients| && !s.clients[c].Idle?
      && (SomeWaiting(s.workers) ==> waiter < |s.workers| && s.workers[waiter].Waiting?)
    case StopperStep => (
      match s.stopper
      case NotYet => s.mutex.NoOne?
      case Joining(k) => k < |s.workers| ==> s.workers[k].Done?
      case Returned => false
      case _ => true)
  }

  function WorkerNext<J>(s: State<J>, i: nat): State<J>
    requires i < |s.workers|
  {
    match s.workers[i]
    case Check =>
      if s.jobs != [] then
        s.(workers := s.workers[i := Running(s.taken, s.jobs[0])],
           jobs := s.jobs[1..], taken := s.taken + 1, mutex := NoOne)
      else if s.shutdown then s.(workers := s.workers[i := Done], mutex := NoOne)
      else s.(workers := s.workers[i := Waiting], mutex := NoOne)
    case Running(ticket, _) => s.(workers := s.workers[i := Top], finished := s.finished + [ticket])
    case _ => s.(workers := s.workers[i := Check], mutex := W(i))  // Top and Woken lock
  }

  /** notify_one: wakes the waiter, or nobody if nobody waits. */
  function NotifyOne<J>(workers: seq<Worker<J>>, waiter: nat): seq<Worker<J>> {
    if waiter < |workers| && workers[waiter].Waiting? then workers[waiter := Woken] else workers
  }

  /** notify_all */
  function NotifyAll<J>(workers: seq<Worker<J>>): (r: seq<Worker<J>>)
    ensures |r| == |workers|
    ensures forall i :: 0 <= i < |workers| ==> r[i] == if workers[i].Waiting? then Woken else workers[i]
  {
    if workers == [] then [] else
    [if workers[0].Waiting? then Woken else workers[0]] + NotifyAll(workers[1..])
  }

  predicate Full<J>(s: State<J>) { s.cfg.maxQueued > 0 && |s.jobs| >= s.cfg.maxQueued }

  function ClientNext<J>(s: State<J>, c: nat, waiter: nat): State<J>
    requires c < |s.clients|
  {
    match s.clients[c]
    case Idle => s
    case Holding(fn) =>
      if Full(s) then s.(clients := s.clients[c := Idle], mutex := NoOne)  // enqueue returns false
      else
        s.(jobs := s.jobs + [fn], accepted := s.accepted + [fn], mutex := NoOne,
           orphaned := s.orphaned || AllDone(s.workers),
           clients := s.clients[c := if s.cfg.signalLocked then Idle else Notifying],
           workers := if s.cfg.signalLocked then NotifyOne(s.workers, waiter) else s.workers)
    case Notifying =>
      s.(clients := s.clients[c := Idle], workers := NotifyOne(s.workers, waiter))
  }

  function StopperNext<J>(s: State<J>): State<J> {
    match s.stopper
    case NotYet => s.(stopper := Locked, mutex := S)
    case Locked => s.(stopper := Announced, shutdown := true, mutex := NoOne)
    case Announced => s.(stopper := Joining(0), workers := NotifyAll(s.workers))
    case Joining(k) => s.(stopper := if k < |s.workers| then Joining(k + 1) else Returned)
    case Returned => s
  }

  function Next<J>(s: State<J>, l: Label<J>): State<J> {
    if !CanStep(s, l) then s else
    match l
    case WorkerStep(i) => WorkerNext(s, i)
    case Spurious(i) => s.(workers := s.workers[i := Woken])
    case Call(c, fn) => s.(clients := s.clients[c := Holding(fn)], mutex := C(c))
    case ClientStep(c, waiter) => ClientNext(s, c, waiter)
    case StopperStep => StopperNext(s)
  }

  function Run<J>(s: State<J>, schedule: seq<Label<J>>): State<J>
    decreases |schedule|
  {
    if schedule == [] then s else
    Next(Run(s, schedule[..|schedule| - 1]), schedule[|schedule| - 1])
  }

  ghost predicate Init<J>(s: State<J>) {
    && s.mutex.NoOne? && s.jobs == [] && !s.shutdown && s.stopper.NotYet?
    && (forall i :: 0 <= i < |s.workers| ==> s.workers[i].Top?)
    && (forall c :: 0 <= c < |s.clients| ==> s.clients[c].Idle?)
    && s.accepted == [] && s.taken == 0 && s.finished == [] && !s.orphaned
  }

  // ----- the invariant

  /** The mutex is held by exactly the thread that is inside a critical section. */
  ghost predicate MutexOk<J>(s: State<J>) {
    && (forall i :: 0 <= i < |s.workers| ==> (s.workers[i].Check? <==> s.mutex == W(i)))
    && (forall c :: 0 <= c < |s.clients| ==> (s.clients[c].Holding? <==> s.mutex == C(c)))
    && (s.stopper.Locked? <==> s.mutex.S?)
    && (s.mutex.W? ==> s.mutex.i < |s.workers|)
    && (s.mutex.C? ==> s.mutex.i < |s.clients|)
  }

  /** How many workers run the job with this ticket. */
  function RunningCount<J>(workers: seq<Worker<J>>, ticket: nat): nat {
    if workers == [] then 0 else
    RunsTicket(workers[0], ticket) + RunningCount(workers[1..], ticket)
  }

  function RunsTicket<J>(w: Worker<J>, ticket: nat): nat {
    if w.Running? && w.ticket == ticket then 1 else 0
  }

  lemma {:induction false} RunningUpdate<J>(workers: seq<Worker<J>>, i: nat, w: Worker<J>, ticket: nat)
    requires i < |workers|
    ensures RunningCount(workers[i := w], ticket) + RunsTicket(workers[i], ticket)
         == RunningCount(workers, ticket) + RunsTicket(w, ticket)
  {
    if i == 0 {
      assert workers[i := w][1..] == workers[1..];
    } else {
      assert workers[i := w][1..] == workers[1..][i - 1 := w];
      RunningUpdate(workers[1..], i - 1, w, ticket);
    }
  }

  lemma {:induction false} RunningZero<J>(workers: seq<Worker<J>>, ticket: nat)
    requires forall i :: 0 <= i < |workers| ==> !workers[i].Running?
    ensures RunningCount(workers, ticket) == 0
  {
    if workers != [] {
      RunningZero(workers[1..], ticket);
    }
  }

  lemma {:induction false} RunningNotifyAll<J>(workers: seq<Worker<J>>, ticket: nat)
    ensures RunningCount(NotifyAll(workers), ticket) == RunningCount(workers, ticket)
  {
    if workers != [] {
      assert NotifyAll(workers)[1..] == NotifyAll(workers[1..]);
      RunningNotifyAll(workers[1..], ticket);
    }
  }

  /** Each taken job is either run by exactly one worker or has ended exactly once,
      and no other job is run or has ended. */
  ghost predicate OnceOk<J>(s: State<J>) {
    forall ticket: nat :: RunningCount(s.workers, ticket) + multiset(s.finished)[ticket]
                          == if ticket < s.taken then 1 else 0
  }

  /** The queue is what was accepted and not yet taken, in order; a worker runs
      the job of its ticket. */
  ghost predicate QueueOk<J>(s: State<J>) {
    && s.taken <= |s.accepted| && s.jobs == s.accepted[s.taken..]
    && (s.cfg.maxQueued > 0 ==> |s.jobs| <= s.cfg.maxQueued)
    && (forall i :: 0 <= i < |s.workers| && s.workers[i].Running? ==>
         s.workers[i].ticket < s.taken && s.accepted[s.workers[i].ticket] == s.workers[i].fn)
  }

  /** A notification is on its way, or some worker is going to look at the queue. */
  ghost predicate WakeupComing<J>(s: State<J>) {
    || (exists c :: 0 <= c < |s.clients| && s.clients[c].Notifying?)
    || s.stopper.Announced?
    || (exists i :: 0 <= i < |s.workers| && !s.workers[i].Waiting? && !s.workers[i].Done?)
  }

  ghost predicate WakeupOk<J>(s: State<J>) {
    && (s.shutdown <==> !s.stopper.NotYet? && !s.stopper.Locked?)
    && ((s.stopper.Joining? || s.stopper.Returned?) ==>
         forall i :: 0 <= i < |s.workers| ==> !s.workers[i].Waiting?)
    && (forall i :: 0 <= i < |s.workers| && s.workers[i].Done? ==> s.shutdown)
    && (s.jobs != [] && !s.orphaned ==> !AllDone(s.workers) && WakeupComing(s))
    && (s.stopper.Joining? ==>
         (s.stopper.k <= |s.workers| && forall i :: 0 <= i < s.stopper.k ==> s.workers[i].Done?))
    && (s.orphaned ==> AllDone(s.workers) && s.jobs != [])
    && (s.stopper.Returned? ==> AllDone(s.workers))
  }

  ghost predicate Inv<J>(s: State<J>) {
    MutexOk(s) && QueueOk(s) && OnceOk(s) && WakeupOk(s)
  }

  lemma InitInv<J>(s: State<J>)
    requires Init(s)
    ensures Inv(s)
  {
    forall ticket: nat ensures RunningCount(s.workers, ticket) == 0 {
      RunningZero(s.workers, ticket);
    }
  }

  lemma WorkerOnce<J>(s: State<J>, i: nat, ticket: nat)
    requires QueueOk(s) && OnceOk(s) && CanStep(s, WorkerStep(i))
    ensures var s' := WorkerNext(s, i);
      RunningCount(s'.workers, ticket) + multiset(s'.finished)[ticket] == if ticket < s'.taken then 1 else 0
  {
    RunningUpdate(s.workers, i, WorkerNext(s, i).workers[i], ticket);
    assert RunningCount(s.workers, ticket) + multiset(s.finished)[ticket] == if ticket < s.taken then 1 else 0;
  }

  lemma NotifyOnce<J>(workers: seq<Worker<J>>, waiter: nat, ticket: nat)
    ensures RunningCount(NotifyOne(workers, waiter), ticket) == RunningCount(workers, ticket)
  {
    if waiter < |workers| {
      RunningUpdate(workers, waiter, Woken, ticket);
    }
  }

  lemma NextOnce<J>(s: State<J>, l: Label<J>)
    requires OnceOk(s) && QueueOk(s)
    ensures OnceOk(Next(s, l))
  {
    var s' := Next(s, l);
    forall ticket: nat
      ensures RunningCount(s'.workers, ticket) + multiset(s'.finished)[ticket] == if ticket < s'.taken then 1 else 0
    {
      assert RunningCount(s.workers, ticket) + multiset(s.finished)[ticket] == if ticket < s.taken then 1 else 0;
      if CanStep(s, l) {
        match l {
          case WorkerStep(i) => WorkerOnce(s, i, ticket);
          case Spurious(i) => NotifyOnce(s.workers, i, ticket);
          case Call(_, _) =>
          case ClientStep(_, waiter) => NotifyOnce(s.workers, waiter, ticket);
          case StopperStep => RunningNotifyAll(s.workers, ticket);
        }
      }
    }
  }

  lemma WorkerKeeps<J>(s: State<J>, i: nat)
    requires MutexOk(s) && QueueOk(s) && CanStep(s, WorkerStep(i))
    ensures MutexOk(WorkerNext(s, i)) && QueueOk(WorkerNext(s, i))
  {
    assert s.workers[i].Check? <==> s.mutex == W(i);
  }

  lemma ClientKeepsMutex<J>(s: State<J>, c: nat, waiter: nat)
    requires MutexOk(s) && CanStep(s, ClientStep(c, waiter))
    ensures MutexOk(ClientNext(s, c, waiter))
  {
  }

  lemma ClientKeepsQueue<J>(s: State<J>, c: nat, waiter: nat)
    requires QueueOk(s) && CanStep(s, ClientStep(c, waiter))
    ensures QueueOk(ClientNext(s, c, waiter))
  {
  }

  lemma StopperKeeps<J>(s: State<J>)
    requires MutexOk(s) && QueueOk(s) && CanStep(s, StopperStep)
    ensures MutexOk(StopperNext(s)) && QueueOk(StopperNext(s))
  {
  }

  lemma NextKeeps<J>(s: State<J>, l: Label<J>)
    requires MutexOk(s) && QueueOk(s)
    ensures MutexOk(Next(s, l)) && QueueOk(Next(s, l))
  {
    if CanStep(s, l) {
      match l {
        case WorkerStep(i) => WorkerKeeps(s, i);
        case Spurious(i) =>
        case Call(_, _) =>
        case ClientStep(c, waiter) =>
          ClientKeepsMutex(s, c, waiter);
          ClientKeepsQueue(s, c, waiter);
        case StopperStep => StopperKeeps(s);
      }
    }
  }

  /** A worker or a pending notifier that is still there after the step. */
  lemma StillComing<J>(s: State<J>, s': State<J>)
    requires |s.workers| == |s'.workers| && |s.clients| == |s'.clients|
    requires WakeupComing(s) && (s.stopper.Announced? ==> s'.stopper.Announced?)
    requires forall c :: 0 <= c < |s.clients| && s.clients[c].Notifying? ==> s'.clients[c].Notifying?
    requires forall i :: 0 <= i < |s.workers| && Live(s.workers[i]) ==> Live(s'.workers[i])
    ensures WakeupComing(s')
  {
  }

  predicate Live<J>(w: Worker<J>) { !w.Waiting? && !w.Done? }

  lemma WorkerWakeup<J>(s: State<J>, i: nat)
    requires MutexOk(s) && WakeupOk(s) && CanStep(s, WorkerStep(i))
    ensures WakeupOk(WorkerNext(s, i))
  {
    var s' := WorkerNext(s, i);
    if s'.jobs != [] && !s'.orphaned {
      assert Live(s'.workers[i]);
    }
  }

  lemma ClientWakeup<J>(s: State<J>, c: nat, waiter: nat)
    requires MutexOk(s) && WakeupOk(s) && CanStep(s, ClientStep(c, waiter))
    ensures WakeupOk(ClientNext(s, c, waiter))
  {
    var s' := ClientNext(s, c, waiter);
    if s'.jobs != [] && !s'.orphaned {
      assert !AllDone(s.workers);
      var i :| 0 <= i < |s.workers| && !s.workers[i].Done?;
      assert !s'.workers[i].Done?;
      if s.clients[c].Holding? && Full(s) {
        StillComing(s, s');
      } else if s.clients[c].Holding? && !s.cfg.signalLocked {
        assert s'.clients[c].Notifying?;
      } else if SomeWaiting(s.workers) {
        assert Live(s'.workers[waiter]);
      } else {
        assert Live(s'.workers[i]);
      }
    }
  }

  lemma StopperWakeup<J>(s: State<J>)
    requires MutexOk(s) && WakeupOk(s) && CanStep(s, StopperStep)
    ensures WakeupOk(StopperNext(s))
  {
  }

  lemma NextWakeup<J>(s: State<J>, l: Label<J>)
    requires MutexOk(s) && WakeupOk(s)
    ensures WakeupOk(Next(s, l))
  {
    var s' := Next(s, l);
    if CanStep(s, l) {
      match l {
        case WorkerStep(i) => WorkerWakeup(s, i);
        case Spurious(i) =>
          if s.jobs != [] && !s.orphaned {
            assert Live(s'.workers[i]);
          }
        case Call(_, _) =>
          if s.jobs != [] && !s.orphaned {
            StillComing(s, s');
          }
        case ClientStep(c, waiter) => ClientWakeup(s, c, waiter);
        case StopperStep => StopperWakeup(s);
      }
    }
  }

  lemma {:induction false} RunInv<J>(s: State<J>, schedule: seq<Label<J>>)
    requires Inv(s)
    ensures Inv(Run(s, schedule))
    decreases |schedule|
  {
    if schedule != [] {
      var s1, l := Run(s, schedule[..|schedule| - 1]), schedule[|schedule| - 1];
      RunInv(s, schedule[..|schedule| - 1]);
      NextKeeps(s1, l);
      NextOnce(s1, l);
      NextWakeup(s1, l);
    }
  }

  // ----- the jobs that are offered

  /** What client c has offered last. */
  function Offered<J>(init: State<J>, schedule: seq<Label<J>>, c: nat): Option<J>
    decreases |schedule|
  {
    if schedule == [] then None else
    var before, l := schedule[..|schedule| - 1], schedule[|schedule| - 1];
    if l.Call? && l.c == c && CanStep(Run(init, before), l) then Some(l.fn) else Offered(init, before, c)
  }

  /** There is room for one more job: there is no limit, or fewer jobs are queued. */
  predicate Room(maxQueued: nat, queued: nat) { maxQueued == 0 || queued < maxQueued }

  /** The jobs that are offered while there is room, in the order in which their clients
      come to the queue. */
  function AcceptedJobs<J>(init: State<J>, schedule: seq<Label<J>>): seq<J>
    decreases |schedule|
  {
    if schedule == [] then [] else
    var before, l := schedule[..|schedule| - 1], schedule[|schedule| - 1];
    var s := Run(init, before);
    AcceptedJobs(init, before) +
      if l.ClientStep? && CanStep(s, l) && s.clients[l.c].Holding? && Room(init.cfg.maxQueued, |s.jobs|)
      then (match Offered(init, before, l.c) case Some(fn) => [fn] case None => [])
      else []
  }

  /** A client that holds the lock holds the job that it has offered last. */
  ghost predicate HoldsOffered<J>(init: State<J>, schedule: seq<Label<J>>) {
    var s := Run(init, schedule);
    forall c :: 0 <= c < |s.clients| && s.clients[c].Holding? ==> Offered(init, schedule, c) == Some(s.clients[c].fn)
  }

  lemma {:induction false} HoldingIsOffered<J>(init: State<J>, schedule: seq<Label<J>>)
    requires Init(init)
    ensures HoldsOffered(init, schedule) && Run(init, schedule).cfg == init.cfg
    decreases |schedule|
  {
    if schedule != [] {
      var before, l := schedule[..|schedule| - 1], schedule[|schedule| - 1];
      HoldingIsOffered(init, before);
      var s, s' := Run(init, before), Run(init, schedule);
      forall c | 0 <= c < |s'.clients| && s'.clients[c].Holding?
        ensures Offered(init, schedule, c) == Some(s'.clients[c].fn)
      {
        HeldBefore(s, l, c);
      }
    }
  }

  /** A client comes to hold a job only by offering it. */
  lemma HeldBefore<J>(s: State<J>, l: Label<J>, c: nat)
    requires c < |Next(s, l).clients| && Next(s, l).clients[c].Holding?
    ensures c < |s.clients|
    ensures if l.Call? && l.c == c && CanStep(s, l) then Next(s, l).clients[c].fn == l.fn
            else s.clients[c] == Next(s, l).clients[c]
  {
  }

  /** Nothing else is ever queued, and nothing that was accepted is exchanged. */
  lemma {:induction false} AcceptedIsOffered<J>(init: State<J>, schedule: seq<Label<J>>)
    requires Init(init)
    ensures Run(init, schedule).accepted == AcceptedJobs(init, schedule)
    decreases |schedule|
  {
    if schedule != [] {
      var before, l := schedule[..|schedule| - 1], schedule[|schedule| - 1];
      AcceptedIsOffered(init, before);
      HoldingIsOffered(init, before);
      AcceptedNext(Run(init, before), l);
    }
  }

  lemma AcceptedNext<J>(s: State<J>, l: Label<J>)
    ensures Next(s, l).accepted == s.accepted +
      if l.ClientStep? && CanStep(s, l) && s.clients[l.c].Holding? && Room(s.cfg.maxQueued, |s.jobs|)
      then [s.clients[l.c].fn] else []
  {
  }

  /** The jobs that have ended: the ticket of each scheduled step with which a worker
      finishes the job that it runs, in order. */
  function EndedTickets<J>(init: State<J>, schedule: seq<Label<J>>): seq<nat>
    decreases |schedule|
  {
    if schedule == [] then [] else
    var before, l := schedule[..|schedule| - 1], schedule[|schedule| - 1];
    var workers := Run(init, before).workers;
    EndedTickets(init, before) +
      if l.WorkerStep? && l.i < |workers| && workers[l.i].Running? then [workers[l.i].ticket] else []
  }

  lemma {:induction false} FinishedIsEnded<J>(init: State<J>, schedule: seq<Label<J>>)
    requires Init(init)
    ensures Run(init, schedule).finished == EndedTickets(init, schedule)
    decreases |schedule|
  {
    if schedule != [] {
      FinishedIsEnded(init, schedule[..|schedule| - 1]);
    }
  }

  // ----- what every run keeps

  /** In every state of every run: the accepted jobs are those that were offered while
      there was room, in order; the jobs still queued are the accepted jobs from number
      `taken` on, so that jobs are taken first in, first out; each taken job is with one
      worker, which runs that very job, or has ended, once; no other job is with a
      worker or has ended; and a positive limit is kept. */
  lemma FifoExactlyOnce<J>(init: State<J>, schedule: seq<Label<J>>)
    requires Init(init)
    ensures var s := Run(init, schedule);
      && s.accepted == AcceptedJobs(init, schedule) && s.finished == EndedTickets(init, schedule)
      && s.taken <= |s.accepted| && s.jobs == s.accepted[s.taken..]
      && (s.cfg.maxQueued > 0 ==> |s.jobs| <= s.cfg.maxQueued)
      && (forall i :: 0 <= i < |s.workers| && s.workers[i].Running? ==>
           s.workers[i].ticket < s.taken && s.accepted[s.workers[i].ticket] == s.workers[i].fn)
      && (forall ticket: nat :: RunningCount(s.workers, ticket) + multiset(s.finished)[ticket]
                                == if ticket < s.taken then 1 else 0)
  {
    InitInv(init);
    RunInv(init, schedule);
    AcceptedIsOffered(init, schedule);
    FinishedIsEnded(init, schedule);
  }

  /** With jobs queued, a notification is pending or some worker is neither blocked
      nor gone, unless a job was queued when all workers were gone. */
  lemma NoLostWakeup<J>(init: State<J>, schedule: seq<Label<J>>)
    requires Init(init)
    ensures var s := Run(init, schedule);
      s.jobs != [] && !s.orphaned ==> WakeupComing(s)
  {
    InitInv(init);
    RunInv(init, schedule);
  }

  /** When shutdown returns, every worker is gone; and every accepted job has ended,
      exactly once, if and only if no job was queued after the workers had gone. */
  lemma ShutdownDrains<J>(init: State<J>, schedule: seq<Label<J>>)
    requires Init(init) && Run(init, schedule).stopper.Returned?
    ensures var s := Run(init, schedule);
      && AllDone(s.workers)
      && ((forall ticket: nat :: multiset(s.finished)[ticket] == if ticket < |s.accepted| then 1 else 0)
          <==> !s.orphaned)
      && (s.jobs == [] <==> !s.orphaned)
  {
    InitInv(init);
    RunInv(init, schedule);
    var s := Run(init, schedule);
    forall ticket: nat ensures RunningCount(s.workers, ticket) == 0 {
      RunningZero(s.workers, ticket);
    }
    assert forall ticket: nat :: multiset(s.finished)[ticket] == if ticket < s.taken then 1 else 0;
    if forall ticket: nat :: multiset(s.finished)[ticket] == if ticket < |s.accepted| then 1 else 0 {
      assert s.taken < |s.accepted| ==> multiset(s.finished)[s.taken] == 1;
    }
  }

  /** The step by which an enqueue puts its job in the queue. */
  predicate Accepts<J>(s: State<J>, l: Label<J>) {
    CanStep(s, l) && l.ClientStep? && s.clients[l.c].Holding? && !Full(s)
  }

  /** No job is accepted once shutdown has been called. */
  ghost predicate NoneAfterShutdown<J>(init: State<J>, schedule: seq<Label<J>>) {
    forall k :: 0 <= k < |schedule| && Accepts(Run(init, schedule[..k]), schedule[k]) ==>
      Run(init, schedule[..k]).stopper.NotYet?
  }

  lemma NoneAfterShutdownInit<J>(init: State<J>, schedule: seq<Label<J>>)
    requires schedule != [] && NoneAfterShutdown(init, schedule)
    ensures NoneAfterShutdown(init, schedule[..|schedule| - 1])
  {
    var first := schedule[..|schedule| - 1];
    forall k | 0 <= k < |first| && Accepts(Run(init, first[..k]), first[k])
      ensures Run(init, first[..k]).stopper.NotYet?
    {
      assert first[..k] == schedule[..k];
    }
  }

  lemma {:induction false} RunWorkers<J>(s: State<J>, schedule: seq<Label<J>>)
    ensures |Run(s, schedule).workers| == |s.workers|
    decreases |schedule|
  {
    if schedule != [] {
      RunWorkers(s, schedule[..|schedule| - 1]);
    }
  }

  /** Only a job that is accepted when all workers have left is orphaned; workers
      leave only when shutdown is set. */
  lemma AcceptedInTime<J>(s: State<J>, l: Label<J>)
    requires Inv(s) && |s.workers| >= 1 && !s.orphaned
    requires Accepts(s, l) ==> s.stopper.NotYet?
    ensures !Next(s, l).orphaned
  {
    assert s.stopper.NotYet? ==> !s.workers[0].Done?;
  }

  lemma {:induction false} NoOrphans<J>(init: State<J>, schedule: seq<Label<J>>)
    requires Init(init) && |init.workers| >= 1 && NoneAfterShutdown(init, schedule)
    ensures !Run(init, schedule).orphaned
    decreases |schedule|
  {
    if schedule != [] {
      var first := schedule[..|schedule| - 1];
      NoneAfterShutdownInit(init, schedule);
      NoOrphans(init, first);
      InitInv(init);
      RunInv(init, first);
      RunWorkers(init, first);
      AcceptedInTime(Run(init, first), schedule[|schedule| - 1]);
    }
  }

  /** As callers use it: with at least one worker, and no job accepted after shutdown
      was called, every accepted job has ended, exactly once, when shutdown returns. */
  lemma ShutdownFinishes<J>(init: State<J>, schedule: seq<Label<J>>)
    requires Init(init) && |init.workers| >= 1 && NoneAfterShutdown(init, schedule)
    requires Run(init, schedule).stopper.Returned?
    ensures var s := Run(init, schedule);
      && AllDone(s.workers) && s.jobs == []
      && forall ticket: nat :: multiset(s.finished)[ticket] == if ticket < |s.accepted| then 1 else 0
  {
    NoOrphans(init, schedule);
    ShutdownDrains(init, schedule);
  }

  /** An enqueue that comes when every worker is gone is accepted all the same. */
  lemma LateEnqueue<J>(s: State<J>, c: nat, fn: J)
    requires AllDone(s.workers) && s.mutex.NoOne?
    requires c < |s.clients| && s.clients[c].Idle? && !Full(s)
    ensures var s' := Next(Next(s, Call(c, fn)), ClientStep(c, 0));
      && s'.accepted == s.accepted + [fn] && s'.jobs == s.jobs + [fn]
      && s'.orphaned && AllDone(s'.workers)
  {
  }

  /** A job queued when all workers are gone is accepted, and never taken: the
      queue keeps it for good. */
  lemma {:induction false} OrphanStays<J>(s: State<J>, schedule: seq<Label<J>>)
    requires AllDone(s.workers) && s.jobs != []
    ensures var s' := Run(s, schedule);
      AllDone(s'.workers) && s'.taken == s.taken && s.jobs <= s'.jobs
    decreases |schedule|
  {
    if schedule != [] {
      OrphanStays(s, schedule[..|schedule| - 1]);
    }
  }

  // ----- progress

  /** Nobody is inside a critical section. */
  ghost predicate NobodyInside<J>(s: State<J>) {
    && (forall i :: 0 <= i < |s.workers| ==> !s.workers[i].Check?)
    && (forall c :: 0 <= c < |s.clients| ==> !s.clients[c].Holding?)
    && !s.stopper.Locked?
  }

  lemma MutexFree<J>(s: State<J>)
    requires MutexOk(s)
    ensures s.mutex.NoOne? <==> NobodyInside(s)
  {
  }

  /** Whom a thread waits for, in every state of every run. To lock, a worker, a caller of
      enqueue and the caller of shutdown wait for whoever is inside a critical section and
      for nobody else; a blocked worker waits for a notification; and shutdown waits for
      the worker that it joins. */
  lemma PoolWaits<J>(init: State<J>, schedule: seq<Label<J>>, i: nat, fn: J)
    requires Init(init)
    ensures var s := Run(init, schedule);
      && (i < |s.workers| ==> (CanStep(s, WorkerStep(i)) <==>
           match s.workers[i]
           case Top => NobodyInside(s)
           case Woken => NobodyInside(s)
           case Waiting => false
           case Done => false
           case _ => true))
      && (i < |s.clients| && s.clients[i].Idle? ==> (CanStep(s, Call(i, fn)) <==> NobodyInside(s)))
      && (i < |s.clients| && !s.clients[i].Idle? ==> exists waiter :: CanStep(s, ClientStep(i, waiter)))
      && (CanStep(s, StopperStep) <==>
           match s.stopper
           case NotYet => NobodyInside(s)
           case Joining(k) => k < |s.workers| ==> s.workers[k].Done?
           case Returned => false
           case _ => true)
  {
    InitInv(init);
    RunInv(init, schedule);
    var s := Run(init, schedule);
    MutexFree(s);
    if i < |s.clients| && !s.clients[i].Idle? {
      var waiter: nat := if w :| 0 <= w < |s.workers| && s.workers[w].Waiting? then w else 0;
      assert CanStep(s, ClientStep(i, waiter));
    }
  }

  /** The steps that need no new caller: no fresh enqueue or shutdown call and no
      spurious wakeup. */
  predicate Internal<J>(s: State<J>, l: Label<J>) {
    l.WorkerStep? || l.ClientStep? || (l.StopperStep? && !s.stopper.NotYet?)
  }

  function WorkerRank<J>(w: Worker<J>): nat {
    match w
    case Top => 3
    case Check => 2
    case Waiting => 0
    case Woken => 3
    case Running(_, _) => 4
    case Done => 0
  }

  function ClientRank<J>(c: Client<J>): nat {
    match c
    case Idle => 0
    case Holding(_) => 9
    case Notifying => 4
  }

  function StopperRank(stopper: Stopper, workers: nat): int {
    match stopper
    case NotYet => 0
    case Locked => 4 * workers + 3
    case Announced => 4 * workers + 2
    case Joining(k) => if k <= workers then workers - k + 1 else 1
    case Returned => 0
  }

  /** A bound on the number of internal steps still to come. */
  ghost function Work<J>(s: State<J>): int {
    4 * |s.jobs| + Sum(s.workers, WorkerRank) + Sum(s.clients, ClientRank) + StopperRank(s.stopper, |s.workers|)
  }

  lemma {:induction false} NotifyAllRank<J>(workers: seq<Worker<J>>)
    ensures Sum(NotifyAll(workers), WorkerRank) <= Sum(workers, WorkerRank) + 3 * |workers|
  {
    if workers != [] {
      assert NotifyAll(workers)[1..] == NotifyAll(workers[1..]);
      NotifyAllRank(workers[1..]);
    }
  }

  lemma NotifyOneRank<J>(workers: seq<Worker<J>>, waiter: nat)
    ensures Sum(NotifyOne(workers, waiter), WorkerRank) <= Sum(workers, WorkerRank) + 3
  {
    if waiter < |workers| {
      SumUpdate(workers, waiter, Woken, WorkerRank);
    }
  }

  lemma WorkerWorks<J>(s: State<J>, i: nat)
    requires CanStep(s, WorkerStep(i))
    ensures Work(WorkerNext(s, i)) < Work(s)
  {
    SumUpdate(s.workers, i, WorkerNext(s, i).workers[i], WorkerRank);
  }

  lemma ClientWorks<J>(s: State<J>, c: nat, waiter: nat)
    requires CanStep(s, ClientStep(c, waiter))
    ensures Work(ClientNext(s, c, waiter)) < Work(s)
  {
    var client := ClientNext(s, c, waiter).clients[c];
    SumUpdate(s.clients, c, client, ClientRank);
    NotifyOneRank(s.workers, waiter);
    ClientDrops(s, c, waiter, client);
  }

  /** What the client loses pays for the job it may add and the worker it may wake. */
  lemma ClientDrops<J>(s: State<J>, c: nat, waiter: nat, client: Client<J>)
    requires CanStep(s, ClientStep(c, waiter))
    requires client == ClientNext(s, c, waiter).clients[c]
    ensures var s' := ClientNext(s, c, waiter);
      && s'.clients == s.clients[c := client]
      && (s'.stopper, |s'.workers|) == (s.stopper, |s.workers|)
      && (s'.workers == s.workers || s'.workers == NotifyOne(s.workers, waiter))
      && 4 * |s'.jobs| + ClientRank(client) + (if s'.workers == s.workers then 0 else 3)
           < 4 * |s.jobs| + ClientRank(s.clients[c])
  {
  }

  lemma StopperWorks<J>(s: State<J>)
    requires CanStep(s, StopperStep) && !s.stopper.NotYet?
    ensures Work(StopperNext(s)) < Work(s)
  {
    NotifyAllRank(s.workers);
  }

  /** Every internal step that can be taken brings the pool closer to rest. */
  lemma InternalWorks<J>(s: State<J>, l: Label<J>)
    requires CanStep(s, l) && Internal(s, l)
    ensures Work(Next(s, l)) < Work(s)
  {
    match l {
      case WorkerStep(i) => WorkerWorks(s, i);
      case ClientStep(c, waiter) => ClientWorks(s, c, waiter);
      case StopperStep => StopperWorks(s);
    }
  }

  ghost predicate InternalRun<J>(s: State<J>, schedule: seq<Label<J>>) {
    forall k :: 0 <= k < |schedule| ==>
      CanStep(Run(s, schedule[..k]), schedule[k]) && Internal(Run(s, schedule[..k]), schedule[k])
  }

  /** However the scheduler chooses, fewer than Work(s) + 1 internal steps follow
      one another. */
  lemma {:induction false} InternalRunEnds<J>(s: State<J>, schedule: seq<Label<J>>)
    requires InternalRun(s, schedule)
    ensures Work(Run(s, schedule)) <= Work(s) - |schedule|
    decreases |schedule|
  {
    if schedule != [] {
      InternalInit(s, schedule);
      InternalRunEnds(s, schedule[..|schedule| - 1]);
      LastInternal(s, schedule);
    }
  }

  lemma InternalInit<J>(s: State<J>, schedule: seq<Label<J>>)
    requires schedule != [] && InternalRun(s, schedule)
    ensures InternalRun(s, schedule[..|schedule| - 1])
  {
    var rest := schedule[..|schedule| - 1];
    forall k | 0 <= k < |rest| ensures CanStep(Run(s, rest[..k]), rest[k]) && Internal(Run(s, rest[..k]), rest[k]) {
      assert rest[..k] == schedule[..k];
    }
  }

  lemma LastInternal<J>(s: State<J>, schedule: seq<Label<J>>)
    requires schedule != [] && InternalRun(s, schedule)
    ensures Work(Run(s, schedule)) < Work(Run(s, schedule[..|schedule| - 1]))
  {
    var k := |schedule| - 1;
    assert CanStep(Run(s, schedule[..k]), schedule[k]) && Internal(Run(s, schedule[..k]), schedule[k]);
    InternalWorks(Run(s, schedule[..k]), schedule[k]);
    RunLast(s, schedule);
  }

  lemma RunLast<J>(s: State<J>, schedule: seq<Label<J>>)
    requires schedule != []
    ensures Run(s, schedule) == Next(Run(s, schedule[..|schedule| - 1]), schedule[|schedule| - 1])
  {
  }

  /** No internal step can be taken. */
  ghost predicate AtRest<J>(s: State<J>) {
    && (forall i :: !CanStep(s, WorkerStep(i)))
    && (forall c, waiter :: !CanStep(s, ClientStep(c, waiter)))
    && (s.stopper.NotYet? || !CanStep(s, StopperStep))
  }

  lemma RestingThreads<J>(s: State<J>)
    requires Inv(s) && AtRest(s)
    ensures s.mutex.NoOne?
    ensures forall c :: 0 <= c < |s.clients| ==> s.clients[c].Idle?
    ensures forall i :: 0 <= i < |s.workers| ==> s.workers[i].Waiting? || s.workers[i].Done?
    ensures s.stopper.NotYet? || s.stopper.Returned?
  {
    forall c | 0 <= c < |s.clients| ensures s.clients[c].Idle? {
      if SomeWaiting(s.workers) {
        var i :| 0 <= i < |s.workers| && s.workers[i].Waiting?;
        assert !CanStep(s, ClientStep(c, i));
      } else {
        assert !CanStep(s, ClientStep(c, 0));
      }
    }
    assert s.mutex.W? ==> !CanStep(s, WorkerStep(s.mutex.i));
    forall i | 0 <= i < |s.workers| ensures s.workers[i].Waiting? || s.workers[i].Done? {
      assert !CanStep(s, WorkerStep(i));
    }
  }

  /** At rest, nothing that was asked of the pool is left undone: every accepted job
      has ended unless it came too late, and a shutdown that was called has returned. */
  lemma RestMeansDone<J>(init: State<J>, schedule: seq<Label<J>>)
    requires Init(init) && AtRest(Run(init, schedule))
    ensures var s := Run(init, schedule);
      && (s.stopper.NotYet? || s.stopper.Returned?)
      && (s.jobs == [] <==> !s.orphaned)
      && (forall ticket: nat :: multiset(s.finished)[ticket] == if ticket < s.taken then 1 else 0)
  {
    InitInv(init);
    RunInv(init, schedule);
    var s := Run(init, schedule);
    RestingThreads(s);
    forall ticket: nat
      ensures multiset(s.finished)[ticket] == if ticket < s.taken then 1 else 0
    {
      RunningZero(s.workers, ticket);
      assert RunningCount(s.workers, ticket) + multiset(s.finished)[ticket] == if ticket < s.taken then 1 else 0;
    }
  }

  // ----- the object

  /** The pool object.  Each method is one atomic step of the calling thread. */
  class Pool<J> {
    const cfg: Config
    var mutex: Holder
    var jobs: seq<J>
    var shutdown: bool
    var workers: seq<Worker<J>>
    var clients: seq<Client<J>>
    var stopper: Stopper
    var taken: nat
    ghost var accepted: seq<J>
    ghost var finished: seq<nat>
    ghost var orphaned: bool

    ghost function Abs(): State<J>
      reads this
    {
      State(cfg, mutex, jobs, shutdown, workers, clients, stopper, accepted, taken, finished, orphaned)
    }

    constructor (cfg: Config, nWorkers: nat, nClients: nat)
      ensures Init(Abs()) && this.cfg == cfg && |workers| == nWorkers && |clients| == nClients
    {
      this.cfg := cfg;
      mutex, jobs, shutdown, stopper := NoOne, [], false, NotYet;
      workers := seq(nWorkers, _ => Top);
      clients := seq(nClients, _ => Idle);
      accepted, taken, finished, orphaned := [], 0, [], false;
    }

    /** The worker loop. */
    method WorkerLoop(i: nat)
      requires CanStep(Abs(), WorkerStep(i))
      modifies this
      ensures Abs() == Next(old(Abs()), WorkerStep(i))
    {
      if workers[i].Check? {
        if jobs != [] {
          var fn := jobs[0];
          jobs := jobs[1..];
          workers := workers[i := Running(taken, fn)];
          taken := taken + 1;
        } else if shutdown {
          workers := workers[i := Done];
        } else {
          workers := workers[i := Waiting];
        }
        mutex := NoOne;
      } else if workers[i].Running? {
        finished := finished + [workers[i].ticket];
        workers := workers[i := Top];
      } else {
        workers := workers[i := Check];
        mutex := W(i);
      }
    }

    /** A signal. */
    method Wake(waiter: nat)
      modifies this`workers
      ensures workers == NotifyOne(old(workers), waiter)
    {
      if waiter < |workers| && workers[waiter].Waiting? {
        workers := workers[waiter := Woken];
      }
    }

    /** enqueue (or Push) from the moment it holds the lock; the result is there
        when the call returns. */
    method Enqueue(c: nat, waiter: nat) returns (result: Option<bool>)
      requires CanStep(Abs(), ClientStep(c, waiter))
      modifies this
      ensures Abs() == Next(old(Abs()), ClientStep(c, waiter))
      ensures result.Some? <==> clients[c].Idle?
      ensures result == Some(false) <==> old(clients[c].Holding? && !Room(cfg.maxQueued, |jobs|))
      ensures old(clients[c].Holding?) && result != Some(false) ==>
        jobs == old(jobs) + [old(clients[c].fn)] && accepted == old(accepted) + [old(clients[c].fn)]
      ensures old(clients[c].Notifying?) || result == Some(false) ==> jobs == old(jobs) && accepted == old(accepted)
    {
      if clients[c].Notifying? {
        Wake(waiter);
        clients := clients[c := Idle];
        return Some(true);
      }
      mutex := NoOne;
      if cfg.maxQueued > 0 && |jobs| >= cfg.maxQueued {
        clients := clients[c := Idle];
        return Some(false);
      }
      jobs := jobs + [clients[c].fn];
      accepted := accepted + [clients[c].fn];
      orphaned := orphaned || AllDone(workers);
      if cfg.signalLocked {
        Wake(waiter);
        clients := clients[c := Idle];
        return Some(true);
      }
      clients := clients[c := Notifying];
      return None;
    }

    method Shutdown()
      requires CanStep(Abs(), StopperStep)
      modifies this
      ensures Abs() == Next(old(Abs()), StopperStep)
    {
      match stopper {
        case NotYet => stopper, mutex := Locked, S;
        case Locked => stopper, shutdown, mutex := Announced, true, NoOne;
        case Announced => stopper, workers := Joining(0), NotifyAll(workers);
        case Joining(k) => stopper := if k < |workers| then Joining(k + 1) else Returned;
        case Returned =>
      }
    }
  }
}
