/**
 The bounded ring guarded by two counting semaphores and two mutexes
 (thread/semaphore/sem.hpp).  Any number of producer threads loop over push
 and any number of consumer threads loop over pop.  A step of a thread is one
 semaphore operation, one mutex operation, one slot access or one cursor
 update, so a producer and a consumer can both be inside their critical
 sections.
 */
module RingQueue {
  import opened Prelude

  /** How far a thread has come in push (or, with the roles exchanged, in pop). */
  datatype Pc =
    | Outside   // next: P on the semaphore the thread waits for
    | Acquired  // next: lock
    | Locked    // next: write (read) the slot
    | Moved     // next: cursor++
    | Advanced  // next: cursor %= cap
    | Wrapped   // next: unlock
    | Unlocked  // next: V on the other semaphore

  function Following(pc: Pc): Pc {
    match pc
    case Outside => Acquired
    case Acquired => Locked
    case Locked => Moved
    case Moved => Advanced
    case Advanced => Wrapped
    case Wrapped => Unlocked
    case Unlocked => Outside
  }

  datatype State<T> = State(
    cap: nat,
    slots: seq<T>,
    comSem: nat,
    proSem: nat,
    spacePos: nat,
    dataPos: nat,
    proMutex: Option<nat>,
    comMutex: Option<nat>,
    producers: seq<Pc>,
    consumers: seq<Pc>,
    produced: seq<T>,  // everything written so far, in the order of the writes
    consumed: seq<T>)  // everything read so far, in the order of the reads

  /** One scheduling decision: thread t of one kind takes its next step. */
  datatype Label<T> = Push(t: nat, data: T) | Pop(t: nat)

  // ----- the steps

  function CanPush<T>(s: State<T>, t: nat): bool {
    t < |s.producers| &&
    match s.producers[t]
    case Outside => s.proSem > 0
    case Acquired => s.proMutex.None?
    case _ => true
  }

  function CanPop<T>(s: State<T>, t: nat): bool {
    t < |s.consumers| &&
    match s.consumers[t]
    case Outside => s.comSem > 0
    case Acquired => s.comMutex.None?
    case _ => true
  }

  predicate CanStep<T>(s: State<T>, l: Label<T>) {
    match l
    case Push(t, _) => CanPush(s, t)
    case Pop(t) => CanPop(s, t)
  }

  predicate Faulty<T>(pc: Pc, cursor: nat, s: State<T>) {
    (pc.Locked? && cursor >= |s.slots|) || (pc.Advanced? && s.cap == 0)
  }

  /** The operations of the source that are undefined behaviour: a slot access
      outside the vector and a remainder by zero. */
  predicate Faults<T>(s: State<T>, l: Label<T>) {
    match l
    case Push(t, _) => t < |s.producers| && Faulty(s.producers[t], s.spacePos, s)
    case Pop(t) => t < |s.consumers| && Faulty(s.consumers[t], s.dataPos, s)
  }

  function PushStep<T>(s: State<T>, t: nat, data: T): State<T>
    requires CanPush(s, t) && !Faults(s, Push(t, data))
  {
    var s' := s.(producers := s.producers[t := Following(s.producers[t])]);
    match s.producers[t]
    case Outside => s'.(proSem := s.proSem - 1)
    case Acquired => s'.(proMutex := Some(t))
    case Locked => s'.(slots := s.slots[s.spacePos := data], produced := s.produced + [data])
    case Moved => s'.(spacePos := s.spacePos + 1)
    case Advanced => s'.(spacePos := s.spacePos % s.cap)
    case Wrapped => s'.(proMutex := None)
    case Unlocked => s'.(comSem := s.comSem + 1)
  }

  function PopStep<T>(s: State<T>, t: nat): State<T>
    requires CanPop(s, t) && !Faults(s, Pop(t))
  {
    var s' := s.(consumers := s.consumers[t := Following(s.consumers[t])]);
    match s.consumers[t]
    case Outside => s'.(comSem := s.comSem - 1)
    case Acquired => s'.(comMutex := Some(t))
    case Locked => s'.(consumed := s.consumed + [s.slots[s.dataPos]])
    case Moved => s'.(dataPos := s.dataPos + 1)
    case Advanced => s'.(dataPos := s.dataPos % s.cap)
    case Wrapped => s'.(comMutex := None)
    case Unlocked => s'.(proSem := s.proSem + 1)
  }

  /** A step that blocks (or would fault) leaves the state as it is. */
  function Next<T>(s: State<T>, l: Label<T>): State<T> {
    if !CanStep(s, l) || Faults(s, l) then s else
    match l
    case Push(t, data) => PushStep(s, t, data)
    case Pop(t) => PopStep(s, t)
  }

  function Run<T>(s: State<T>, schedule: seq<Label<T>>): State<T>
    decreases |schedule|
  {
    if schedule == [] then s else
    Next(Run(s, schedule[..|schedule| - 1]), schedule[|schedule| - 1])
  }

  ghost predicate Init<T>(s: State<T>) {
    && |s.slots| == s.cap
    && s.comSem == 0 && s.proSem == s.cap
    && s.spacePos == 0 && s.dataPos == 0
    && s.proMutex.None? && s.comMutex.None?
    && (forall t :: 0 <= t < |s.producers| ==> s.producers[t].Outside?)
    && (forall t :: 0 <= t < |s.consumers| ==> s.consumers[t].Outside?)
    && s.produced == [] && s.consumed == []
  }

  // ----- the invariant

  /** 1 for a thread that passed P and has not touched its slot yet. */
  function Before(pc: Pc): nat { if pc.Acquired? || pc.Locked? then 1 else 0 }

  /** 1 for a thread that touched its slot and has not done V yet. */
  function After(pc: Pc): nat {
    if pc.Moved? || pc.Advanced? || pc.Wrapped? || pc.Unlocked? then 1 else 0
  }

  predicate Critical(pc: Pc) { pc.Locked? || pc.Moved? || pc.Advanced? || pc.Wrapped? }

  /** The mutex is held exactly by the thread in its critical section. */
  ghost predicate MutexOk(mutex: Option<nat>, threads: seq<Pc>) {
    && (mutex.Some? ==> mutex.value < |threads| && Critical(threads[mutex.value]))
    && (forall t :: 0 <= t < |threads| && Critical(threads[t]) ==> mutex == Some(t))
  }

  /** i modulo the capacity, by repeated subtraction. */
  function Slot(i: nat, cap: nat): (r: nat)
    requires cap > 0
    ensures r < cap
  {
    if i < cap then i else Slot(i - cap, cap)
  }

  /** The cursor is the number of accesses so far modulo the capacity, but for
      the thread that is in the middle of moving it. */
  ghost predicate CursorOk(pos: nat, count: nat, cap: nat, mutex: Option<nat>, threads: seq<Pc>)
    requires MutexOk(mutex, threads)
  {
    if cap == 0 then pos == 0
    else if mutex.None? || threads[mutex.value].Locked? || threads[mutex.value].Wrapped? then pos == Slot(count, cap)
    else count > 0 && pos == Slot(count - 1, cap) + (if threads[mutex.value].Advanced? then 1 else 0)
  }

  /** Semaphore units, threads on their way and items in the ring add up. */
  ghost predicate CountsOk<T>(s: State<T>) {
    && s.comSem + Sum(s.producers, After) + Sum(s.consumers, Before) == |s.produced| - |s.consumed|
    && s.proSem + Sum(s.producers, Before) + Sum(s.consumers, After) == s.cap - (|s.produced| - |s.consumed|)
  }

  ghost predicate MutexesOk<T>(s: State<T>) {
    MutexOk(s.proMutex, s.producers) && MutexOk(s.comMutex, s.consumers)
  }

  ghost predicate CursorsOk<T>(s: State<T>)
    requires MutexesOk(s)
  {
    && CursorOk(s.spacePos, |s.produced|, s.cap, s.proMutex, s.producers)
    && CursorOk(s.dataPos, |s.consumed|, s.cap, s.comMutex, s.consumers)
  }

  /** Every item not yet consumed is still in its slot. */
  ghost predicate ItemsOk<T>(s: State<T>) {
    && |s.slots| == s.cap
    && s.consumed <= s.produced
    && (forall i :: |s.consumed| <= i < |s.produced| ==> s.cap > 0 && s.slots[Slot(i, s.cap)] == s.produced[i])
  }

  ghost predicate Inv<T>(s: State<T>) {
    ItemsOk(s) && CountsOk(s) && MutexesOk(s) && CursorsOk(s)
  }

  lemma {:induction false} SlotIsMod(i: nat, cap: nat)
    requires cap > 0
    ensures Slot(i, cap) == i % cap
  {
    if i < cap {
      DivModUnique(i, cap, 0, i);
    } else {
      SlotIsMod(i - cap, cap);
      var q := (i - cap) / cap;
      assert i == cap * (q + 1) + Slot(i, cap) by {
        assert i - cap == cap * q + (i - cap) % cap;
      }
      DivModUnique(i, cap, q + 1, Slot(i, cap));
    }
  }

  /** Indices closer together than the capacity fall into different slots. */
  lemma {:induction false} SlotWindow(i: nat, j: nat, cap: nat)
    requires i < j < i + cap
    ensures Slot(i, cap) != Slot(j, cap)
  {
    if i >= cap {
      SlotWindow(i - cap, j - cap, cap);
    } else if j >= cap {
      assert Slot(j, cap) == Slot(j - cap, cap) == j - cap;
    }
  }

  lemma {:induction false} SlotNext(n: nat, cap: nat)
    requires cap > 0
    ensures Slot(n + 1, cap) == if Slot(n, cap) + 1 == cap then 0 else Slot(n, cap) + 1
  {
    if n >= cap {
      SlotNext(n - cap, cap);
    }
  }

  lemma Wrap(pos: nat, cap: nat)
    requires pos <= cap && cap > 0
    ensures pos % cap == if pos == cap then 0 else pos
  {
  }

  lemma InitInv<T>(s: State<T>)
    requires Init(s)
    ensures Inv(s)
  {
    SumZero(s.producers, Before);
    SumZero(s.producers, After);
    SumZero(s.consumers, Before);
    SumZero(s.consumers, After);
  }

  /** A ring without slots lets no thread past its first P. */
  lemma NonZeroCap<T>(s: State<T>, l: Label<T>)
    requires Inv(s) && CanStep(s, l)
    ensures s.cap > 0
  {
    match l {
      case Push(t, _) =>
        SumAtLeast(s.producers, t, Before);
        SumAtLeast(s.producers, t, After);
      case Pop(t) =>
        SumAtLeast(s.consumers, t, Before);
        SumAtLeast(s.consumers, t, After);
    }
  }

  /** In a state of the invariant no thread is about to fault. */
  lemma NoFault<T>(s: State<T>, l: Label<T>)
    requires Inv(s)
    ensures !Faults(s, l)
  {
    if Faults(s, l) {
      NonZeroCap(s, l);
    }
  }

  /** What a thread counts for before and after one step. */
  lemma FollowingCounts(pc: Pc)
    ensures Before(Following(pc)) == Before(pc) + if pc.Outside? then 1 else if pc.Locked? then -1 else 0
    ensures After(Following(pc)) == After(pc) + if pc.Locked? then 1 else if pc.Unlocked? then -1 else 0
  {
  }

  lemma PushKeepsCounts<T>(s: State<T>, t: nat, data: T)
    requires CountsOk(s) && CanPush(s, t) && !Faults(s, Push(t, data))
    ensures CountsOk(PushStep(s, t, data))
  {
    var pc := Following(s.producers[t]);
    SumUpdate(s.producers, t, pc, Before);
    SumUpdate(s.producers, t, pc, After);
    assert PushStep(s, t, data).producers == s.producers[t := pc];
    FollowingCounts(s.producers[t]);
  }

  lemma PushKeepsItems<T>(s: State<T>, t: nat, data: T)
    requires Inv(s) && CanPush(s, t) && !Faults(s, Push(t, data))
    ensures ItemsOk(PushStep(s, t, data))
  {
    if s.producers[t].Locked? {
      var n := |s.produced|;
      SumAtLeast(s.producers, t, Before);
      assert s.spacePos == Slot(n, s.cap);
      forall i | |s.consumed| <= i < n
        ensures Slot(i, s.cap) != Slot(n, s.cap)
      {
        SlotWindow(i, n, s.cap);
      }
    }
  }

  /** The effect of one step on one kind of thread, its mutex and its cursor;
      count and count' are the numbers of accesses before and after. */
  lemma StepKeepsCursor(pos: nat, count: nat, cap: nat, mutex: Option<nat>, threads: seq<Pc>, t: nat,
                        pos': nat, count': nat, mutex': Option<nat>)
    requires t < |threads| && MutexOk(mutex, threads) && CursorOk(pos, count, cap, mutex, threads) && cap > 0
    requires match threads[t]
      case Outside => (pos', count', mutex') == (pos, count, mutex)
      case Acquired => mutex == None && (pos', count', mutex') == (pos, count, Some(t))
      case Locked => (pos', count', mutex') == (pos, count + 1, mutex)
      case Moved => (pos', count', mutex') == (pos + 1, count, mutex)
      case Advanced => (pos', count', mutex') == (pos % cap, count, mutex)
      case Wrapped => (pos', count', mutex') == (pos, count, None)
      case Unlocked => (pos', count', mutex') == (pos, count, mutex)
    ensures MutexOk(mutex', threads[t := Following(threads[t])])
    ensures CursorOk(pos', count', cap, mutex', threads[t := Following(threads[t])])
  {
    if threads[t].Advanced? {
      SlotNext(count - 1, cap);
      Wrap(pos, cap);
    }
  }

  lemma PushKeepsInv<T>(s: State<T>, t: nat, data: T)
    requires Inv(s) && CanPush(s, t) && !Faults(s, Push(t, data))
    ensures Inv(PushStep(s, t, data))
  {
    var s' := PushStep(s, t, data);
    PushKeepsCounts(s, t, data);
    PushKeepsItems(s, t, data);
    NonZeroCap(s, Push(t, data));
    StepKeepsCursor(s.spacePos, |s.produced|, s.cap, s.proMutex, s.producers, t,
                    s'.spacePos, |s'.produced|, s'.proMutex);
  }

  lemma PopKeepsCounts<T>(s: State<T>, t: nat)
    requires CountsOk(s) && CanPop(s, t) && !Faults(s, Pop(t))
    ensures CountsOk(PopStep(s, t))
  {
    var pc := Following(s.consumers[t]);
    SumUpdate(s.consumers, t, pc, Before);
    SumUpdate(s.consumers, t, pc, After);
    assert PopStep(s, t).consumers == s.consumers[t := pc];
    FollowingCounts(s.consumers[t]);
  }

  lemma PopKeepsItems<T>(s: State<T>, t: nat)
    requires Inv(s) && CanPop(s, t) && !Faults(s, Pop(t))
    ensures ItemsOk(PopStep(s, t))
  {
    if s.consumers[t].Locked? {
      SumAtLeast(s.consumers, t, Before);
      assert s.dataPos == Slot(|s.consumed|, s.cap);
    }
  }

  lemma PopKeepsInv<T>(s: State<T>, t: nat)
    requires Inv(s) && CanPop(s, t) && !Faults(s, Pop(t))
    ensures Inv(PopStep(s, t))
  {
    var s' := PopStep(s, t);
    PopKeepsCounts(s, t);
    PopKeepsItems(s, t);
    NonZeroCap(s, Label.Pop(t));
    StepKeepsCursor(s.dataPos, |s.consumed|, s.cap, s.comMutex, s.consumers, t,
                    s'.dataPos, |s'.consumed|, s'.comMutex);
  }

  lemma {:induction false} RunInv<T>(s: State<T>, schedule: seq<Label<T>>)
    requires Inv(s)
    ensures Inv(Run(s, schedule))
    decreases |schedule|
  {
    if schedule != [] {
      RunInv(s, schedule[..|schedule| - 1]);
      var s1, l := Run(s, schedule[..|schedule| - 1]), schedule[|schedule| - 1];
      if CanStep(s1, l) && !Faults(s1, l) {
        match l
        case Push(t, data) => PushKeepsInv(s1, t, data);
        case Pop(t) => PopKeepsInv(s1, t);
      }
    }
  }

  // ----- what every run keeps

  /** What the producers have handed over: the data of each scheduled step with which a
      producer that holds the lock puts its item into the ring, in order. */
  function Pushed<T>(init: State<T>, schedule: seq<Label<T>>): seq<T>
    decreases |schedule|
  {
    if schedule == [] then [] else
    var before, l := schedule[..|schedule| - 1], schedule[|schedule| - 1];
    var producers := Run(init, before).producers;
    Pushed(init, before) + if l.Push? && l.t < |producers| && producers[l.t].Locked? then [l.data] else []
  }

  lemma {:induction false} ProducedIsPushed<T>(init: State<T>, schedule: seq<Label<T>>)
    requires Init(init)
    ensures Run(init, schedule).produced == Pushed(init, schedule)
    decreases |schedule|
  {
    if schedule != [] {
      var before, l := schedule[..|schedule| - 1], schedule[|schedule| - 1];
      ProducedIsPushed(init, before);
      InitInv(init);
      RunInv(init, before);
      NoFault(Run(init, before), l);
      ProducedNext(Run(init, before), l);
    }
  }

  lemma ProducedNext<T>(s: State<T>, l: Label<T>)
    requires !Faults(s, l)
    ensures Next(s, l).produced == s.produced +
      if l.Push? && l.t < |s.producers| && s.producers[l.t].Locked? then [l.data] else []
  {
  }

  /** In every state of every run, with any numbers of threads: what has been
      consumed is a prefix of what has been handed over, the items still to be
      consumed lie unharmed in their slots, semaphore units are conserved, and
      no thread reaches undefined behaviour. */
  lemma Safety<T>(init: State<T>, schedule: seq<Label<T>>)
    requires Init(init)
    ensures var s, pushed := Run(init, schedule), Pushed(init, schedule);
      && s.cap == init.cap && |s.slots| == s.cap
      && s.produced == pushed && s.consumed <= pushed && |pushed| <= |s.consumed| + s.cap
      && (forall i :: |s.consumed| <= i < |pushed| ==> s.cap > 0 && s.slots[i % s.cap] == pushed[i])
      && s.proSem + s.comSem + Sum(s.producers, Before) + Sum(s.producers, After)
         + Sum(s.consumers, Before) + Sum(s.consumers, After) == s.cap
      && (forall l :: !Faults(s, l))
  {
    InitInv(init);
    RunInv(init, schedule);
    RunCap(init, schedule);
    ProducedIsPushed(init, schedule);
    var s := Run(init, schedule);
    forall i | |s.consumed| <= i < |s.produced| ensures s.slots[i % s.cap] == s.produced[i] {
      SlotIsMod(i, s.cap);
    }
    forall l ensures !Faults(s, l) {
      NoFault(s, l);
    }
  }

  lemma {:induction false} RunCap<T>(s: State<T>, schedule: seq<Label<T>>)
    ensures Run(s, schedule).cap == s.cap
    ensures |Run(s, schedule).producers| == |s.producers| && |Run(s, schedule).consumers| == |s.consumers|
    decreases |schedule|
  {
    if schedule != [] {
      RunCap(s, schedule[..|schedule| - 1]);
    }
  }

  /** At most one producer and at most one consumer are in their critical
      sections, and when one of each is about to touch its slot the slots differ. */
  lemma Exclusion<T>(init: State<T>, schedule: seq<Label<T>>, p: nat, c: nat)
    requires Init(init)
    requires p < |Run(init, schedule).producers| && c < |Run(init, schedule).consumers|
    ensures var s := Run(init, schedule);
      && (forall q :: 0 <= q < |s.producers| && Critical(s.producers[p]) && Critical(s.producers[q]) ==> p == q)
      && (forall d :: 0 <= d < |s.consumers| && Critical(s.consumers[c]) && Critical(s.consumers[d]) ==> c == d)
      && (s.producers[p].Locked? && s.consumers[c].Locked? ==> s.spacePos != s.dataPos)
  {
    InitInv(init);
    RunInv(init, schedule);
    var s := Run(init, schedule);
    if s.producers[p].Locked? && s.consumers[c].Locked? {
      SumAtLeast(s.producers, p, Before);
      SumAtLeast(s.consumers, c, Before);
      SlotWindow(|s.consumed|, |s.produced|, s.cap);
    }
  }

  // ----- progress

  /** Whom a producer waits for: to enter, for room, counting the threads that are on
      their way to a slot or back from one; then for the other producers; and after that
      for nobody. */
  lemma PushWaits<T>(init: State<T>, schedule: seq<Label<T>>, t: nat, data: T)
    requires Init(init) && t < |Run(init, schedule).producers|
    ensures var s := Run(init, schedule); CanStep(s, Push(t, data)) <==>
      match s.producers[t]
      case Outside =>
        |Pushed(init, schedule)| - |s.consumed| + Sum(s.producers, Before) + Sum(s.consumers, After) < s.cap
      case Acquired => forall p :: 0 <= p < |s.producers| ==> !Critical(s.producers[p])
      case _ => true
  {
    InitInv(init);
    RunInv(init, schedule);
    ProducedIsPushed(init, schedule);
  }

  /** The same for a consumer, which waits for items. */
  lemma PopWaits<T>(init: State<T>, schedule: seq<Label<T>>, t: nat)
    requires Init(init) && t < |Run(init, schedule).consumers|
    ensures var s := Run(init, schedule); CanStep(s, Pop(t)) <==>
      match s.consumers[t]
      case Outside =>
        |Pushed(init, schedule)| - |s.consumed| > Sum(s.producers, After) + Sum(s.consumers, Before)
      case Acquired => forall c :: 0 <= c < |s.consumers| ==> !Critical(s.consumers[c])
      case _ => true
  {
    InitInv(init);
    RunInv(init, schedule);
    ProducedIsPushed(init, schedule);
  }

  /** A thread outside of and unwilling to enter any critical section is Outside. */
  lemma {:induction false} AllOutside(threads: seq<Pc>)
    requires forall t :: 0 <= t < |threads| ==> threads[t].Outside?
    ensures Sum(threads, Before) == 0 && Sum(threads, After) == 0
  {
    SumZero(threads, Before);
    SumZero(threads, After);
  }

  /** No reachable state is a deadlock: with room for one item, one producer and
      one consumer, some thread can take a step. */
  lemma NoDeadlock<T>(init: State<T>, schedule: seq<Label<T>>, x: T) returns (l: Label<T>)
    requires Init(init) && init.cap >= 1 && |init.producers| >= 1 && |init.consumers| >= 1
    ensures CanStep(Run(init, schedule), l) && !Faults(Run(init, schedule), l)
  {
    InitInv(init);
    RunInv(init, schedule);
    RunCap(init, schedule);
    var s := Run(init, schedule);
    if t :| 0 <= t < |s.producers| && !s.producers[t].Outside? {
      l := Push(if s.proMutex.Some? then s.proMutex.value else t, x);
    } else if t :| 0 <= t < |s.consumers| && !s.consumers[t].Outside? {
      l := Pop(if s.comMutex.Some? then s.comMutex.value else t);
    } else {
      AllOutside(s.producers);
      AllOutside(s.consumers);
      l := if s.proSem > 0 then Push(0, x) else Pop(0);
    }
    NoFault(s, l);
  }

  /** The number of its own steps a thread can take before it touches a slot again. */
  function StepsToSlot(pc: Pc): nat {
    match pc
    case Outside => 2
    case Acquired => 1
    case Locked => 0
    case Moved => 6
    case Advanced => 5
    case Wrapped => 4
    case Unlocked => 3
  }

  /** A bound on the number of steps, over all threads, before an item is consumed. */
  ghost function StepsToConsume<T>(s: State<T>): int {
    7 * (s.cap - (|s.produced| - |s.consumed|)) + Sum(s.producers, StepsToSlot) + Sum(s.consumers, StepsToSlot)
  }

  /** A thread that goes on to its next position comes one step closer to a slot,
      or was at one. */
  lemma ThreadCounts(threads: seq<Pc>, t: nat)
    requires t < |threads|
    ensures Sum(threads[t := Following(threads[t])], StepsToSlot)
         == Sum(threads, StepsToSlot) + (if threads[t].Locked? then 6 else -1)
  {
    SumUpdate(threads, t, Following(threads[t]), StepsToSlot);
  }

  lemma StepConsumesOrCounts<T>(s: State<T>, l: Label<T>)
    requires Inv(s) && CanStep(s, l)
    ensures var s' := Next(s, l);
      |s'.consumed| == |s.consumed| ==> StepsToConsume(s') == StepsToConsume(s) - 1
  {
    NoFault(s, l);
    match l {
      case Push(t, data) => PushCounts(s, t, data);
      case Pop(t) => PopCounts(s, t);
    }
  }

  lemma PushCounts<T>(s: State<T>, t: nat, data: T)
    requires CanStep(s, Push(t, data)) && !Faults(s, Push(t, data))
    ensures var s' := Next(s, Push(t, data));
      s'.consumed == s.consumed && StepsToConsume(s') == StepsToConsume(s) - 1
  {
    ThreadCounts(s.producers, t);
  }

  lemma PopCounts<T>(s: State<T>, t: nat)
    requires CanStep(s, Pop(t)) && !Faults(s, Pop(t))
    ensures var s' := Next(s, Pop(t));
      |s'.consumed| == |s.consumed| ==> StepsToConsume(s') == StepsToConsume(s) - 1
  {
    ThreadCounts(s.consumers, t);
  }

  /** Every step of the schedule is one that its thread can take. */
  ghost predicate Live<T>(s: State<T>, schedule: seq<Label<T>>) {
    forall i :: 0 <= i < |schedule| ==> CanStep(Run(s, schedule[..i]), schedule[i])
  }

  lemma {:induction false} LiveCounts<T>(s: State<T>, schedule: seq<Label<T>>)
    requires Inv(s) && Live(s, schedule)
    ensures |Run(s, schedule).consumed| >= |s.consumed|
    ensures |Run(s, schedule).consumed| == |s.consumed| ==>
      StepsToConsume(Run(s, schedule)) == StepsToConsume(s) - |schedule|
    decreases |schedule|
  {
    if schedule != [] {
      var k := |schedule| - 1;
      var rest := schedule[..k];
      forall i | 0 <= i < k ensures CanStep(Run(s, rest[..i]), rest[i]) {
        assert rest[..i] == schedule[..i];
        assert CanStep(Run(s, schedule[..i]), schedule[i]);
      }
      LiveCounts(s, rest);
      RunInv(s, rest);
      assert CanStep(Run(s, schedule[..k]), schedule[k]);
      StepConsumesOrCounts(Run(s, rest), schedule[k]);
    }
  }

  /** No livelock: from a reachable state, whichever threads the scheduler picks
      among those that can move, an item is consumed within StepsToConsume + 1 steps. */
  lemma ItemConsumed<T>(init: State<T>, schedule: seq<Label<T>>, more: seq<Label<T>>)
    requires Init(init)
    requires Live(Run(init, schedule), more) && |more| > StepsToConsume(Run(init, schedule))
    ensures |Run(Run(init, schedule), more).consumed| > |Run(init, schedule).consumed|
  {
    InitInv(init);
    RunInv(init, schedule);
    var s := Run(init, schedule);
    LiveCounts(s, more);
    RunInv(s, more);
  }

  // ----- the object

  /** The object of the source.  Each method is one atomic step of the calling
      thread; a false result means that the thread is blocked. */
  class Ring<T(0)> {
    var queue: array<T>
    var comSem: nat
    var proSem: nat
    const cap: nat
    var spacePos: nat
    var dataPos: nat
    var proMutex: Option<nat>
    var comMutex: Option<nat>
    var producers: seq<Pc>
    var consumers: seq<Pc>
    ghost var produced: seq<T>
    ghost var consumed: seq<T>

    ghost function Abs(): State<T>
      reads this, queue
    {
      State(cap, queue[..], comSem, proSem, spacePos, dataPos, proMutex, comMutex,
            producers, consumers, produced, consumed)
    }

    constructor (spaceSize: nat, nProducers: nat, nConsumers: nat)
      ensures fresh(queue) && Init(Abs()) && Abs().cap == spaceSize
      ensures |producers| == nProducers && |consumers| == nConsumers
    {
      queue := new T[spaceSize];
      cap := spaceSize;
      comSem, proSem := 0, spaceSize;
      spacePos, dataPos := 0, 0;
      proMutex, comMutex := None, None;
      producers := seq(nProducers, _ => Outside);
      consumers := seq(nConsumers, _ => Outside);
      produced, consumed := [], [];
    }

    method Push(t: nat, data: T) returns (moved: bool)
      requires t < |producers| && !Faults(Abs(), Label.Push(t, data))
      modifies this, queue
      ensures queue == old(queue)
      ensures moved == CanPush(old(Abs()), t)
      ensures Abs() == Next(old(Abs()), Label.Push(t, data))
    {
      var pc := producers[t];
      match pc {
        case Outside =>
          if proSem == 0 { return false; }
          proSem := proSem - 1;
        case Acquired =>
          if proMutex.Some? { return false; }
          proMutex := Some(t);
        case Locked =>
          queue[spacePos] := data;
          produced := produced + [data];
        case Moved =>
          spacePos := spacePos + 1;
        case Advanced =>
          spacePos := spacePos % cap;
        case Wrapped =>
          proMutex := None;
        case Unlocked =>
          comSem := comSem + 1;
      }
      producers := producers[t := Following(pc)];
      moved := true;
    }

    method Pop(t: nat) returns (moved: bool, data: Option<T>)
      requires t < |consumers| && !Faults(Abs(), Label.Pop(t))
      modifies this
      ensures queue == old(queue)
      ensures moved == CanPop(old(Abs()), t)
      ensures Abs() == Next(old(Abs()), Label.Pop(t))
      ensures consumed == old(consumed) + if data.Some? then [data.value] else []
    {
      var pc := consumers[t];
      data := None;
      match pc {
        case Outside =>
          if comSem == 0 { return false, None; }
          comSem := comSem - 1;
        case Acquired =>
          if comMutex.Some? { return false, None; }
          comMutex := Some(t);
        case Locked =>
          data := Some(queue[dataPos]);
          consumed := consumed + [queue[dataPos]];
        case Moved =>
          dataPos := dataPos + 1;
        case Advanced =>
          dataPos := dataPos % cap;
        case Wrapped =>
          comMutex := None;
        case Unlocked =>
          proSem := proSem + 1;
      }
      consumers := consumers[t := Following(pc)];
      moved := true;
    }
  }
}
