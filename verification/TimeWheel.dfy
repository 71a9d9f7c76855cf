/**
 The 60-slot time wheel (my_muduo/source/timewheel.hpp).  A task is kept alive
 by the shared pointers in the slots; its destructor runs the callback.  A
 shared pointer is modelled by the index of its task, and the task carries the
 reference count.
 */
module TimeWheel {
  import opened Prelude

  const CAPACITY: nat := 60
  const TWO32: nat := 0x1_0000_0000
  const TWO31: nat := 0x8000_0000

  type uint32 = n: nat | n < TWO32

  datatype TimeTask = TimeTask(id: nat, timeout: uint32, canceled: bool, refs: nat)

  datatype State = State(
    tick: nat,
    wheel: seq<seq<nat>>,
    timers: map<nat, nat>,  // weak pointers: they do not count as references
    tasks: seq<TimeTask>,
    fired: seq<nat>,        // the tasks whose callback ran, in order
    faulted: bool)          // undefined behaviour was reached

  datatype Op = Add(id: nat, timeout: uint32) | Refresh(id: nat) | Cancel(id: nat) | Tick

  function Slots(): (slots: seq<seq<nat>>)
    ensures |slots| == CAPACITY && forall pos :: 0 <= pos < CAPACITY ==> slots[pos] == []
  {
    seq(CAPACITY, _ => [])
  }

  function Empty(): State {
    State(0, Slots(), map[], [], [], false)
  }

  // ----- the operations

  /** The slot of TaskAdd: the sum is taken in 32-bit unsigned arithmetic. */
  function AddPos(tick: nat, timeout: uint32): (pos: nat)
    ensures pos < CAPACITY
  {
    (tick + timeout) % TWO32 % CAPACITY
  }

  /** The slot of Refresh: the timeout is converted to a signed int first.
      Negative when the sum overflows or the truncated remainder is negative. */
  function RefreshPos(tick: nat, timeout: uint32): (pos: int)
    ensures pos < CAPACITY
  {
    var delay: int := if timeout < TWO31 then timeout else timeout - TWO32;
    var sum := tick + delay;
    if sum >= TWO31 then -1
    else if sum >= 0 then sum % CAPACITY
    else -(-sum % CAPACITY)
  }

  function PushRef(s: State, pos: nat, h: nat): State
    requires pos < |s.wheel| && h < |s.tasks|
  {
    s.(wheel := s.wheel[pos := s.wheel[pos] + [h]],
       tasks := s.tasks[h := s.tasks[h].(refs := s.tasks[h].refs + 1)])
  }

  /** The state of TaskAdd before the first reference: nothing refers to the task. */
  function NewTask(s: State, id: nat, timeout: uint32): State {
    s.(tasks := s.tasks + [TimeTask(id, timeout, false, 0)], timers := s.timers[id := |s.tasks|])
  }

  function AddTask(s: State, id: nat, timeout: uint32): State
    requires |s.wheel| == CAPACITY
  {
    var h := |s.tasks|;
    PushRef(NewTask(s, id, timeout), AddPos(s.tick, timeout), h)
  }

  predicate WeakOk(s: State) { forall id :: id in s.timers ==> s.timers[id] < |s.tasks| }

  function RefreshTask(s: State, id: nat): State
    requires |s.wheel| == CAPACITY && WeakOk(s)
  {
    if id !in s.timers then s else
    var h := s.timers[id];
    if s.tasks[h].refs == 0 then s.(faulted := true)  // lock() gave a null pointer
    else
      var pos := RefreshPos(s.tick, s.tasks[h].timeout);
      if pos < 0 then s.(faulted := true) else PushRef(s, pos, h)
  }

  function CancelTask(s: State, id: nat): State
    requires WeakOk(s)
  {
    if id !in s.timers || s.tasks[s.timers[id]].refs == 0 then s else
    var h := s.timers[id];
    s.(tasks := s.tasks[h := s.tasks[h].(canceled := true)])
  }

  /** One reference to task h goes away; with the last one the destructor runs. */
  function DropRef(s: State, h: nat): State
    requires h < |s.tasks| && s.tasks[h].refs > 0
  {
    var t := s.tasks[h];
    var s' := s.(tasks := s.tasks[h := t.(refs := t.refs - 1)]);
    if t.refs == 1 && !t.canceled then s'.(fired := s.fired + [h], timers := s.timers - {t.id}) else s'
  }

  /** The references in refs go away from first to last. */
  function DropRefs(s: State, refs: seq<nat>): State
    decreases |refs|
  {
    if refs == [] then s
    else if !(refs[0] < |s.tasks| && s.tasks[refs[0]].refs > 0) then s  // no such state is reachable
    else DropRefs(DropRef(s, refs[0]), refs[1..])
  }

  /** The state in which the slot under the moved hand is already empty and its
      references are still to be dropped. */
  function Turned(s: State): State
    requires |s.wheel| == CAPACITY
  {
    var tick := (s.tick + 1) % CAPACITY;
    s.(tick := tick, wheel := s.wheel[tick := []])
  }

  function RunTick(s: State): State
    requires |s.wheel| == CAPACITY
  {
    var tick := (s.tick + 1) % CAPACITY;
    DropRefs(Turned(s), s.wheel[tick])
  }

  function Apply(s: State, op: Op): State
    requires Inv(s)
  {
    if s.faulted then s else
    match op
    case Add(id, timeout) => AddTask(s, id, timeout)
    case Refresh(id) => RefreshTask(s, id)
    case Cancel(id) => CancelTask(s, id)
    case Tick => RunTick(s)
  }

  // ----- the invariant

  /** How many references to task h the slots hold. */
  function Occurrences(wheel: seq<seq<nat>>, h: nat): nat {
    if wheel == [] then 0 else multiset(wheel[0])[h] + Occurrences(wheel[1..], h)
  }

  lemma {:induction false} OccurrencesUpdate(wheel: seq<seq<nat>>, pos: nat, slot: seq<nat>, h: nat)
    requires pos < |wheel|
    ensures Occurrences(wheel[pos := slot], h) + multiset(wheel[pos])[h]
         == Occurrences(wheel, h) + multiset(slot)[h]
  {
    if pos == 0 {
      assert wheel[pos := slot][1..] == wheel[1..];
    } else {
      assert wheel[pos := slot][1..] == wheel[1..][pos - 1 := slot];
      OccurrencesUpdate(wheel[1..], pos - 1, slot, h);
    }
  }

  lemma {:induction false} OccurrencesAtLeast(wheel: seq<seq<nat>>, pos: nat, h: nat)
    requires pos < |wheel|
    ensures multiset(wheel[pos])[h] <= Occurrences(wheel, h)
  {
    if pos > 0 {
      OccurrencesAtLeast(wheel[1..], pos - 1, h);
    }
  }

  lemma {:induction false} OccurrencesZero(wheel: seq<seq<nat>>, h: nat)
    requires forall pos :: 0 <= pos < |wheel| ==> h !in wheel[pos]
    ensures Occurrences(wheel, h) == 0
  {
    if wheel != [] {
      assert h !in wheel[0];
      OccurrencesZero(wheel[1..], h);
    }
  }

  /** The reference count of every task is the number of references in the slots. */
  ghost predicate RefsOk(s: State) {
    && (forall pos, h :: 0 <= pos < |s.wheel| && h in s.wheel[pos] ==> h < |s.tasks|)
    && (forall h :: 0 <= h < |s.tasks| ==> s.tasks[h].refs == Occurrences(s.wheel, h))
  }

  /** The references of the list are covered by the counts. */
  ghost predicate Backed(s: State, refs: seq<nat>) {
    forall h :: h in refs ==> h < |s.tasks| && s.tasks[h].refs >= multiset(refs)[h]
  }

  lemma BackedRest(s: State, refs: seq<nat>)
    requires Backed(s, refs) && refs != []
    ensures refs[0] < |s.tasks| && s.tasks[refs[0]].refs > 0
    ensures Backed(DropRef(s, refs[0]), refs[1..])
    ensures forall h: nat :: multiset(refs)[h] == multiset(refs[1..])[h] + (if h == refs[0] then 1 else 0)
  {
    assert refs == [refs[0]] + refs[1..];
    assert refs[0] in refs && multiset(refs)[refs[0]] >= 1;
    forall h | h in refs[1..]
      ensures h < |s.tasks| && DropRef(s, refs[0]).tasks[h].refs >= multiset(refs[1..])[h]
    {
      assert h in refs;
    }
  }

  lemma SlotCounted(s: State, pos: nat)
    requires RefsOk(s) && pos < |s.wheel|
    ensures Backed(s, s.wheel[pos])
  {
    forall h | h in s.wheel[pos] ensures h < |s.tasks| && s.tasks[h].refs >= multiset(s.wheel[pos])[h] {
      OccurrencesAtLeast(s.wheel, pos, h);
    }
  }

  /** The slot that the hand reaches after d more ticks. */
  function Ahead(tick: nat, d: nat): nat { (tick + d) % CAPACITY }

  /** The number of ticks until the last reference to h is cleared, 0 if there is
      none; d is the largest number of ticks looked at. */
  function RemainingWithin(wheel: seq<seq<nat>>, tick: nat, h: nat, d: nat): (r: nat)
    requires |wheel| == CAPACITY
    ensures r <= d
    ensures r > 0 ==> h in wheel[Ahead(tick, r)]
    ensures forall k :: r < k <= d ==> h !in wheel[Ahead(tick, k)]
  {
    if d == 0 then 0
    else if h in wheel[Ahead(tick, d)] then d
    else RemainingWithin(wheel, tick, h, d - 1)
  }

  function Remaining(s: State, h: nat): nat
    requires |s.wheel| == CAPACITY
  {
    RemainingWithin(s.wheel, s.tick, h, CAPACITY)
  }

  /** A timeout that the wheel can express. */
  predicate Sane(timeout: uint32) { 1 <= timeout <= CAPACITY }

  /** A task in the timer map carries that identifier; if it is gone, it was cancelled. */
  predicate TimerOk(id: nat, t: TimeTask) { t.id == id && (t.refs == 0 ==> t.canceled) }

  ghost predicate Inv(s: State) {
    && |s.wheel| == CAPACITY && s.tick < CAPACITY
    && RefsOk(s) && WeakOk(s)
    && (forall h :: h in s.fired ==> h < |s.tasks|)
    && (forall id :: id in s.timers ==> TimerOk(id, s.tasks[s.timers[id]]))
    && (forall h :: 0 <= h < |s.tasks| && Sane(s.tasks[h].timeout) ==> Remaining(s, h) <= s.tasks[h].timeout)
  }

  lemma EmptyInv()
    ensures Inv(Empty())
  {
  }

  /** The number of ticks, between 1 and 60, until the hand reaches slot pos. */
  function Wait(tick: nat, pos: nat): (d: nat)
    requires tick < CAPACITY && pos < CAPACITY
    ensures 1 <= d <= CAPACITY && Ahead(tick, d) == pos
  {
    if pos > tick then pos - tick else pos + CAPACITY - tick
  }

  /** TaskAdd and Refresh place a task exactly `timeout` ticks ahead if and only if the
      timeout is between 1 and 60, and Refresh finds a slot for all those timeouts. */
  lemma WaitIsTimeout(tick: nat, timeout: uint32)
    requires tick < CAPACITY
    ensures Wait(tick, AddPos(tick, timeout)) == timeout <==> 1 <= timeout <= CAPACITY
    ensures 1 <= timeout <= CAPACITY ==> RefreshPos(tick, timeout) >= 0
    ensures RefreshPos(tick, timeout) >= 0 ==>
      (Wait(tick, RefreshPos(tick, timeout)) == timeout <==> 1 <= timeout <= CAPACITY)
  {
    AddWait(tick, timeout);
    RefreshWait(tick, timeout);
  }

  lemma AddWait(tick: nat, timeout: uint32)
    requires tick < CAPACITY
    ensures Wait(tick, AddPos(tick, timeout)) == timeout <==> 1 <= timeout <= CAPACITY
  {
  }

  lemma RefreshWait(tick: nat, timeout: uint32)
    requires tick < CAPACITY
    ensures 1 <= timeout <= CAPACITY ==> RefreshPos(tick, timeout) >= 0
    ensures RefreshPos(tick, timeout) >= 0 ==>
      (Wait(tick, RefreshPos(tick, timeout)) == timeout <==> 1 <= timeout <= CAPACITY)
  {
  }

  /** For other timeouts the slot is that of the sum modulo 60: of the sum of TaskAdd
      after it has wrapped at 32 bits; of the signed sum of Refresh, which has no slot if
      it overflows or is negative and no multiple of 60. */
  lemma SlotMeans(tick: nat, timeout: uint32)
    requires tick < CAPACITY
    ensures var sum := tick + timeout; var pos := AddPos(tick, timeout);
      (pos - (if sum < 0x1_0000_0000 then sum else sum - 0x1_0000_0000)) % 60 == 0
    ensures timeout < 0x8000_0000 ==> var sum := tick + timeout; var pos := RefreshPos(tick, timeout);
      if sum < 0x8000_0000 then pos >= 0 && (pos - sum) % 60 == 0 else pos < 0
    ensures timeout >= 0x8000_0000 ==> var sum := tick + timeout - 0x1_0000_0000; var pos := RefreshPos(tick, timeout);
      if sum >= 0 then pos == sum else if sum % 60 == 0 then pos == 0 else pos < 0
  {
    AddSlot(tick, timeout);
    RefreshSlot(tick, timeout);
  }

  lemma AddSlot(tick: nat, timeout: uint32)
    requires tick < CAPACITY
    ensures var sum := tick + timeout;
      (AddPos(tick, timeout) - (if sum < 0x1_0000_0000 then sum else sum - 0x1_0000_0000)) % 60 == 0
  {
  }

  lemma RefreshSlot(tick: nat, timeout: uint32)
    requires tick < CAPACITY
    ensures timeout < 0x8000_0000 ==> var sum := tick + timeout; var pos := RefreshPos(tick, timeout);
      if sum < 0x8000_0000 then pos >= 0 && (pos - sum) % 60 == 0 else pos < 0
    ensures timeout >= 0x8000_0000 ==> var sum := tick + timeout - 0x1_0000_0000; var pos := RefreshPos(tick, timeout);
      if sum >= 0 then pos == sum else if sum % 60 == 0 then pos == 0 else pos < 0
  {
  }

  /** What Remaining is after one more reference. */
  lemma PushRemaining(s: State, pos: nat, h: nat, g: nat)
    requires |s.wheel| == CAPACITY && s.tick < CAPACITY && pos < CAPACITY && h < |s.tasks|
    ensures var s' := PushRef(s, pos, h);
      Remaining(s', g) ==
        if g == h && Remaining(s, h) < Wait(s.tick, pos) then Wait(s.tick, pos) else Remaining(s, g)
  {
  }

  lemma PushRefs(s: State, pos: nat, h: nat)
    requires |s.wheel| == CAPACITY && pos < CAPACITY && h < |s.tasks| && RefsOk(s)
    ensures RefsOk(PushRef(s, pos, h))
  {
    var s' := PushRef(s, pos, h);
    forall g | 0 <= g < |s'.tasks| ensures s'.tasks[g].refs == Occurrences(s'.wheel, g) {
      OccurrencesUpdate(s.wheel, pos, s.wheel[pos] + [h], g);
    }
  }

  // ----- every operation keeps the invariant and drives the countdowns

  lemma PushKeepsInv(s: State, pos: nat, h: nat)
    requires Inv(s) && pos < CAPACITY && h < |s.tasks| && s.tasks[h].refs > 0
    requires Sane(s.tasks[h].timeout) ==> Wait(s.tick, pos) <= s.tasks[h].timeout
    ensures Inv(PushRef(s, pos, h))
  {
    PushRefs(s, pos, h);
    forall g | 0 <= g < |s.tasks| ensures
      Remaining(PushRef(s, pos, h), g) ==
        if g == h && Remaining(s, h) < Wait(s.tick, pos) then Wait(s.tick, pos) else Remaining(s, g)
    {
      PushRemaining(s, pos, h, g);
    }
  }

  lemma OneRemaining(s: State, h: nat)
    requires |s.wheel| == CAPACITY && s.tick < CAPACITY
    ensures Remaining(s, h) == 0 <==> Occurrences(s.wheel, h) == 0
  {
    if Remaining(s, h) == 0 {
      forall pos | 0 <= pos < CAPACITY ensures h !in s.wheel[pos] {
        assert Ahead(s.tick, Wait(s.tick, pos)) == pos;
      }
      OccurrencesZero(s.wheel, h);
    } else {
      OccurrencesAtLeast(s.wheel, Ahead(s.tick, Remaining(s, h)), h);
    }
  }

  /** In a state of the invariant a task has time remaining, is alive and is
      referred to by some slot, all three or none. */
  lemma RemainingIffAlive(s: State, h: nat)
    requires Inv(s) && h < |s.tasks|
    ensures Remaining(s, h) > 0 <==> s.tasks[h].refs > 0
    ensures s.tasks[h].refs > 0 <==> exists pos :: 0 <= pos < CAPACITY && h in s.wheel[pos]
  {
    OneRemaining(s, h);
    if Remaining(s, h) == 0 {
      forall pos | 0 <= pos < CAPACITY ensures h !in s.wheel[pos] {
        assert Ahead(s.tick, Wait(s.tick, pos)) == pos;
      }
    } else {
      assert h in s.wheel[Ahead(s.tick, Remaining(s, h))];
    }
  }

  lemma FreshTask(s: State, id: nat, timeout: uint32)
    requires Inv(s)
    ensures var s' := NewTask(s, id, timeout);
      RefsOk(s') && Remaining(s', |s.tasks|) == 0 && forall h :: 0 <= h < |s.tasks| ==> Remaining(s', h) == Remaining(s, h)
  {
    OccurrencesZero(s.wheel, |s.tasks|);
  }

  lemma AddRemaining(s: State, id: nat, timeout: uint32)
    requires Inv(s)
    ensures var s' := AddTask(s, id, timeout);
      && RefsOk(s')
      && Remaining(s', |s.tasks|) == Wait(s.tick, AddPos(s.tick, timeout))
      && forall h :: 0 <= h < |s.tasks| ==> Remaining(s', h) == Remaining(s, h)
  {
    var s0 := NewTask(s, id, timeout);
    var pos := AddPos(s.tick, timeout);
    FreshTask(s, id, timeout);
    PushRefs(s0, pos, |s.tasks|);
    forall g | 0 <= g <= |s.tasks|
      ensures Remaining(PushRef(s0, pos, |s.tasks|), g)
           == if g == |s.tasks| then Wait(s.tick, pos) else Remaining(s0, g)
    {
      PushRemaining(s0, pos, |s.tasks|, g);
    }
  }

  lemma AddKeepsInv(s: State, id: nat, timeout: uint32)
    requires Inv(s)
    ensures Inv(AddTask(s, id, timeout))
  {
    AddRemaining(s, id, timeout);
    WaitIsTimeout(s.tick, timeout);
    var s' := AddTask(s, id, timeout);
    assert s'.tasks[|s.tasks|].refs == 1;
    assert forall h :: 0 <= h < |s.tasks| ==> s'.tasks[h] == s.tasks[h];
  }

  /** The effect on task h of dropping k references to it: it fires exactly when
      these were its last references and it is not cancelled, and then it leaves
      the timer map. */
  ghost predicate Dropped(s: State, s': State, h: nat, k: nat)
    requires h < |s.tasks| == |s'.tasks|
  {
    var t, t' := s.tasks[h], s'.tasks[h];
    && t.refs >= k && t' == t.(refs := t.refs - k)
    && multiset(s'.fired)[h] == multiset(s.fired)[h] + (if k > 0 && t'.refs == 0 && !t.canceled then 1 else 0)
    && (k > 0 && t'.refs == 0 && !t.canceled ==> t.id !in s'.timers)
  }

  lemma DroppedTwice(s: State, s1: State, s2: State, h: nat, j: nat, k: nat)
    requires h < |s.tasks| == |s1.tasks| == |s2.tasks|
    requires Dropped(s, s1, h, j) && Dropped(s1, s2, h, k)
    requires s2.timers.Keys <= s1.timers.Keys
    ensures Dropped(s, s2, h, j + k)
  {
  }

  /** What dropping a list of references leaves alone. */
  lemma {:induction false} DropRefsShape(s: State, refs: seq<nat>)
    requires Backed(s, refs)
    ensures var s' := DropRefs(s, refs);
      && (s'.wheel, s'.tick, s'.faulted) == (s.wheel, s.tick, s.faulted)
      && |s'.tasks| == |s.tasks|
      && (forall id :: id in s'.timers ==> id in s.timers && s'.timers[id] == s.timers[id])
      && (forall h :: h in s'.fired ==> h in s.fired || h in refs)
    decreases |refs|
  {
    if refs != [] {
      BackedRest(s, refs);
      DropRefsShape(DropRef(s, refs[0]), refs[1..]);
      assert forall h :: h in refs[1..] ==> h in refs;
    }
  }

  /** What dropping a list of references does to task h. */
  lemma {:induction false} DropRefsTask(s: State, refs: seq<nat>, h: nat)
    requires Backed(s, refs) && h < |s.tasks|
    ensures |DropRefs(s, refs).tasks| == |s.tasks|
    ensures Dropped(s, DropRefs(s, refs), h, multiset(refs)[h])
    decreases |refs|
  {
    if refs != [] {
      BackedRest(s, refs);
      var s1 := DropRef(s, refs[0]);
      DropRefsShape(s1, refs[1..]);
      DropRefsTask(s1, refs[1..], h);
      DroppedTwice(s, s1, DropRefs(s1, refs[1..]), h, if h == refs[0] then 1 else 0, multiset(refs[1..])[h]);
    }
  }

  /** The effect of one tick on task h. */
  ghost predicate Ticked(s: State, s': State, h: nat)
    requires h < |s.tasks| == |s'.tasks| && |s.wheel| == CAPACITY == |s'.wheel|
  {
    && Remaining(s', h) == (if Remaining(s, h) > 0 then Remaining(s, h) - 1 else 0)
    && s'.tasks[h] == s.tasks[h].(refs := s'.tasks[h].refs)
    && multiset(s'.fired)[h] == multiset(s.fired)[h]
         + (if Remaining(s, h) == 1 && !s.tasks[h].canceled then 1 else 0)
  }

  lemma TickTask(s: State, h: nat)
    requires Inv(s) && h < |s.tasks|
    ensures var s' := RunTick(s);
      && |s'.tasks| == |s.tasks| && s'.wheel == Turned(s).wheel
      && Ticked(s, s', h)
      && s'.tasks[h].refs == Occurrences(s'.wheel, h)
      && (Remaining(s, h) == 1 && !s.tasks[h].canceled ==> s.tasks[h].id !in s'.timers)
      && (Remaining(s, h) != 1 ==> (s'.tasks[h].refs == 0 <==> s.tasks[h].refs == 0))
  {
    var tick := (s.tick + 1) % CAPACITY;
    SlotDropped(s, h, tick);
    TickCounts(s, h, tick);
  }

  lemma SlotDropped(s: State, h: nat, tick: nat)
    requires Inv(s) && h < |s.tasks| && tick == (s.tick + 1) % CAPACITY
    ensures var s' := RunTick(s);
      && |s'.tasks| == |s.tasks| && (s'.wheel, s'.tick) == (Turned(s).wheel, tick)
      && Dropped(Turned(s), s', h, multiset(s.wheel[tick])[h])
  {
    SlotCounted(s, tick);
    DropRefsShape(Turned(s), s.wheel[tick]);
    DropRefsTask(Turned(s), s.wheel[tick], h);
  }

  /** The references to task h that the moving hand clears: the last of them are among
      them exactly when one tick remains. */
  lemma TickCounts(s: State, h: nat, tick: nat)
    requires |s.wheel| == CAPACITY && s.tick < CAPACITY && tick == (s.tick + 1) % CAPACITY
    ensures var k, left := multiset(s.wheel[tick])[h], Occurrences(Turned(s).wheel, h);
      && Occurrences(s.wheel, h) == left + k
      && (k > 0 && left == 0 <==> Remaining(s, h) == 1)
    ensures Remaining(Turned(s), h) == if Remaining(s, h) > 0 then Remaining(s, h) - 1 else 0
  {
    OccurrencesUpdate(s.wheel, tick, [], h);
    TickRemaining(s, Turned(s), h);
    OneRemaining(s, h);
    OneRemaining(Turned(s), h);
    assert Ahead(s.tick, 1) == tick;
  }

  lemma TickKeepsInv(s: State)
    requires Inv(s)
    ensures var s' := RunTick(s);
      && Inv(s') && |s'.tasks| == |s.tasks| && s'.faulted == s.faulted
      && (forall h :: 0 <= h < |s.tasks| ==> Ticked(s, s', h))
  {
    var tick := (s.tick + 1) % CAPACITY;
    SlotCounted(s, tick);
    DropRefsShape(Turned(s), s.wheel[tick]);
    var s' := RunTick(s);
    forall h | 0 <= h < |s.tasks|
      ensures Ticked(s, s', h) && s'.tasks[h].refs == Occurrences(s'.wheel, h)
    {
      TickTask(s, h);
    }
    forall id | id in s'.timers
      ensures TimerOk(id, s'.tasks[s'.timers[id]])
    {
      var h := s.timers[id];
      TickTask(s, h);
      OneRemaining(s, h);
    }
  }

  /** Moving the hand and emptying the slot under it takes one tick from every
      remaining time. */
  lemma TickRemaining(s: State, s': State, h: nat)
    requires |s.wheel| == CAPACITY && s.tick < CAPACITY
    requires s'.tick == (s.tick + 1) % CAPACITY && s'.wheel == s.wheel[s'.tick := []]
    ensures Remaining(s', h) == if Remaining(s, h) > 0 then Remaining(s, h) - 1 else 0
  {
    assert Ahead(s'.tick, CAPACITY) == s'.tick;
    forall d | 1 <= d < CAPACITY
      ensures Ahead(s'.tick, d) == Ahead(s.tick, d + 1) != s'.tick
    {
    }
    var r, r' := Remaining(s, h), Remaining(s', h);
    assert r > 1 ==> Ahead(s'.tick, r - 1) == Ahead(s.tick, r);
    assert r' > 0 ==> Ahead(s'.tick, r') == Ahead(s.tick, r' + 1);
  }

  lemma RefreshKeepsInv(s: State, id: nat)
    requires Inv(s)
    ensures Inv(RefreshTask(s, id))
  {
    if id in s.timers && s.tasks[s.timers[id]].refs > 0 {
      var h := s.timers[id];
      var pos := RefreshPos(s.tick, s.tasks[h].timeout);
      WaitIsTimeout(s.tick, s.tasks[h].timeout);
      if pos >= 0 {
        PushKeepsInv(s, pos, h);
      }
    }
  }

  lemma ApplyKeepsInv(s: State, op: Op)
    requires Inv(s)
    ensures Inv(Apply(s, op))
  {
    if !s.faulted {
      match op {
        case Add(id, timeout) => AddKeepsInv(s, id, timeout);
        case Refresh(id) => RefreshKeepsInv(s, id);
        case Cancel(id) =>
        case Tick => TickKeepsInv(s);
      }
    }
  }

  /** Refresh dereferences a null pointer, or leaves the wheel, if and only if the
      identifier belongs to a cancelled task that is gone, or to a task whose
      timeout no signed sum with the hand can place. */
  lemma RefreshFaults(s: State, id: nat)
    requires Inv(s) && !s.faulted
    ensures Apply(s, Refresh(id)).faulted <==>
      id in s.timers && var t := s.tasks[s.timers[id]];
        (t.canceled && t.refs == 0) || RefreshPos(s.tick, t.timeout) < 0
  {
  }

  // ----- whole runs

  /** The state after the operations, from the empty wheel. */
  function Run(ops: seq<Op>): (s: State)
    ensures Inv(s)
    decreases |ops|
  {
    EmptyInv();
    if ops == [] then Empty() else
    var last := |ops| - 1;
    ApplyKeepsInv(Run(ops[..last]), ops[last]);
    Apply(Run(ops[..last]), ops[last])
  }

  function Ticks(ops: seq<Op>): nat {
    if ops == [] then 0 else Ticks(ops[..|ops| - 1]) + (if ops[|ops| - 1].Tick? then 1 else 0)
  }

  /** The operation gives task h a new reference. */
  predicate Touches(s: State, op: Op, h: nat) {
    || (op.Add? && |s.tasks| == h)
    || (op.Refresh? && op.id in s.timers && s.timers[op.id] == h)
  }

  /** The operation cancels the live task h. */
  predicate Cancels(s: State, op: Op, h: nat) {
    op.Cancel? && op.id in s.timers && s.timers[op.id] == h
  }

  /** From state s on, none of the operations touches task h. */
  ghost predicate Untouched(before: seq<Op>, ops: seq<Op>, h: nat) {
    forall i :: 0 <= i < |ops| ==> !Touches(Run(before + ops[..i]), ops[i], h)
  }

  /** Only TaskAdd creates a task. */
  lemma ApplyShape(s: State, op: Op)
    requires Inv(s)
    ensures |Apply(s, op).tasks| == |s.tasks| + if op.Add? && !s.faulted then 1 else 0
  {
    if op.Tick? {
      TickKeepsInv(s);
    }
  }

  /** What one operation does to task h: only a touch gives it time, only a tick
      takes time from it, and it fires only on the tick that takes its last. */
  lemma ApplyTask(s: State, op: Op, h: nat)
    requires Inv(s) && h < |s.tasks|
    ensures var s' := Apply(s, op);
      && h < |s'.tasks| && |s'.wheel| == CAPACITY
      && s'.tasks[h].timeout == s.tasks[h].timeout
      && (!Touches(s, op, h) && !s.faulted ==>
           Remaining(s', h) == (if op.Tick? && Remaining(s, h) > 0 then Remaining(s, h) - 1 else Remaining(s, h)))
      && (s'.tasks[h].canceled <==> s.tasks[h].canceled || (!s.faulted && Remaining(s, h) > 0 && Cancels(s, op, h)))
      && multiset(s'.fired)[h] == multiset(s.fired)[h]
           + (if !s.faulted && op.Tick? && Remaining(s, h) == 1 && !s.tasks[h].canceled then 1 else 0)
      && (Remaining(s, h) == 0 ==> Remaining(s', h) == 0)
  {
    if !s.faulted {
      OneRemaining(s, h);
      match op {
        case Add(id, timeout) => AddRemaining(s, id, timeout);
        case Refresh(id) =>
          if id in s.timers && s.tasks[s.timers[id]].refs > 0 {
            var pos := RefreshPos(s.tick, s.tasks[s.timers[id]].timeout);
            if pos >= 0 {
              PushRemaining(s, pos, s.timers[id], h);
            }
          }
        case Cancel(id) =>
        case Tick => TickKeepsInv(s); assert Ticked(s, RunTick(s), h);
      }
    }
  }

  /** The timeout that counts from the touch on. */
  function TouchTimeout(s: State, op: Op, h: nat): uint32
    requires WeakOk(s) && Touches(s, op, h)
  {
    if op.Add? then op.timeout else s.tasks[h].timeout
  }

  /** A touch puts a task whose timeout is sane exactly that many ticks ahead. */
  lemma TouchSetsRemaining(s: State, op: Op, h: nat)
    requires Inv(s) && !s.faulted && Touches(s, op, h)
    requires op.Refresh? ==> s.tasks[h].refs > 0
    requires Sane(TouchTimeout(s, op, h))
    ensures var s' := Apply(s, op);
      && !s'.faulted && h < |s'.tasks|
      && Remaining(s', h) == s'.tasks[h].timeout == TouchTimeout(s, op, h)
  {
    match op {
      case Add(id, timeout) =>
        AddRemaining(s, id, timeout);
        WaitIsTimeout(s.tick, timeout);
      case Refresh(id) =>
        WaitIsTimeout(s.tick, s.tasks[h].timeout);
        PushRemaining(s, RefreshPos(s.tick, s.tasks[h].timeout), h, h);
    }
  }

  lemma RunSnoc(before: seq<Op>, ops: seq<Op>)
    requires ops != []
    ensures Run(before + ops) == Apply(Run(before + ops[..|ops| - 1]), ops[|ops| - 1])
  {
    var init, op := before + ops[..|ops| - 1], ops[|ops| - 1];
    LastApart(before, ops, init, op);
    RunLast(init, op);
  }

  lemma LastApart(before: seq<Op>, ops: seq<Op>, init: seq<Op>, op: Op)
    requires ops != [] && init == before + ops[..|ops| - 1] && op == ops[|ops| - 1]
    ensures before + ops == init + [op]
  {
  }

  lemma RunLast(init: seq<Op>, op: Op)
    ensures Run(init + [op]) == Apply(Run(init), op)
  {
    assert (init + [op])[..|init|] == init;
  }

  lemma UntouchedInit(before: seq<Op>, ops: seq<Op>, h: nat)
    requires ops != [] && Untouched(before, ops, h)
    ensures Untouched(before, ops[..|ops| - 1], h)
    ensures !Touches(Run(before + ops[..|ops| - 1]), ops[|ops| - 1], h)
  {
    assert forall i :: 0 <= i < |ops| - 1 ==> ops[..|ops| - 1][..i] == ops[..i];
  }

  /** While nothing touches it, a task counts down. */
  lemma {:induction false} Countdown(before: seq<Op>, ops: seq<Op>, h: nat)
    requires h < |Run(before).tasks| && Untouched(before, ops, h) && !Run(before + ops).faulted
    ensures h < |Run(before + ops).tasks|
    ensures var r := Remaining(Run(before), h);
      Remaining(Run(before + ops), h) == if r >= Ticks(ops) then r - Ticks(ops) else 0
    decreases |ops|
  {
    if ops == [] {
      assert before + ops == before;
    } else {
      var k := |ops| - 1;
      var rest := ops[..k];
      RunSnoc(before, ops);
      UntouchedInit(before, ops, h);
      Countdown(before, rest, h);
      assert Ticks(ops) == Ticks(rest) + if ops[k].Tick? then 1 else 0;
      ApplyTask(Run(before + rest), ops[k], h);
    }
  }

  /** A task that never had a callback run still has time, or was cancelled; a
      task with time left has never fired. */
  lemma {:induction false} FiredOnce(ops: seq<Op>, h: nat)
    requires h < |Run(ops).tasks|
    ensures var s := Run(ops);
      && multiset(s.fired)[h] <= 1
      && (Remaining(s, h) > 0 ==> multiset(s.fired)[h] == 0)
      && (Remaining(s, h) == 0 ==> (multiset(s.fired)[h] == 1 <==> !s.tasks[h].canceled))
    decreases |ops|
  {
    if ops != [] {
      var s, op := Run(ops[..|ops| - 1]), ops[|ops| - 1];
      if h < |s.tasks| {
        FiredOnce(ops[..|ops| - 1], h);
        ApplyTask(s, op, h);
      } else {
        ApplyShape(s, op);
        assert h == |s.tasks| && h !in s.fired;
        AddRemaining(s, op.id, op.timeout);
      }
    }
  }

  /** A run that reached undefined behaviour goes no further. */
  lemma {:induction false} FaultStays(before: seq<Op>, ops: seq<Op>)
    ensures Run(before).faulted ==> Run(before + ops).faulted
    decreases |ops|
  {
    if ops == [] {
      assert before + ops == before;
    } else {
      RunSnoc(before, ops);
      FaultStays(before, ops[..|ops| - 1]);
    }
  }

  /** Task h, given its time `elapsed` ticks ago: for the first timeout - 1 ticks it is
      alive with its callback not yet run; from tick number `timeout` on it is gone, and
      its callback has run exactly once if it was not cancelled, and not at all if it was. */
  ghost predicate OnTime(s: State, h: nat, timeout: nat, elapsed: nat) {
    |s.wheel| == CAPACITY && h < |s.tasks| &&
    if elapsed < timeout
    then s.tasks[h].refs > 0 && Remaining(s, h) == timeout - elapsed && h !in s.fired
    else s.tasks[h].refs == 0 && (multiset(s.fired)[h] == if s.tasks[h].canceled then 0 else 1)
  }

  /** The timer law.  Let an operation add or refresh task h with a timeout from 1 to 60,
      and let no later operation touch it: the task goes on time, whatever else happens. */
  lemma FiresExactlyOnTime(before: seq<Op>, touch: Op, ops: seq<Op>, h: nat)
    requires Touches(Run(before), touch, h) && Sane(TouchTimeout(Run(before), touch, h))
    requires Untouched(before + [touch], ops, h) && !Run(before + [touch] + ops).faulted
    ensures OnTime(Run(before + [touch] + ops), h, TouchTimeout(Run(before), touch, h), Ticks(ops))
  {
    var s0 := Run(before);
    var pre := before + [touch];
    FaultStays(pre, ops);
    FaultStays(before, [touch]);
    RunLast(before, touch);
    TouchSetsRemaining(s0, touch, h);
    GoesOnTime(pre, ops, h, TouchTimeout(s0, touch, h));
  }

  lemma GoesOnTime(before: seq<Op>, ops: seq<Op>, h: nat, timeout: nat)
    requires h < |Run(before).tasks| && Remaining(Run(before), h) == timeout
    requires Untouched(before, ops, h) && !Run(before + ops).faulted
    ensures OnTime(Run(before + ops), h, timeout, Ticks(ops))
  {
    Countdown(before, ops, h);
    FiredOnce(before + ops, h);
    OneRemaining(Run(before + ops), h);
  }

  /** Cancelling a live task keeps its callback from ever running, whatever follows. */
  lemma {:induction false} CancelledNeverFires(before: seq<Op>, id: nat, ops: seq<Op>)
    requires var s := Run(before); !s.faulted && id in s.timers && s.tasks[s.timers[id]].refs > 0
    ensures var h := Run(before).timers[id];
      var s := Run(before + [Cancel(id)] + ops);
      h < |s.tasks| && s.tasks[h].canceled && h !in s.fired
    decreases |ops|
  {
    var s0 := Run(before);
    var h := s0.timers[id];
    var pre := before + [Cancel(id)];
    if ops == [] {
      assert pre + ops == pre && pre[..|pre| - 1] == before;
      assert Run(pre) == Apply(s0, Cancel(id));
      OneRemaining(s0, h);
      FiredOnce(before, h);
    } else {
      RunSnoc(pre, ops);
      CancelledNeverFires(before, id, ops[..|ops| - 1]);
      ApplyTask(Run(pre + ops[..|ops| - 1]), ops[|ops| - 1], h);
    }
  }

  // ----- the wheel as independent countdowns

  /** A timer without slots and references: `left` is its remaining time in ticks. */
  datatype Clock = Clock(id: nat, timeout: uint32, left: nat, canceled: bool)

  datatype Clocks = Clocks(tick: nat, clocks: seq<Clock>, timers: map<nat, nat>, faulted: bool)

  predicate Named(b: Clocks, id: nat) { id in b.timers && b.timers[id] < |b.clocks| }

  function Down(c: Clock): Clock { if c.left > 0 then c.(left := c.left - 1) else c }

  /** A timer of this identifier runs its callback with the next tick. */
  ghost predicate Expires(clocks: seq<Clock>, id: nat) {
    exists h :: 0 <= h < |clocks| && clocks[h].id == id && clocks[h].left == 1 && !clocks[h].canceled
  }

  /** Refresh would dereference a null pointer or leave the wheel. */
  predicate Missing(b: Clocks, id: nat) {
    Named(b, id) && var c := b.clocks[b.timers[id]]; c.left == 0 || RefreshPos(b.tick, c.timeout) < 0
  }

  /** What one operation does to the countdowns. */
  ghost function Turn(b: Clocks, op: Op): Clocks
    requires b.tick < CAPACITY
  {
    if b.faulted then b else
    match op
    case Add(id, timeout) =>
      b.(clocks := b.clocks + [Clock(id, timeout, Wait(b.tick, AddPos(b.tick, timeout)), false)],
         timers := b.timers[id := |b.clocks|])
    case Refresh(id) =>
      if !Named(b, id) then b
      else if Missing(b, id) then b.(faulted := true)
      else
        var h, c := b.timers[id], b.clocks[b.timers[id]];
        b.(clocks := b.clocks[h := c.(left := Max(c.left, Wait(b.tick, RefreshPos(b.tick, c.timeout))))])
    case Cancel(id) =>
      if !Named(b, id) || b.clocks[b.timers[id]].left == 0 then b
      else b.(clocks := b.clocks[b.timers[id] := b.clocks[b.timers[id]].(canceled := true)])
    case Tick =>
      b.(tick := (b.tick + 1) % CAPACITY,
         clocks := seq(|b.clocks|, h requires 0 <= h < |b.clocks| => Down(b.clocks[h])),
         timers := map id | id in b.timers && !Expires(b.clocks, id) :: b.timers[id])
  }

  ghost function Turns(ops: seq<Op>): (b: Clocks)
    ensures b.tick < CAPACITY
    decreases |ops|
  {
    if ops == [] then Clocks(0, [], map[], false) else Turn(Turns(ops[..|ops| - 1]), ops[|ops| - 1])
  }

  /** The countdown that task h shows. */
  ghost function ClockOf(s: State, h: nat): Clock
    requires |s.wheel| == CAPACITY && h < |s.tasks|
  {
    Clock(s.tasks[h].id, s.tasks[h].timeout, Remaining(s, h), s.tasks[h].canceled)
  }

  /** The wheel shows these countdowns. */
  ghost predicate Shows(s: State, b: Clocks) {
    && |s.wheel| == CAPACITY && (s.tick, s.timers, s.faulted) == (b.tick, b.timers, b.faulted)
    && |b.clocks| == |s.tasks| && forall h :: 0 <= h < |s.tasks| ==> b.clocks[h] == ClockOf(s, h)
  }

  lemma AddShows(s: State, b: Clocks, id: nat, timeout: uint32)
    requires Inv(s) && !s.faulted && Shows(s, b)
    ensures Shows(AddTask(s, id, timeout), Turn(b, Add(id, timeout)))
  {
    AddRemaining(s, id, timeout);
  }

  lemma RefreshShows(s: State, b: Clocks, id: nat)
    requires Inv(s) && !s.faulted && Shows(s, b)
    ensures Shows(RefreshTask(s, id), Turn(b, Refresh(id)))
  {
    if id in s.timers {
      var h := s.timers[id];
      OneRemaining(s, h);
      assert b.clocks[h] == ClockOf(s, h);
      var pos := RefreshPos(s.tick, s.tasks[h].timeout);
      if s.tasks[h].refs > 0 && pos >= 0 {
        forall g | 0 <= g < |s.tasks|
          ensures ClockOf(PushRef(s, pos, h), g)
               == if g == h then b.clocks[h].(left := Max(b.clocks[h].left, Wait(s.tick, pos))) else b.clocks[g]
        {
          PushRemaining(s, pos, h, g);
        }
      }
    }
  }

  lemma CancelShows(s: State, b: Clocks, id: nat)
    requires Inv(s) && !s.faulted && Shows(s, b)
    ensures Shows(CancelTask(s, id), Turn(b, Cancel(id)))
  {
    if id in s.timers {
      OneRemaining(s, s.timers[id]);
    }
  }

  /** An identifier leaves the timer map only with a task of it that fires. */
  lemma {:induction false} Removed(s: State, refs: seq<nat>, id: nat) returns (h: nat)
    requires Backed(s, refs) && id in s.timers && id !in DropRefs(s, refs).timers
    ensures h < |s.tasks| == |DropRefs(s, refs).tasks|
    ensures s.tasks[h].id == id && !s.tasks[h].canceled && s.tasks[h].refs > 0
    ensures DropRefs(s, refs).tasks[h].refs == 0
    decreases |refs|
  {
    BackedRest(s, refs);
    var s1 := DropRef(s, refs[0]);
    if id in s1.timers {
      h := Removed(s1, refs[1..], id);
    } else {
      h := refs[0];
      DropRefsTask(s1, refs[1..], h);
    }
  }

  lemma TickTimers(s: State, b: Clocks, id: nat)
    requires Inv(s) && Shows(s, b) && id in s.timers
    ensures id in RunTick(s).timers <==> !Expires(b.clocks, id)
  {
    var tick := (s.tick + 1) % CAPACITY;
    if Expires(b.clocks, id) {
      var h :| 0 <= h < |b.clocks| && b.clocks[h].id == id && b.clocks[h].left == 1 && !b.clocks[h].canceled;
      assert b.clocks[h] == ClockOf(s, h);
      TickTask(s, h);
    } else if id !in RunTick(s).timers {
      SlotCounted(s, tick);
      var h := Removed(Turned(s), s.wheel[tick], id);
      assert b.clocks[h] == ClockOf(s, h);
      OneRemaining(s, h);
      TickTask(s, h);
    }
  }

  lemma TickShows(s: State, b: Clocks)
    requires Inv(s) && !s.faulted && Shows(s, b)
    ensures Shows(RunTick(s), Turn(b, Tick))
  {
    var s' := RunTick(s);
    TickKeepsInv(s);
    TickFrame(s);
    forall h | 0 <= h < |s.tasks| ensures ClockOf(s', h) == Down(b.clocks[h]) {
      assert Ticked(s, s', h) && b.clocks[h] == ClockOf(s, h);
    }
    forall id | id in s.timers ensures id in s'.timers <==> !Expires(b.clocks, id) {
      TickTimers(s, b, id);
    }
    assert s'.timers == Turn(b, Tick).timers;
  }

  lemma TickFrame(s: State)
    requires Inv(s)
    ensures var s' := RunTick(s);
      && (s'.tick, s'.faulted) == ((s.tick + 1) % CAPACITY, s.faulted)
      && forall id :: id in s'.timers ==> id in s.timers && s'.timers[id] == s.timers[id]
  {
    SlotCounted(s, (s.tick + 1) % CAPACITY);
    DropRefsShape(Turned(s), s.wheel[(s.tick + 1) % CAPACITY]);
  }

  lemma ApplyShows(s: State, b: Clocks, op: Op)
    requires Inv(s) && Shows(s, b)
    ensures Shows(Apply(s, op), Turn(b, op))
  {
    if !s.faulted {
      match op {
        case Add(id, timeout) => AddShows(s, b, id, timeout);
        case Refresh(id) => RefreshShows(s, b, id);
        case Cancel(id) => CancelShows(s, b, id);
        case Tick => TickShows(s, b);
      }
    }
  }

  /** The slots, references and hand of the wheel are indistinguishable from countdowns
      that know nothing of each other: after any operations the wheel shows what the
      countdowns do, and a callback has run exactly once if its countdown is over and
      was not cancelled, and not at all otherwise. */
  lemma {:induction false} RunRefines(ops: seq<Op>)
    ensures Shows(Run(ops), Turns(ops))
    ensures forall h :: 0 <= h < |Run(ops).tasks| ==> var c := Turns(ops).clocks[h];
      multiset(Run(ops).fired)[h] == if c.left == 0 && !c.canceled then 1 else 0
    decreases |ops|
  {
    if ops != [] {
      var init := ops[..|ops| - 1];
      RunRefines(init);
      ApplyShows(Run(init), Turns(init), ops[|ops| - 1]);
    }
    forall h | 0 <= h < |Run(ops).tasks|
      ensures var c := Turns(ops).clocks[h];
        multiset(Run(ops).fired)[h] == if c.left == 0 && !c.canceled then 1 else 0
    {
      FiredOnce(ops, h);
      assert Turns(ops).clocks[h] == ClockOf(Run(ops), h);
    }
  }

  // ----- which runs reach undefined behaviour

  /** Operation k refreshes an identifier whose countdown is over. */
  ghost predicate RefreshesMissing(ops: seq<Op>, k: nat)
    requires k < |ops|
  {
    ops[k].Refresh? && Missing(Turns(ops[..k]), ops[k].id)
  }

  lemma TurnsSnoc(init: seq<Op>, op: Op)
    ensures Turns(init + [op]) == Turn(Turns(init), op)
  {
    assert (init + [op])[..|init|] == init;
  }

  lemma LastFaults(init: seq<Op>, op: Op)
    ensures Run(init + [op]).faulted <==>
      Run(init).faulted || (op.Refresh? && Missing(Turns(init), op.id))
  {
    RunRefines(init);
    RunRefines(init + [op]);
    TurnsSnoc(init, op);
  }

  /** A run reaches undefined behaviour if and only if one of its operations refreshes an
      identifier whose countdown is over or cannot be placed. */
  lemma {:induction false} RunFaults(ops: seq<Op>)
    ensures Run(ops).faulted <==> exists k :: 0 <= k < |ops| && RefreshesMissing(ops, k)
    decreases |ops|
  {
    if ops != [] {
      var last := |ops| - 1;
      var init := ops[..last];
      assert ops == init + [ops[last]];
      RunFaults(init);
      LastFaults(init, ops[last]);
      MissingInit(ops, init);
    }
  }

  lemma MissingInit(ops: seq<Op>, init: seq<Op>)
    requires ops != [] && init == ops[..|ops| - 1]
    ensures (exists k :: 0 <= k < |ops| && RefreshesMissing(ops, k)) <==>
      (exists k :: 0 <= k < |init| && RefreshesMissing(init, k)) || RefreshesMissing(ops, |init|)
  {
    forall k | 0 <= k < |init| ensures RefreshesMissing(init, k) == RefreshesMissing(ops, k) {
      assert init[..k] == ops[..k];
    }
  }

  /** No new task took the identifier since it was last cancelled. */
  predicate CancelledLast(ops: seq<Op>, id: nat)
    decreases |ops|
  {
    ops != [] && var op := ops[|ops| - 1];
    op == Cancel(id) || (!(op.Add? && op.id == id) && CancelledLast(ops[..|ops| - 1], id))
  }

  /** Every timeout is from 1 to 60, and no identifier is refreshed after it was
      cancelled, unless a new task has taken it. */
  predicate Careful(ops: seq<Op>) {
    forall k :: 0 <= k < |ops| ==>
      && (ops[k].Add? ==> Sane(ops[k].timeout))
      && (ops[k].Refresh? ==> !CancelledLast(ops[..k], ops[k].id))
  }

  lemma CarefulInit(ops: seq<Op>, n: nat)
    requires Careful(ops) && n <= |ops|
    ensures Careful(ops[..n])
  {
    assert forall k :: 0 <= k < n ==> ops[..n][..k] == ops[..k];
  }

  /** Careful operations leave sane timeouts, and a cancelled task keeps its identifier
      only if the cancellation was the last that happened to it. */
  ghost predicate Kept(s: State, ops: seq<Op>) {
    && Inv(s) && !s.faulted
    && (forall h :: 0 <= h < |s.tasks| ==> Sane(s.tasks[h].timeout))
    && (forall id :: id in s.timers && s.tasks[s.timers[id]].canceled ==> CancelledLast(ops, id))
  }

  lemma CancelledSnoc(init: seq<Op>, op: Op, id: nat)
    ensures CancelledLast(init + [op], id) <==>
      op == Cancel(id) || (!(op.Add? && op.id == id) && CancelledLast(init, id))
  {
    assert (init + [op])[..|init|] == init;
  }

  lemma TickKeeps(s: State, ops: seq<Op>)
    requires Kept(s, ops)
    ensures Kept(RunTick(s), ops)
  {
    TickKeepsInv(s);
    TickFrame(s);
    var s' := RunTick(s);
    forall h | 0 <= h < |s.tasks|
      ensures (s'.tasks[h].timeout, s'.tasks[h].canceled) == (s.tasks[h].timeout, s.tasks[h].canceled)
    {
      assert Ticked(s, s', h);
    }
  }

  lemma RefreshKeeps(s: State, ops: seq<Op>, id: nat)
    requires Kept(s, ops) && !CancelledLast(ops, id)
    ensures Kept(RefreshTask(s, id), ops)
  {
    RefreshKeepsInv(s, id);
    if id in s.timers {
      WaitIsTimeout(s.tick, s.tasks[s.timers[id]].timeout);
    }
  }

  lemma AddKeeps(s: State, init: seq<Op>, ops: seq<Op>, id: nat, timeout: uint32)
    requires Kept(s, init) && Sane(timeout)
    requires forall i :: i != id && CancelledLast(init, i) ==> CancelledLast(ops, i)
    ensures Kept(AddTask(s, id, timeout), ops)
  {
    AddKeepsInv(s, id, timeout);
  }

  lemma CancelKeeps(s: State, init: seq<Op>, ops: seq<Op>, id: nat)
    requires Kept(s, init) && CancelledLast(ops, id)
    requires forall i :: CancelledLast(init, i) ==> CancelledLast(ops, i)
    ensures Kept(CancelTask(s, id), ops)
  {
    ApplyKeepsInv(s, Cancel(id));
  }

  lemma OpKeeps(s: State, init: seq<Op>, op: Op)
    requires Kept(s, init)
    requires (op.Add? ==> Sane(op.timeout)) && (op.Refresh? ==> !CancelledLast(init, op.id))
    ensures Kept(Apply(s, op), init + [op])
  {
    forall id ensures CancelledLast(init + [op], id) <==>
      op == Cancel(id) || (!(op.Add? && op.id == id) && CancelledLast(init, id))
    {
      CancelledSnoc(init, op, id);
    }
    match op {
      case Add(id, timeout) => AddKeeps(s, init, init + [op], id, timeout);
      case Refresh(id) => RefreshKeeps(s, init, id);
      case Cancel(id) => CancelKeeps(s, init, init + [op], id);
      case Tick => TickKeeps(s, init);
    }
  }

  /** Careful operations never reach undefined behaviour. */
  lemma {:induction false} CarefulNeverFaults(ops: seq<Op>)
    requires Careful(ops)
    ensures !Run(ops).faulted && Kept(Run(ops), ops)
    decreases |ops|
  {
    if ops != [] {
      var last := |ops| - 1;
      CarefulInit(ops, last);
      CarefulNeverFaults(ops[..last]);
      OpKeeps(Run(ops[..last]), ops[..last], ops[last]);
      assert ops == ops[..last] + [ops[last]];
    }
  }

  lemma CancelledOnce(b: Clocks, id: nat)
    requires !b.faulted && b.tick == 0 && b.timers == map[id := 0] && b.clocks == [Clock(id, 1, 1, true)]
    ensures Missing(Turn(b, Tick), id)
  {
  }

  lemma AddedAndCancelled(id: nat)
    ensures Turns([Add(id, 1)] + [Cancel(id)]) == Clocks(0, [Clock(id, 1, 1, true)], map[id := 0], false)
  {
    TurnsSnoc([Add(id, 1)], Cancel(id));
    TurnsSnoc([], Add(id, 1));
    assert [] + [Add(id, 1)] == [Add(id, 1)];
  }

  /** Without the care: a task cancelled, gone and then refreshed. */
  lemma RefreshOfCancelled(id: nat)
    ensures Run([Add(id, 1), Cancel(id), Tick, Refresh(id)]).faulted
  {
    var two := [Add(id, 1)] + [Cancel(id)];
    AddedAndCancelled(id);
    CancelledOnce(Turns(two), id);
    TurnsSnoc(two, Tick);
    LastFaults(two + [Tick], Refresh(id));
    assert two + [Tick] + [Refresh(id)] == [Add(id, 1), Cancel(id), Tick, Refresh(id)];
  }

  /** The timer law for careful operations. */
  lemma CarefulFiresOnTime(before: seq<Op>, touch: Op, ops: seq<Op>, h: nat)
    requires Careful(before + [touch] + ops)
    requires Touches(Run(before), touch, h) && Untouched(before + [touch], ops, h)
    ensures OnTime(Run(before + [touch] + ops), h, TouchTimeout(Run(before), touch, h), Ticks(ops))
  {
    var all := before + [touch] + ops;
    CarefulNeverFaults(all);
    CarefulInit(all, |before|);
    assert all[..|before|] == before && all[|before|] == touch;
    CarefulNeverFaults(before);
    FiresExactlyOnTime(before, touch, ops, h);
  }

  // ----- the object

  class Wheel {
    var tick: nat
    var slots: seq<seq<nat>>
    var timers: map<nat, nat>
    var tasks: seq<TimeTask>
    var fired: seq<nat>
    var faulted: bool

    ghost function Abs(): State
      reads this
    {
      State(tick, slots, timers, tasks, fired, faulted)
    }

    constructor ()
      ensures Abs() == Empty()
    {
      tick, slots, timers, tasks, fired, faulted := 0, Slots(), map[], [], [], false;
    }

    method TaskAdd(id: nat, timeout: uint32)
      requires Inv(Abs()) && !faulted
      modifies this
      ensures Abs() == Apply(old(Abs()), Add(id, timeout))
    {
      var pos := (tick + timeout) % TWO32 % CAPACITY;
      tasks := tasks + [TimeTask(id, timeout, false, 0)];
      PushBack(pos, |tasks| - 1);
      timers := timers[id := |tasks| - 1];
    }

    method PushBack(pos: nat, h: nat)
      requires pos < |slots| && h < |tasks|
      modifies this
      ensures Abs() == PushRef(old(Abs()), pos, h)
    {
      slots := slots[pos := slots[pos] + [h]];
      tasks := tasks[h := tasks[h].(refs := tasks[h].refs + 1)];
    }

    method RefreshTimer(id: nat)
      requires Inv(Abs()) && !faulted
      modifies this
      ensures Abs() == Apply(old(Abs()), Refresh(id))
    {
      if id !in timers { return; }
      var h := timers[id];
      if tasks[h].refs == 0 { faulted := true; return; }
      var pos := RefreshPos(tick, tasks[h].timeout);
      if pos < 0 { faulted := true; return; }
      PushBack(pos, h);
    }

    method TimerCancel(id: nat)
      requires Inv(Abs()) && !faulted
      modifies this
      ensures Abs() == Apply(old(Abs()), Cancel(id))
    {
      if id !in timers { return; }
      var h := timers[id];
      if tasks[h].refs > 0 {
        tasks := tasks[h := tasks[h].(canceled := true)];
      }
    }

    method RunTimeTask()
      requires Inv(Abs()) && !faulted
      modifies this
      ensures Abs() == Apply(old(Abs()), Tick)
    {
      SlotCounted(Abs(), (tick + 1) % CAPACITY);
      tick := (tick + 1) % CAPACITY;
      var refs := slots[tick];
      slots := slots[tick := []];
      while refs != []
        invariant Backed(Abs(), refs)
        invariant DropRefs(Abs(), refs) == RunTick(old(Abs()))
        decreases |refs|
      {
        BackedRest(Abs(), refs);
        Release(refs[0]);
        refs := refs[1..];
      }
    }

    method Release(h: nat)
      requires h < |tasks| && tasks[h].refs > 0
      modifies this
      ensures Abs() == DropRef(old(Abs()), h)
    {
      var t := tasks[h];
      tasks := tasks[h := t.(refs := t.refs - 1)];
      if t.refs == 1 && !t.canceled {
        fired := fired + [h];
        timers := timers - {t.id};
      }
    }
  }
}
