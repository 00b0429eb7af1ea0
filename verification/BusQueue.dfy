/**
 Queue of firmware/core/bus/bus.h: a ring of Capacity + 1 slots between one producer thread and
 one consumer thread, with no lock but its two indices.  A push and a pop are several steps each;
 between any two of them the other thread may take any number of its own, and an index loaded may
 be one the other thread has since moved on from.
 */
module BusQueue {

  import opened Remainders

  // ----- the two threads

  datatype Producer<Item> =
    | AtRest
    | HeadLoaded(item: Item)
    | Refused
    | Cleared(item: Item)
    | Writing(item: Item)
    | Written(item: Item)

  datatype Consumer<Item> =
    | Resting
    | TailLoaded
    | Found
    | Reading
    | Taken(item: Item)

  // The fields, the threads, and what an onlooker has seen: every item accepted, every item
  // popped, how many pushes were tried and refused, and the latest indices each thread has loaded
  // of the other's, counted in items from the start.
  datatype State<Item> = State(
    slots: seq<Item>, head: nat, tail: nat, dropped: nat,
    producer: Producer<Item>, consumer: Consumer<Item>,
    accepted: seq<Item>, popped: seq<Item>, attempted: nat, refused: nat,
    tailSeen: nat, headSeen: nat)

  datatype Step<Item> =
    | LoadHead(item: Item)
    | AcquireTail(seen: nat)
    | CountDrop
    | BeginWrite(torn: Item)
    | EndWrite
    | ReleaseHead
    | LoadTail
    | AcquireHead(seen: nat)
    | BeginRead
    | EndRead
    | ReleaseTail

  const COUNTER: nat := 0x1_0000_0000

  // An acquiring load may be behind, but never behind an earlier one of its own thread.
  ghost predicate Enabled<Item>(s: State<Item>, step: Step<Item>) {
    match step
    case LoadHead(_) => s.producer.AtRest?
    case AcquireTail(seen) => s.producer.HeadLoaded? && s.tailSeen <= seen <= |s.popped|
    case CountDrop => s.producer.Refused?
    case BeginWrite(_) => s.producer.Cleared? && s.head < |s.slots|
    case EndWrite => s.producer.Writing? && s.head < |s.slots|
    case ReleaseHead => s.producer.Written? && |s.slots| > 0
    case LoadTail => s.consumer.Resting?
    case AcquireHead(seen) => s.consumer.TailLoaded? && s.headSeen <= seen <= |s.accepted| && |s.slots| > 0
    case BeginRead => s.consumer.Found?
    case EndRead => s.consumer.Reading? && s.tail < |s.slots|
    case ReleaseTail => s.consumer.Taken? && |s.slots| > 0
  }

  // The index an onlooker's count stands for.
  function Slot<Item>(s: State<Item>, count: nat): nat
    requires |s.slots| > 0
  {
    count % |s.slots|
  }

  ghost function Apply<Item>(s: State<Item>, step: Step<Item>): State<Item>
    requires Enabled(s, step) && |s.slots| > 0
  {
    match step
    case LoadHead(item) => s.(producer := HeadLoaded(item), attempted := s.attempted + 1)
    case AcquireTail(seen) =>
      s.(tailSeen := seen,
        producer := if (s.head + 1) % |s.slots| == Slot(s, seen) then Refused else Cleared(s.producer.item))
    case CountDrop => s.(dropped := (s.dropped + 1) % COUNTER, refused := s.refused + 1, producer := AtRest)
    case BeginWrite(torn) => s.(slots := s.slots[s.head := torn], producer := Writing(s.producer.item))
    case EndWrite => s.(slots := s.slots[s.head := s.producer.item], producer := Written(s.producer.item))
    case ReleaseHead =>
      s.(head := (s.head + 1) % |s.slots|, accepted := s.accepted + [s.producer.item], producer := AtRest)
    case LoadTail => s.(consumer := TailLoaded)
    case AcquireHead(seen) =>
      s.(headSeen := seen, consumer := if s.tail == Slot(s, seen) then Resting else Found)
    case BeginRead => s.(consumer := Reading)
    case EndRead => s.(consumer := Taken(s.slots[s.tail]))
    case ReleaseTail =>
      s.(tail := (s.tail + 1) % |s.slots|, popped := s.popped + [s.consumer.item], consumer := Resting)
  }

  ghost predicate Initial<Item>(s: State<Item>, capacity: nat) {
    && |s.slots| == capacity + 1 && s.head == s.tail == s.dropped == 0
    && s.producer.AtRest? && s.consumer.Resting? && s.accepted == s.popped == []
    && s.attempted == s.refused == s.tailSeen == s.headSeen == 0
  }

  // ----- what every step keeps

  ghost predicate Counts<Item>(s: State<Item>, capacity: nat) {
    && |s.slots| == capacity + 1
    && s.head == |s.accepted| % |s.slots| && s.tail == |s.popped| % |s.slots|
    && s.tailSeen <= |s.popped| <= s.headSeen <= |s.accepted| <= s.tailSeen + capacity
    && s.dropped == s.refused % COUNTER
    && s.attempted == |s.accepted| + s.refused + (if s.producer.AtRest? then 0 else 1)
  }

  // Both threads' verdicts still hold, however long ago the other's index was loaded.
  ghost predicate Verdicts<Item>(s: State<Item>, capacity: nat) {
    && (s.producer.Cleared? || s.producer.Writing? || s.producer.Written? ==> |s.accepted| < s.tailSeen + capacity)
    && (s.producer.Refused? ==> |s.accepted| == s.tailSeen + capacity)
    && (s.consumer.Found? || s.consumer.Reading? || s.consumer.Taken? ==> |s.popped| < s.headSeen)
  }

  ghost predicate Stored<Item>(s: State<Item>) {
    && |s.slots| > 0
    && (forall k :: |s.popped| <= k < |s.accepted| ==> s.slots[k % |s.slots|] == s.accepted[k])
    && (s.producer.Written? ==> s.slots[|s.accepted| % |s.slots|] == s.producer.item)
  }

  ghost predicate InOrder<Item>(s: State<Item>) {
    s.popped <= s.accepted
    && (s.consumer.Taken? ==> |s.popped| < |s.accepted| && s.consumer.item == s.accepted[|s.popped|])
  }

  ghost predicate Invariant<Item>(s: State<Item>, capacity: nat) {
    Counts(s, capacity) && Verdicts(s, capacity) && Stored(s) && InOrder(s)
  }

  lemma InitiallyInvariant<Item>(s: State<Item>, capacity: nat)
    requires Initial(s, capacity)
    ensures Invariant(s, capacity)
  {}

  // What next == tail means: the ring, as the producer last saw it, is full.
  lemma FullTest(pushed: nat, seen: nat, capacity: nat)
    requires seen <= pushed <= seen + capacity
    ensures (pushed % (capacity + 1) + 1) % (capacity + 1) == seen % (capacity + 1) <==> pushed == seen + capacity
  {
    var n := capacity + 1;
    NextIndex(pushed, n);
    if pushed == seen + capacity {
      OneTurnOn(seen, n);
    } else {
      DifferentSlots(seen, pushed + 1, n);
    }
  }

  lemma OneTurnOn(a: nat, n: nat)
    requires n > 0
    ensures (a + n) % n == a % n
  {
    var q := a / n;
    assert a == q * n + a % n;
    assert (q + 1) * n == q * n + n;
    Remainder(q + 1, n, a % n);
  }

  lemma EmptyTest(popped: nat, seen: nat, capacity: nat)
    requires popped <= seen <= popped + capacity
    ensures popped % (capacity + 1) == seen % (capacity + 1) <==> popped == seen
  {
    if popped < seen {
      DifferentSlots(popped, seen, capacity + 1);
    }
  }

  // The slot being written is none of those in flight.
  lemma WriteLeavesOthers<Item>(s: State<Item>, capacity: nat, x: Item)
    requires Invariant(s, capacity) && |s.accepted| < s.tailSeen + capacity
    ensures s.head < |s.slots|
    ensures forall k :: |s.popped| <= k < |s.accepted| ==> s.slots[s.head := x][k % |s.slots|] == s.accepted[k]
  {
    forall k | |s.popped| <= k < |s.accepted| ensures s.slots[s.head := x][k % |s.slots|] == s.accepted[k] {
      DifferentSlots(k, |s.accepted|, |s.slots|);
    }
  }

  lemma CountsKept<Item>(s: State<Item>, step: Step<Item>, capacity: nat)
    requires Counts(s, capacity) && Verdicts(s, capacity) && Enabled(s, step)
    ensures Counts(Apply(s, step), capacity)
    ensures Verdicts(Apply(s, step), capacity)
  {
    match step
    case AcquireTail(seen) => FullTest(|s.accepted|, seen, capacity);
    case AcquireHead(seen) => EmptyTest(|s.popped|, seen, capacity);
    case ReleaseHead => NextIndex(|s.accepted|, |s.slots|);
    case ReleaseTail => NextIndex(|s.popped|, |s.slots|);
    case CountDrop => NextIndex(s.refused, COUNTER);
    case _ =>
  }

  lemma StoredKept<Item>(s: State<Item>, step: Step<Item>, capacity: nat)
    requires Invariant(s, capacity) && Enabled(s, step)
    ensures Stored(Apply(s, step)) && InOrder(Apply(s, step))
  {
    match step
    case BeginWrite(torn) => WriteLeavesOthers(s, capacity, torn);
    case EndWrite => WriteLeavesOthers(s, capacity, s.producer.item);
    case EndRead => assert s.slots[|s.popped| % |s.slots|] == s.accepted[|s.popped|];
    case _ =>
  }

  lemma StepKeepsInvariant<Item>(s: State<Item>, step: Step<Item>, capacity: nat)
    requires Invariant(s, capacity) && Enabled(s, step)
    ensures Invariant(Apply(s, step), capacity)
  {
    hide Counts, Verdicts, Stored, InOrder, Enabled, Apply;
    assert |s.slots| > 0 by { SlotsPositive(s, capacity); }
    CountsKept(s, step, capacity);
    StoredKept(s, step, capacity);
  }

  lemma SlotsPositive<Item>(s: State<Item>, capacity: nat)
    requires Counts(s, capacity)
    ensures |s.slots| > 0
  {}

  // ----- whole runs

  ghost predicate IsRun<Item>(s: State<Item>, steps: seq<Step<Item>>)
    decreases |steps|
  {
    |s.slots| > 0 &&
    (|steps| == 0 || (Enabled(s, steps[0]) && IsRun(Apply(s, steps[0]), steps[1..])))
  }

  ghost function Run<Item>(s: State<Item>, steps: seq<Step<Item>>): State<Item>
    requires IsRun(s, steps)
    decreases |steps|
  {
    if |steps| == 0 then s else Run(Apply(s, steps[0]), steps[1..])
  }

  lemma {:induction false} RunKeepsInvariant<Item>(s: State<Item>, steps: seq<Step<Item>>, capacity: nat)
    requires Invariant(s, capacity) && IsRun(s, steps)
    ensures Invariant(Run(s, steps), capacity)
    decreases |steps|
  {
    if |steps| > 0 {
      hide Invariant, Enabled, Apply;
      StepKeepsInvariant(s, steps[0], capacity);
      RunKeepsInvariant(Apply(s, steps[0]), steps[1..], capacity);
    }
  }

  // The two threads never stand on one slot while one of them writes it.
  ghost predicate Raced<Item>(s: State<Item>) {
    s.producer.Writing? && s.consumer.Reading? && s.head == s.tail
  }

  // Over every interleaving: no race on a slot, what came out is what went in so far and in that
  // order, never more than Capacity in flight, and every push tried was accepted, refused and
  // counted (on a 32-bit counter), or is under way.
  lemma EveryInterleavingIsSafe<Item>(s: State<Item>, steps: seq<Step<Item>>, capacity: nat)
    requires Initial(s, capacity) && IsRun(s, steps)
    ensures var t := Run(s, steps);
      && !Raced(t)
      && t.popped <= t.accepted && |t.accepted| - |t.popped| <= capacity
      && t.attempted == |t.accepted| + t.refused + (if t.producer.AtRest? then 0 else 1)
      && t.dropped == t.refused % 0x1_0000_0000
  {
    var t := Run(s, steps);
    InitiallyInvariant(s, capacity);
    RunKeepsInvariant(s, steps, capacity);
    if Raced(t) {
      DifferentSlots(|t.popped|, |t.accepted|, |t.slots|);
    }
  }

  // A push is refused exactly when the ring is full by the tail it loaded, and a pop comes back
  // empty exactly when nothing is there by the head it loaded.
  lemma VerdictsAreRight<Item>(s: State<Item>, steps: seq<Step<Item>>, capacity: nat, seen: nat)
    requires Initial(s, capacity) && IsRun(s, steps)
    ensures var t := Run(s, steps);
      && (Enabled(t, AcquireTail(seen)) && |t.slots| > 0 ==>
            (Apply(t, AcquireTail(seen)).producer.Refused? <==> |t.accepted| == seen + capacity))
      && (Enabled(t, AcquireHead(seen)) && |t.slots| > 0 ==>
            (Apply(t, AcquireHead(seen)).consumer.Resting? <==> |t.popped| == seen))
  {
    var t := Run(s, steps);
    InitiallyInvariant(s, capacity);
    RunKeepsInvariant(s, steps, capacity);
    if Enabled(t, AcquireTail(seen)) { FullTest(|t.accepted|, seen, capacity); }
    if Enabled(t, AcquireHead(seen)) { EmptyTest(|t.popped|, seen, capacity); }
  }

  // ----- one thread at a time

  class Queue<Item(0)> {
    const slots: array<Item>
    var head: nat
    var tail: nat
    var dropped: nat
    ghost var state: State<Item>

    // The fields are the state's, and neither thread is in the middle of anything.
    ghost predicate Valid()
      reads this, slots
    {
      && slots.Length > 0 && Invariant(state, slots.Length - 1)
      && state.producer.AtRest? && state.consumer.Resting?
      && slots[..] == state.slots && head == state.head && tail == state.tail && dropped == state.dropped
    }

    // The items in flight, oldest first.
    ghost function Contents(): seq<Item>
      reads this, slots
      requires Valid()
    {
      state.accepted[|state.popped|..]
    }

    constructor (capacity: nat, blank: Item)
      ensures Valid() && fresh(slots) && slots.Length == capacity + 1 && Contents() == [] && dropped == 0
    {
      slots := new Item[capacity + 1](_ => blank);
      head, tail, dropped := 0, 0, 0;
      new;
      state := State(slots[..], 0, 0, 0, AtRest, Resting, [], [], 0, 0, 0, 0);
      InitiallyInvariant(state, capacity);
    }

    method Push(item: Item) returns (ok: bool)
      requires Valid()
      modifies this, slots
      ensures Valid() && ok == (|old(Contents())| < slots.Length - 1)
      ensures Contents() == if ok then old(Contents()) + [item] else old(Contents())
      ensures dropped == if ok then old(dropped) else (old(dropped) + 1) % 0x1_0000_0000
    {
      ghost var capacity := slots.Length - 1;
      ghost var s0 := state;
      ghost var s1 := Apply(s0, LoadHead(item));
      StepKeepsInvariant(s0, LoadHead(item), capacity);
      var next := (head + 1) % slots.Length;
      ghost var s2 := Apply(s1, AcquireTail(|s1.popped|));
      StepKeepsInvariant(s1, AcquireTail(|s1.popped|), capacity);
      if next == tail {
        StepKeepsInvariant(s2, CountDrop, capacity);
        dropped := (dropped + 1) % COUNTER;
        state := Apply(s2, CountDrop);
        return false;
      }
      ghost var s3 := Apply(s2, BeginWrite(item));
      StepKeepsInvariant(s2, BeginWrite(item), capacity);
      slots[head] := item;
      ghost var s4 := Apply(s3, EndWrite);
      StepKeepsInvariant(s3, EndWrite, capacity);
      head := next;
      StepKeepsInvariant(s4, ReleaseHead, capacity);
      state := Apply(s4, ReleaseHead);
      ok := true;
    }

    method Pop(blank: Item) returns (ok: bool, out: Item)
      requires Valid()
      modifies this
      ensures Valid() && ok == (old(Contents()) != []) && dropped == old(dropped)
      ensures ok ==> [out] + Contents() == old(Contents())
      ensures !ok ==> Contents() == old(Contents()) && out == blank
    {
      hide Stored, Verdicts, Looked, Took, Apply;
      out := blank;
      ghost var s0 := state;
      ghost var s2 := Looked(s0);
      LookedIsInvariant(s0, slots.Length - 1);
      if tail == head {
        state := s2;
        return false, out;
      }
      TookIsInvariant(s2, slots.Length - 1);
      out := slots[tail];
      tail := (tail + 1) % slots.Length;
      state := Took(s2);
      ok := true;
    }
  }

  // The consumer's first two steps, undisturbed, and its last three.
  ghost function Looked<Item>(s: State<Item>): State<Item>
    requires |s.slots| > 0 && s.consumer.Resting? && s.headSeen <= |s.accepted|
  {
    Apply(Apply(s, LoadTail), AcquireHead(|s.accepted|))
  }

  ghost function Took<Item>(s: State<Item>): State<Item>
    requires |s.slots| > 0 && s.consumer.Found? && s.tail < |s.slots|
  {
    Apply(Apply(Apply(s, BeginRead), EndRead), ReleaseTail)
  }

  lemma LookedIsInvariant<Item>(s: State<Item>, capacity: nat)
    requires Invariant(s, capacity) && s.consumer.Resting?
    ensures Invariant(Looked(s), capacity)
    ensures Looked(s).consumer == if s.tail == s.head then Resting else Found
    ensures s.tail == s.head <==> s.popped == s.accepted
    ensures Looked(s) == s.(headSeen := |s.accepted|, consumer := Looked(s).consumer)
  {
    StepKeepsInvariant(s, LoadTail, capacity);
    StepKeepsInvariant(Apply(s, LoadTail), AcquireHead(|s.accepted|), capacity);
    EmptyTest(|s.popped|, |s.accepted|, capacity);
  }

  lemma TookIsInvariant<Item>(s: State<Item>, capacity: nat)
    requires Invariant(s, capacity) && s.consumer.Found?
    ensures s.tail < |s.slots| && |s.popped| < |s.accepted| && s.slots[s.tail] == s.accepted[|s.popped|]
    ensures Invariant(Took(s), capacity)
    ensures Took(s) == s.(tail := (s.tail + 1) % |s.slots|, popped := s.popped + [s.slots[s.tail]], consumer := Resting)
  {
    var t := Apply(s, BeginRead);
    StepKeepsInvariant(s, BeginRead, capacity);
    StepKeepsInvariant(t, EndRead, capacity);
    StepKeepsInvariant(Apply(t, EndRead), ReleaseTail, capacity);
  }
}
