/** A ring of slots read as the sequence it holds, oldest first. */
module Rings {
  import opened Remainders

  // The slot so far round from the head.
  function Slot(head: nat, i: nat, n: nat): (slot: nat)
    requires n > 0
    ensures slot < n
  {
    (head + i) % n
  }

  function Held<T>(slots: seq<T>, head: nat, count: nat): (s: seq<T>)
    requires head < |slots| && count <= |slots|
    ensures |s| == count
  {
    seq(count, i requires 0 <= i < count => slots[Slot(head, i, |slots|)])
  }

  lemma SlotsApart(head: nat, i: nat, j: nat, n: nat)
    requires i < j < i + n
    ensures Slot(head, i, n) != Slot(head, j, n)
  {
    DifferentSlots(head + i, head + j, n);
  }

  // The head itself, and the ring seen from one slot on.
  lemma SlotsMove(head: nat, i: nat, n: nat)
    requires head < n
    ensures Slot(head, 0, n) == head && Slot(Slot(head, 1, n), i, n) == Slot(head, i + 1, n)
  {
    Remainder(0, n, head);
    Shifted(head + 1, i, n);
  }

  lemma Shifted(a: nat, i: nat, n: nat)
    requires n > 0
    ensures (a % n + i) % n == (a + i) % n
  {
    var q, r := a / n, a % n;
    var p, s := (r + i) / n, (r + i) % n;
    assert a == q * n + r;
    assert r + i == p * n + s;
    SumOfTurns(q, p, s, n);
  }

  lemma SumOfTurns(q: nat, p: nat, s: nat, n: nat)
    requires s < n
    ensures (q * n + p * n + s) % n == s
  {
    assert (q + p) * n == q * n + p * n;
    Remainder(q + p, n, s);
  }

  // A store past the newest adds to the end.
  lemma HeldStore<T>(slots: seq<T>, head: nat, count: nat, x: T)
    requires head < |slots| && count < |slots|
    ensures Held(slots[Slot(head, count, |slots|) := x], head, count + 1) == Held(slots, head, count) + [x]
  {
    hide Slot;
    var n := |slots|;
    var after := slots[Slot(head, count, n) := x];
    forall i | 0 <= i < count ensures Held(after, head, count + 1)[i] == Held(slots, head, count)[i] {
      SlotsApart(head, i, count, n);
    }
  }

  // Moving the head on takes the oldest away.
  lemma HeldTake<T>(slots: seq<T>, head: nat, count: nat)
    requires head < |slots| && 0 < count <= |slots|
    ensures Held(slots, head, count) == [slots[head]] + Held(slots, Slot(head, 1, |slots|), count - 1)
  {
    hide Slot;
    var n := |slots|;
    var before, after := Held(slots, head, count), Held(slots, Slot(head, 1, n), count - 1);
    SlotsMove(head, 0, n);
    forall i | 0 <= i < count - 1 ensures after[i] == before[i + 1] {
      SlotsMove(head, i, n);
    }
  }
}
