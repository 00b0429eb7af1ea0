/**
 Recorder of firmware/core/diagnostics: a bounded ring of records that tells, in its own place, of
 every record it had no room for.
 */
module Recorder {
  import opened Rings

  datatype Instant = Instant(seconds: int, into: int)

  datatype Record = Record(kind: nat, at: Instant, value: int)

  // What is stored: a record as it came, or the gap left by those refused since the last.
  datatype Entry = Item(record: Record) | Gap(dropped: nat, from: Instant, to: Instant, total: nat)

  // What the ring was offered and made of it.
  datatype Offer = Taken(record: Record) | Refused(record: Record)

  const MAX_RECORDS: nat := 64

  ghost function Refusals(offers: seq<Offer>): nat {
    if |offers| == 0 then 0 else Refusals(offers[..|offers| - 1]) + (if offers[|offers| - 1].Refused? then 1 else 0)
  }

  // The last n were refused, the first and the last of them at these instants.
  ghost predicate EndsRefused(offers: seq<Offer>, n: nat, from: Instant, to: Instant) {
    && 0 < n <= |offers| && offers[|offers| - n].record.at == from && offers[|offers| - 1].record.at == to
    && forall i :: |offers| - n <= i < |offers| ==> offers[i].Refused?
  }

  // The entries tell of the offers: every record taken, in order, and before the record that
  // follows a run of refusals the gaps that say how many, from when to when, and how many in all.
  ghost predicate Tells(entries: seq<Entry>, offers: seq<Offer>) {
    if |entries| == 0 then offers == []
    else
      var front, last := entries[..|entries| - 1], entries[|entries| - 1];
      match last
      case Item(record) =>
        |offers| > 0 && offers[|offers| - 1] == Taken(record) && Tells(front, offers[..|offers| - 1])
      case Gap(n, from, to, total) =>
        EndsRefused(offers, n, from, to) && total == Refusals(offers) && Tells(front, offers[..|offers| - n])
  }

  ghost function Gaps(entries: seq<Entry>): nat {
    if |entries| == 0 then 0
    else Gaps(entries[..|entries| - 1]) + (match entries[|entries| - 1] case Item(_) => 0 case Gap(n, _, _, _) => n)
  }

  lemma {:induction false} RefusalsAtEnd(offers: seq<Offer>, n: nat)
    requires n <= |offers| && forall i :: |offers| - n <= i < |offers| ==> offers[i].Refused?
    ensures Refusals(offers) == Refusals(offers[..|offers| - n]) + n
  {
    if n > 0 {
      var front := offers[..|offers| - 1];
      RefusalsAtEnd(front, n - 1);
      assert front[..|front| - (n - 1)] == offers[..|offers| - n];
    } else {
      assert offers[..|offers|] == offers;
    }
  }

  // The gaps told add up to the records refused.
  lemma {:induction false} GapsAddUp(entries: seq<Entry>, offers: seq<Offer>)
    requires Tells(entries, offers)
    ensures Gaps(entries) == Refusals(offers)
  {
    if |entries| > 0 {
      var front := entries[..|entries| - 1];
      match entries[|entries| - 1]
      case Item(_) => GapsAddUp(front, offers[..|offers| - 1]);
      case Gap(n, _, _, _) =>
        GapsAddUp(front, offers[..|offers| - n]);
        RefusalsAtEnd(offers, n);
    }
  }

  class Recorder {
    const ring: array<Entry>
    var head: nat
    var count: nat
    var written: nat
    var dropped: nat
    var gapDropped: nat
    var gapFrom: Instant
    var gapTo: Instant
    var profile: set<nat>
    var armed: bool
    // Since it was armed: everything offered, everything stored, and how much of that was committed.
    ghost var offers: seq<Offer>
    ghost var stored: seq<Entry>
    ghost var committed: nat

    ghost predicate Shaped()
      reads this
    {
      ring.Length == MAX_RECORDS && head < MAX_RECORDS && count <= MAX_RECORDS
    }

    ghost function Queued(): seq<Entry>
      reads this, ring
      requires Shaped()
    {
      Held(ring[..], head, count)
    }

    // The offers no stored entry tells of yet are the gap still pending.
    ghost predicate IsTold()
      reads this
    {
      && gapDropped <= |offers| && Tells(stored, offers[..|offers| - gapDropped])
      && (gapDropped > 0 ==> EndsRefused(offers, gapDropped, gapFrom, gapTo))
    }

    ghost predicate Valid()
      reads this, ring
    {
      && Shaped() && IsTold() && committed <= |stored| && Queued() == stored[committed..]
      && written == |stored| && dropped == Refusals(offers)
    }

    constructor ()
      ensures Valid() && !armed && fresh(ring)
    {
      ring := new Entry[MAX_RECORDS](_ => Gap(0, Instant(0, 0), Instant(0, 0), 0));
      head, count, written, dropped, gapDropped := 0, 0, 0, 0, 0;
      gapFrom, gapTo, profile, armed := Instant(0, 0), Instant(0, 0), {}, false;
      offers, stored, committed := [], [], 0;
    }

    method Arm(profile: set<nat>)
      requires Valid()
      modifies this
      ensures Valid() && armed
      ensures !old(armed) ==> offers == [] && stored == [] && this.profile == profile
      ensures old(armed) ==> offers == old(offers) && stored == old(stored) && this.profile == old(this.profile)
    {
      if armed {
        return;
      }
      head, count, written, dropped, gapDropped := 0, 0, 0, 0, 0;
      this.profile := profile;
      armed := true;
      offers, stored, committed := [], [], 0;
    }

    // disarm: nothing more is offered, and what is stored can still be peeked and committed.
    method Disarm()
      requires Valid()
      modifies this`armed
      ensures Valid() && !armed
    {
      armed := false;
    }

    // record: offered to the ring only when armed and of a type the profile lists.
    method Offer(record: Record) returns (ok: bool)
      requires Valid()
      modifies this, ring
      ensures Valid() && armed == old(armed) && committed == old(committed)
      ensures !armed || record.kind !in old(profile) ==> !ok && offers == old(offers) && stored == old(stored)
      ensures armed && record.kind in old(profile) ==>
        offers == old(offers) + [if ok then Taken(record) else Refused(record)]
        && ok == (old(count) + (if old(gapDropped) > 0 then 1 else 0) < 64)
      ensures ok ==> old(stored) < stored && stored[|stored| - 1] == Item(record)
    {
      if !armed {
        return false;
      }
      ok := Push(record);
    }

    method Push(record: Record) returns (ok: bool)
      requires Valid()
      modifies this`count, this`written, this`dropped, this`gapDropped, this`gapFrom, this`gapTo
      modifies this`offers, this`stored, ring
      ensures Valid()
      ensures record.kind !in profile ==> !ok && offers == old(offers) && stored == old(stored)
      ensures record.kind in profile ==> offers == old(offers) + [if ok then Taken(record) else Refused(record)]
      ensures record.kind in profile ==> ok == (old(count) + (if old(gapDropped) > 0 then 1 else 0) < 64)
      ensures ok ==> old(stored) < stored && stored[|stored| - 1] == Item(record)
    {
      hide Tells, Held, Refusals, EndsRefused;
      if record.kind !in profile {
        return false;
      }
      FlushGap();
      if count == MAX_RECORDS {
        NoteDrop(record);
        return false;
      }
      TakeItem(record);
      ok := true;
    }

    method TakeItem(record: Record)
      requires Valid() && gapDropped == 0 && count < MAX_RECORDS
      modifies this`count, this`written, this`offers, this`stored, ring
      ensures Valid() && stored == old(stored) + [Item(record)] && offers == old(offers) + [Taken(record)]
    {
      hide Tells, Held, Refusals, EndsRefused;
      TakenIsTold(stored, offers, record);
      Store(Item(record));
      offers := offers + [Taken(record)];
      assert offers[..|offers|] == offers;
    }

    method Store(entry: Entry)
      requires Shaped() && count < MAX_RECORDS && committed <= |stored| && Queued() == stored[committed..]
      modifies this`count, this`written, this`stored, ring
      ensures stored == old(stored) + [entry] && Shaped() && Queued() == stored[committed..]
      ensures count == old(count) + 1 && written == old(written) + 1
    {
      HeldStore(ring[..], head, count, entry);
      ring[(head + count) % MAX_RECORDS] := entry;
      count := count + 1;
      written := written + 1;
      stored := stored + [entry];
    }

    method NoteDrop(record: Record)
      requires Valid()
      modifies this`dropped, this`gapDropped, this`gapFrom, this`gapTo, this`offers
      ensures Valid() && offers == old(offers) + [Refused(record)]
    {
      hide Tells, Held;
      if gapDropped == 0 {
        gapFrom := record.at;
      }
      gapTo := record.at;
      assert (offers + [Refused(record)])[..|offers|] == offers;
      offers := offers + [Refused(record)];
      gapDropped := gapDropped + 1;
      dropped := dropped + 1;
      assert offers[..|offers| - gapDropped] == old(offers)[..|old(offers)| - old(gapDropped)];
    }

    method FlushGap()
      requires Valid()
      modifies this`count, this`written, this`gapDropped, this`stored, ring
      ensures Valid() && (gapDropped > 0 <==> old(gapDropped) > 0 && old(count) == 64)
      ensures stored == if old(gapDropped) > 0 && gapDropped == 0
        then old(stored) + [Gap(old(gapDropped), gapFrom, gapTo, dropped)] else old(stored)
      ensures count == old(count) + (if old(gapDropped) > 0 && old(count) < MAX_RECORDS then 1 else 0)
    {
      if gapDropped == 0 || count == MAX_RECORDS {
        return;
      }
      var gap := Gap(gapDropped, gapFrom, gapTo, dropped);
      GapIsTold(stored, offers, gap);
      gapDropped := 0;
      assert offers[..|offers|] == offers;
      Store(gap);
    }

    // peek: the oldest few, a pending gap told first if there is room for it.
    method Peek(most: nat) returns (run: seq<Entry>)
      requires Valid()
      modifies this`count, this`written, this`gapDropped, this`stored, ring
      ensures Valid() && (gapDropped > 0 <==> old(gapDropped) > 0 && old(count) == 64)
      ensures stored == if old(gapDropped) > 0 && gapDropped == 0
        then old(stored) + [Gap(old(gapDropped), gapFrom, gapTo, dropped)] else old(stored)
      ensures |run| == (if |Queued()| < most then |Queued()| else most) && run <= stored[committed..]
    {
      FlushGap();
      run := Oldest(if count < most then count else most);
    }

    method Oldest(n: nat) returns (run: seq<Entry>)
      requires Shaped() && n <= count
      ensures run == Queued()[..n]
    {
      run := [];
      for i := 0 to n
        invariant |run| == i && run == Queued()[..i]
      {
        run := run + [ring[(head + i) % MAX_RECORDS]];
      }
    }

    // commit: the oldest is gone for good.
    method Commit()
      requires Valid()
      modifies this`head, this`count, this`committed
      ensures Valid() && committed == (if old(committed) < |stored| then old(committed) + 1 else old(committed))
    {
      hide Tells, Held, Refusals, EndsRefused;
      if count == 0 {
        return;
      }
      HeldTake(ring[..], head, count);
      assert stored[committed..] == [stored[committed]] + stored[committed + 1..];
      assert (head + 1) % MAX_RECORDS == Slot(head, 1, MAX_RECORDS);
      head := (head + 1) % MAX_RECORDS;
      count := count - 1;
      committed := committed + 1;
    }
  }

  lemma TakenIsTold(stored: seq<Entry>, offers: seq<Offer>, record: Record)
    requires Tells(stored, offers[..|offers|])
    ensures Tells(stored + [Item(record)], offers + [Taken(record)])
    ensures Refusals(offers + [Taken(record)]) == Refusals(offers)
  {
    assert (stored + [Item(record)])[..|stored|] == stored;
    assert (offers + [Taken(record)])[..|offers|] == offers == offers[..|offers|];
  }

  lemma GapIsTold(stored: seq<Entry>, offers: seq<Offer>, gap: Entry)
    requires gap.Gap? && EndsRefused(offers, gap.dropped, gap.from, gap.to) && gap.total == Refusals(offers)
    requires Tells(stored, offers[..|offers| - gap.dropped])
    ensures Tells(stored + [gap], offers)
  {
    assert (stored + [gap])[..|stored|] == stored;
  }

  // Since it was armed: the gaps stored and the one pending account for every record refused.
  lemma EveryDropIsTold(r: Recorder)
    requires r.Valid()
    ensures Gaps(r.stored) + r.gapDropped == r.dropped && r.written == r.committed + r.count
  {
    GapsAddUp(r.stored, r.offers[..|r.offers| - r.gapDropped]);
    RefusalsAtEnd(r.offers, r.gapDropped);
  }
}
