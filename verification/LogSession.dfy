/**
 LogSession of firmware/core/flight: which samples a flight log holds, kept in a ring of sixty that
 turns over on the ground and is owed to the writer from the moment a session opens.
 */
module LogSession {
  import opened Rings

  // What an own-ship sample says, as far as the log asks.
  datatype Ownship = Ownship(airborne: bool, hovers: bool, fixValid: bool, utcValid: bool, utc: nat, position: int)

  datatype LogRecord = LogRecord(utc: nat, position: int, sessionEnd: bool)

  datatype Action = Idle | OpenSession | AppendRecord | CloseSession

  datatype Fate = Committed | Dropped

  // What a session took, and what became of it.
  datatype Flight = Flight(taken: seq<LogRecord>, fates: seq<Fate>)

  // One pass of the flight log service: what it is told, and how many records the flash will take.
  datatype Pass = Pass(own: Ownship, rolling: bool, now: nat, room: nat)

  const PRE_TAKEOFF_RECORDS: nat := 60
  const RECORD_PERIOD_MS: nat := 1000
  const STILL_HOLD_MS: nat := 120000
  const WRAP: nat := 0x1_0000_0000

  function Elapsed(now: nat, since: nat): nat {
    (now - since) % WRAP
  }

  function RecordFrom(own: Ownship): LogRecord {
    LogRecord(own.utc, own.position, false)
  }

  ghost function Losses(fates: seq<Fate>): nat {
    if |fates| == 0 then 0 else Losses(fates[..|fates| - 1]) + (if fates[|fates| - 1] == Dropped then 1 else 0)
  }

  // The records among these that were committed, in order.
  ghost function Kept(taken: seq<LogRecord>, fates: seq<Fate>): seq<LogRecord> {
    if |fates| == 0 then []
    else
      var n := |fates| - 1;
      Kept(taken, fates[..n]) + (if fates[n] == Committed && n < |taken| then [taken[n]] else [])
  }

  ghost function KeptOf(past: seq<Flight>): seq<LogRecord> {
    if |past| == 0 then []
    else KeptOf(past[..|past| - 1]) + Kept(past[|past| - 1].taken, past[|past| - 1].fates)
  }

  ghost function LossesOf(past: seq<Flight>): nat {
    if |past| == 0 then 0 else LossesOf(past[..|past| - 1]) + Losses(past[|past| - 1].fates)
  }

  ghost function TakenOf(past: seq<Flight>): nat {
    if |past| == 0 then 0 else TakenOf(past[..|past| - 1]) + |past[|past| - 1].taken|
  }

  ghost predicate AreOver(past: seq<Flight>) {
    forall i :: 0 <= i < |past| ==> |past[i].fates| == |past[i].taken|
  }

  // The log is what was kept of every session, in order, and the losses counted are the rest.
  ghost predicate Accounts(log: seq<LogRecord>, past: seq<Flight>, taken: seq<LogRecord>, fates: seq<Fate>, lost: int) {
    && AreOver(past) && log == KeptOf(past) + Kept(taken, fates) && lost == LossesOf(past) + Losses(fates)
  }

  class LogSession {
    const ring: array<LogRecord>
    var head: nat
    var count: nat
    var toFlush: nat
    var dropped: nat
    var sessionId: nat
    var lastSample: nat
    var lastRolled: nat
    var sampled: bool
    var open: bool
    var closing: bool
    // Since the log was last erased: every record the writer committed, the sessions that are over,
    // and the one under way or last closed, every record it took, in order, and what became of the
    // oldest of them.
    ghost var log: seq<LogRecord>
    ghost var past: seq<Flight>
    ghost var taken: seq<LogRecord>
    ghost var fates: seq<Fate>
    ghost var lostBefore: nat

    ghost predicate Shaped()
      reads this
    {
      ring.Length == PRE_TAKEOFF_RECORDS && head < PRE_TAKEOFF_RECORDS && toFlush <= count <= PRE_TAKEOFF_RECORDS
    }

    ghost function Queued(): seq<LogRecord>
      reads this, ring
      requires Shaped()
    {
      Held(ring[..], head, count)
    }

    // What the ring holds is owed to the writer.
    ghost predicate IsOwed()
      reads this
    {
      open || closing
    }

    ghost predicate Valid()
      reads this, ring
    {
      && Shaped() && !(open && closing)
      && (closing ==> toFlush == count) && (!closing ==> toFlush == 0)
      && |fates| <= |taken| && Accounts(log, past, taken, fates, dropped - lostBefore)
      && (IsOwed() ==> Queued() == taken[|fates|..])
      && (!IsOwed() ==> |fates| == |taken|)
    }

    constructor ()
      ensures Valid() && fresh(ring) && !open && !closing && taken == [] && log == [] && past == [] && dropped == 0
    {
      ring := new LogRecord[PRE_TAKEOFF_RECORDS](_ => LogRecord(0, 0, false));
      head, count, toFlush, dropped, sessionId, lastSample, lastRolled := 0, 0, 0, 0, 0, 0, 0;
      sampled, open, closing := false, false, false;
      log, past, taken, fates, lostBefore := [], [], [], [], 0;
    }

    // A sample goes in, over the oldest when there is no room.  No session is closing then, so there
    // is nothing left to flush.
    method Push(record: LogRecord)
      requires Valid() && !closing
      modifies this`head, this`count, this`dropped, this`fates, this`taken, ring
      ensures Valid() && Queued() == After(old(Queued()), record)
      ensures open ==> taken == old(taken) + [record] && fates == LostOne(old(fates), old(count))
      ensures !open ==> taken == old(taken) && fates == old(fates)
    {
      hide Held, Losses, LossesOf, Kept, KeptOf;
      if count == PRE_TAKEOFF_RECORDS {
        LoseOldest();
      }
      ghost var slots, queue := ring[..], Queued();
      HeldStore(slots, head, count, record);
      assert (head + count) % PRE_TAKEOFF_RECORDS == Slot(head, count, PRE_TAKEOFF_RECORDS);
      ring[(head + count) % PRE_TAKEOFF_RECORDS] := record;
      assert ring[..] == slots[Slot(head, count, PRE_TAKEOFF_RECORDS) := record];
      count := count + 1;
      assert Queued() == queue + [record];
      if open {
        assert (taken + [record])[|fates|..] == taken[|fates|..] + [record];
        KeptOfMore(taken, record, fates);
        taken := taken + [record];
      }
    }

    // On the ground the window is meant to turn over; owed to a session, the oldest is a loss.
    method LoseOldest()
      requires Valid() && !closing && count > 0
      modifies this`head, this`count, this`dropped, this`fates
      ensures Valid() && Queued() == old(Queued())[1..] && count == old(count) - 1
      ensures fates == if open then old(fates) + [Fate.Dropped] else old(fates)
    {
      hide Held, Losses, LossesOf, Kept, KeptOf;
      HeldTake(ring[..], head, count);
      assert (head + 1) % PRE_TAKEOFF_RECORDS == Slot(head, 1, PRE_TAKEOFF_RECORDS);
      head := (head + 1) % PRE_TAKEOFF_RECORDS;
      count := count - 1;
      if open || closing {
        dropped := dropped + 1;
        OneMoreFate(taken, fates, Fate.Dropped);
        fates := fates + [Fate.Dropped];
      }
    }

    // peek: only what a session is owed, never a sample of the ground after it.
    method Peek() returns (out: Option<LogRecord>)
      requires Valid()
      modifies this`closing
      ensures Valid() && open == old(open) && out.Some? == (old(IsOwed()) && count > 0)
      ensures out.Some? ==> closing == old(closing) && |fates| < |taken| && out.value == taken[|fates|]
      ensures out == None && !open ==> !closing && |fates| == |taken|
    {
      if !open && toFlush == 0 {
        closing := false;
        return None;
      }
      if count == 0 {
        closing := false;
        return None;
      }
      HeldTake(ring[..], head, count);
      out := Some(ring[head]);
    }

    // commit: the oldest, the record peek shows, is written; or, with no session, let go.
    method Commit()
      requires Valid()
      modifies this`head, this`count, this`toFlush, this`closing, this`fates, this`log
      ensures Valid() && open == old(open)
      ensures log == if old(IsOwed()) && old(count) > 0 then old(log) + [taken[|old(fates)|]] else old(log)
      ensures fates == if old(IsOwed()) && old(count) > 0 then old(fates) + [Fate.Committed] else old(fates)
      ensures Queued() == if old(count) > 0 then old(Queued())[1..] else old(Queued())
      ensures closing == (old(closing) && (old(count) == 0 || count > 0))
    {
      hide Held, Losses, LossesOf, Kept, KeptOf;
      if count == 0 {
        return;
      }
      HeldTake(ring[..], head, count);
      assert (head + 1) % PRE_TAKEOFF_RECORDS == Slot(head, 1, PRE_TAKEOFF_RECORDS);
      OneMoreFate(taken, fates, Fate.Committed);
      if IsOwed() {
        log := log + [taken[|fates|]];
        fates := fates + [Fate.Committed];
      }
      head := (head + 1) % PRE_TAKEOFF_RECORDS;
      count := count - 1;
      if toFlush > 0 {
        toFlush := toFlush - 1;
      }
      if !open && toFlush == 0 {
        closing := false;
      }
    }

    // reset, after the log itself was erased.
    method Reset()
      requires Valid()
      modifies this`head, this`count, this`toFlush, this`sessionId, this`sampled, this`open, this`closing
      modifies this`log, this`past, this`taken, this`fates, this`lostBefore
      ensures Valid() && !open && !closing && !sampled && sessionId == 0 && Queued() == []
    {
      hide Held, Accounts;
      ClearRing();
      log, past, taken, fates, lostBefore := [], [], [], [], dropped;
      NothingTaken();
    }

    method ClearRing()
      requires Shaped()
      modifies this`head, this`count, this`toFlush, this`sessionId, this`sampled, this`open, this`closing
      ensures Shaped() && toFlush == count == sessionId == 0 && !sampled && !open && !closing
    {
      head, count, toFlush, sessionId := 0, 0, 0, 0;
      sampled, open, closing := false, false, false;
    }

    // A second since the last sample.
    ghost predicate IsDue(now: nat)
      reads this
    {
      !sampled || Elapsed(now, lastSample) >= RECORD_PERIOD_MS
    }

    // flying.
    method IsFlying(own: Ownship, rolling: bool, now: nat) returns (flying: bool)
      requires Valid()
      modifies this`lastRolled
      ensures Valid() && flying == InFlight(own, rolling, now, open, old(lastRolled))
      ensures lastRolled == if !own.airborne && own.hovers && rolling then now else old(lastRolled)
    {
      if own.airborne {
        return true;
      }
      if !own.hovers {
        return false;
      }
      if rolling {
        lastRolled := now;
        return true;
      }
      flying := open && Elapsed(now, lastRolled) < STILL_HOLD_MS;
    }

    // A session is open while the craft flies: airborne, or of a kind that can hover and rolling, or,
    // with a session open, having rolled under two minutes ago.  While it is, and while it is on the
    // ground, one sample a second with position and time is kept.
    method Update(own: Ownship, rolling: bool, now: nat) returns (action: Action)
      requires Valid()
      modifies this`head, this`count, this`dropped, this`fates, this`taken, this`open, this`closing, this`toFlush
      modifies this`sampled, this`lastSample, this`lastRolled, this`sessionId, this`past, ring
      ensures Valid()
      ensures action == CloseSession <==> old(open) && !old(IsAloft(own, rolling, now))
      ensures action == AppendRecord <==> old(open) && old(IsAloft(own, rolling, now)) && old(IsTaken(own, now))
      ensures action == OpenSession <==>
        !old(open) && !old(closing) && old(IsAloft(own, rolling, now)) && old(IsTaken(own, now))
      ensures action == OpenSession ==>
        && open && fates == []
        && taken == (if |old(Queued())| == 60 then old(Queued())[1..] else old(Queued())) + [LogRecord(own.utc, own.position, false)]
        && sessionId == taken[0].utc
        && past == old(past) + [Flight(old(taken), old(fates))]
      ensures action == AppendRecord ==>
        && open && taken == old(taken) + [LogRecord(own.utc, own.position, false)]
        && fates == if old(count) == 60 then old(fates) + [Fate.Dropped] else old(fates)
      ensures open <==> action == OpenSession || (old(open) && action != CloseSession)
      ensures action == CloseSession ==> closing
      ensures action == CloseSession && own.fixValid && own.utcValid ==>
        && taken == old(taken) + [LogRecord(own.utc, own.position, true)]
        && fates == if old(count) == 60 then old(fates) + [Fate.Dropped] else old(fates)
      ensures action == CloseSession && !(own.fixValid && own.utcValid) ==> taken == old(taken) && fates == old(fates)
      ensures action == Idle ==>
        && open == old(open) && closing == old(closing) && taken == old(taken) && fates == old(fates)
        && Queued() == (if old(IsTaken(own, now)) && !IsOwed() then
             (if |old(Queued())| == 60 then old(Queued())[1..] else old(Queued())) + [LogRecord(own.utc, own.position, false)]
           else old(Queued()))
      ensures if action != CloseSession && old(IsTaken(own, now)) then sampled && lastSample == now
        else sampled == old(sampled) && lastSample == old(lastSample)
      ensures lastRolled == if !own.airborne && own.hovers && rolling then now else old(lastRolled)
      ensures action != OpenSession ==> sessionId == old(sessionId) && past == old(past)
    {
      hide Held, Losses, Elapsed, LossesOf, Kept, KeptOf;
      ReadingsAre(own, rolling, now);
      var flying := IsFlying(own, rolling, now);
      if open && !flying {
        CloseNow(own);
        return CloseSession;
      }
      action := Sample(own, flying, now);
    }

    ghost predicate IsAloft(own: Ownship, rolling: bool, now: nat)
      reads this
    {
      || own.airborne
      || (own.hovers && (rolling || (open && (now - lastRolled) % 0x1_0000_0000 < 120_000)))
    }

    // A sample with position and time, the first or a second after the last.
    ghost predicate IsTaken(own: Ownship, now: nat)
      reads this
    {
      own.fixValid && own.utcValid && (!sampled || (now - lastSample) % 0x1_0000_0000 >= 1000)
    }

    lemma ReadingsAre(own: Ownship, rolling: bool, now: nat)
      ensures IsAloft(own, rolling, now) <==> InFlight(own, rolling, now, open, lastRolled)
      ensures IsTaken(own, now) <==> IsUsable(own) && IsDue(now)
    {}

    // The flight log service's drain: records go to the flash until it has room for no more.
    method Drain(room: nat) returns (drained: seq<LogRecord>)
      requires Valid()
      modifies this`head, this`count, this`toFlush, this`closing, this`fates, this`log
      ensures Valid() && open == old(open)
      ensures log == old(log) + drained && fates == old(fates) + AllCommitted(|drained|)
      ensures old(IsOwed()) ==> |drained| == if room < old(count) then room else old(count)
      ensures old(IsOwed()) ==> drained == old(Queued())[..|drained|] && Queued() == old(Queued())[|drained|..]
      ensures !old(IsOwed()) ==> drained == [] && Queued() == old(Queued())
      ensures closing ==> old(closing) && room < old(count)
    {
      hide Held, Accounts, Losses, LossesOf, Kept, KeptOf, Slot;
      drained := [];
      while true
        invariant Valid() && open == old(open) && |drained| <= room
        invariant log == old(log) + drained && fates == old(fates) + AllCommitted(|drained|)
        invariant if old(IsOwed()) then IsOwed() || count == 0 else !IsOwed() && drained == []
        invariant count == old(count) - |drained| && (closing ==> old(closing))
        invariant drained == old(Queued())[..|drained|] && Queued() == old(Queued())[|drained|..]
        decreases count
      {
        var out := Peek();
        if out == None || |drained| == room {
          break;
        }
        Commit();
        drained := drained + [out.value];
      }
    }

    // Any passes of the service, flights and all: what went to the flash is what the accounts say.
    method Serve(passes: seq<Pass>) returns (drained: seq<LogRecord>)
      requires Valid()
      modifies this, ring
      ensures Valid() && log == old(log) + drained && lostBefore == old(lostBefore)
    {
      hide Valid;
      drained := [];
      for i := 0 to |passes|
        invariant Valid() && log == old(log) + drained && lostBefore == old(lostBefore)
      {
        var more := ServeOnce(passes[i]);
        drained := drained + more;
      }
    }

    method ServeOnce(pass: Pass) returns (drained: seq<LogRecord>)
      requires Valid()
      modifies this, ring
      ensures Valid() && log == old(log) + drained && lostBefore == old(lostBefore)
    {
      hide Valid, IsOwed, IsAloft, IsTaken;
      var action := Update(pass.own, pass.rolling, pass.now);
      drained := Drain(pass.room);
    }

    // Whatever comes after the landing, passes of the service with a flash that takes what it takes:
    // what is drained of the session is a beginning of what was held at the landing, and all of it
    // once the session is done with; nothing of it is lost and nothing else gets among it.
    method FinishLanding(passes: seq<Pass>) returns (drained: seq<LogRecord>)
      requires Valid() && closing
      modifies this, ring
      ensures Valid() && !open && taken == old(taken) && past == old(past) && dropped == old(dropped)
      ensures log == old(log) + drained && drained <= old(taken[|fates|..])
      ensures !closing ==> drained == old(taken[|fates|..]) && |fates| == |taken|
      ensures closing ==> Queued() == old(taken[|fates|..])[|drained|..]
      ensures closing ==> forall i :: 0 <= i < |passes| ==> passes[i].room < PRE_TAKEOFF_RECORDS
    {
      hide Held, Losses, LossesOf, Kept, KeptOf, After, LostOne, Elapsed, IsAloft, IsTaken;
      drained := [];
      ghost var held := Queued();
      for i := 0 to |passes|
        invariant Valid() && !open && taken == old(taken) && past == old(past) && lostBefore == old(lostBefore)
        invariant log == old(log) + drained && fates == old(fates) + AllCommitted(|drained|)
        invariant dropped == old(dropped) && |drained| <= |held| && drained == held[..|drained|]
        invariant if closing then Queued() == held[|drained|..] else drained == held
        invariant closing ==> forall k :: 0 <= k < i ==> passes[k].room < PRE_TAKEOFF_RECORDS
      {
        if closing {
          var more := PassAfterLanding(passes[i]);
          drained := drained + more;
        }
      }
    }

    // A craft that can hover, with a session open and last seen rolling at this moment, passes without
    // rolling again: the session stays open exactly while every pass comes under two minutes after.
    method Hover(passes: seq<Pass>, ghost first: nat)
      requires Valid() && open && lastRolled == first % 0x1_0000_0000
      requires forall i :: 0 <= i < |passes| ==> passes[i].own.hovers && !passes[i].own.airborne && !passes[i].rolling
      requires ArePasses(first, passes)
      modifies this, ring
      ensures Valid()
      ensures open <==> forall i :: 0 <= i < |passes| ==> passes[i].now < first + 120_000
    {
      hide Valid, IsTaken;
      for i := 0 to |passes|
        invariant Valid() && lastRolled == first % 0x1_0000_0000
        invariant open <==> forall j :: 0 <= j < i ==> passes[j].now < first + 120_000
        invariant i > 0 ==> first <= passes[i - 1].now
      {
        if open {
          assert i > 0 ==> passes[i - 1].now < first + 120_000;
          ElapsedIsReal(passes[i].now, first);
        }
        var action := Update(passes[i].own, false, passes[i].now % 0x1_0000_0000);
      }
    }

    method PassAfterLanding(pass: Pass) returns (drained: seq<LogRecord>)
      requires Valid() && closing
      modifies this, ring
      ensures Valid() && !open && taken == old(taken) && past == old(past)
      ensures dropped == old(dropped) && lostBefore == old(lostBefore)
      ensures log == old(log) + drained && fates == old(fates) + AllCommitted(|drained|)
      ensures |drained| <= old(count) && drained == old(Queued())[..|drained|]
      ensures if closing then Queued() == old(Queued())[|drained|..] && pass.room < PRE_TAKEOFF_RECORDS
        else drained == old(Queued())
    {
      hide Held, Losses, LossesOf, Kept, KeptOf, After, LostOne, Elapsed, IsAloft, IsTaken;
      var action := Update(pass.own, pass.rolling, pass.now);
      assert action == Idle;
      drained := Drain(pass.room);
    }

    // The landing: its last record, if it has one, and everything still held is owed.
    method CloseNow(own: Ownship)
      requires Valid() && open
      modifies this`head, this`count, this`dropped, this`fates, this`taken, this`open, this`closing, this`toFlush, ring
      ensures Valid() && closing
      ensures IsUsable(own) ==>
        taken == old(taken) + [RecordFrom(own).(sessionEnd := true)] && fates == LostOne(old(fates), old(count))
      ensures !IsUsable(own) ==> taken == old(taken) && fates == old(fates)
    {
      hide Held, Losses, After, LostOne, RecordFrom, LossesOf, Kept, KeptOf;
      var usable := own.fixValid && own.utcValid;
      if usable {
        Push(RecordFrom(own).(sessionEnd := true));
      }
      open := false;
      closing := true;
      toFlush := count;
    }

    // The rest of update: a sample a second, while there is a place to keep it.
    method Sample(own: Ownship, flying: bool, now: nat) returns (action: Action)
      requires Valid() && (open ==> flying)
      modifies this`head, this`count, this`dropped, this`fates, this`taken, this`open, this`sampled, this`lastSample
      modifies this`sessionId, this`past, ring
      ensures Valid() && action == Decided(own, flying, old(open), old(closing), old(IsDue(now)))
      ensures action == OpenSession ==>
        && open && fates == [] && taken == After(old(Queued()), RecordFrom(own)) && sessionId == taken[0].utc
        && past == old(past) + [Flight(old(taken), old(fates))]
      ensures action == AppendRecord ==>
        open && taken == old(taken) + [RecordFrom(own)] && fates == LostOne(old(fates), old(count))
      ensures action == Idle ==>
        && open == old(open) && closing == old(closing) && taken == old(taken) && fates == old(fates)
        && Queued() == (if IsUsable(own) && old(IsDue(now)) && !IsOwed() then After(old(Queued()), RecordFrom(own))
                        else old(Queued()))
      ensures if IsUsable(own) && old(IsDue(now)) then sampled && lastSample == now
        else sampled == old(sampled) && lastSample == old(lastSample)
      ensures action != OpenSession ==> sessionId == old(sessionId) && past == old(past)
    {
      hide Held, Losses, LostOne, RecordFrom, Elapsed, After, LossesOf, Kept, KeptOf;
      var usable := own.fixValid && own.utcValid;
      if !usable {
        return Idle;
      }
      if sampled && Elapsed(now, lastSample) < RECORD_PERIOD_MS {
        return Idle;
      }
      lastSample := now;
      sampled := true;
      if closing {
        return Idle;
      }
      ghost var was := Queued();
      Push(RecordFrom(own));
      if open {
        return AppendRecord;
      }
      if !flying {
        return Idle;
      }
      AfterHasOne(was, RecordFrom(own));
      OpenNow();
      action := OpenSession;
    }

    // The ring becomes the session's, named by the oldest sample it still holds.
    method OpenNow()
      requires Valid() && !open && !closing && count > 0
      modifies this`sessionId, this`open, this`taken, this`fates, this`past
      ensures Valid() && open && !closing && fates == [] && taken == Queued() && sessionId == taken[0].utc
      ensures past == old(past) + [Flight(old(taken), old(fates))]
    {
      hide Losses, Kept, LossesOf, KeptOf;
      HeldTake(ring[..], head, count);
      OneMoreFlight(past, Flight(taken, fates));
      sessionId := ring[head].utc;
      open := true;
      past, taken, fates := past + [Flight(taken, fates)], Queued(), [];
      NothingKept(taken);
    }
  }

  datatype Option<T> = None | Some(value: T)

  predicate IsUsable(own: Ownship) {
    own.fixValid && own.utcValid
  }

  // Airborne, or of a craft that can hover: rolling, or still within its hold.
  predicate InFlight(own: Ownship, rolling: bool, now: nat, open: bool, lastRolled: nat) {
    own.airborne || (own.hovers && (rolling || (open && Elapsed(now, lastRolled) < STILL_HOLD_MS)))
  }

  function Decided(own: Ownship, flying: bool, open: bool, closing: bool, due: bool): Action {
    if open && !flying then CloseSession
    else if !IsUsable(own) || !due || closing || !(open || flying) then Idle
    else if open then AppendRecord
    else OpenSession
  }

  // Since the log was erased, over every session: what the flash holds is, in order, what each took
  // less what was dropped of it, and every record taken was committed, counted as a loss, or is
  // still owed.
  lemma EveryRecordIsAccountedFor(s: LogSession)
    requires s.Valid()
    ensures s.log == KeptOf(s.past) + Kept(s.taken, s.fates)
    ensures |s.log| + (s.dropped - s.lostBefore) + (if s.IsOwed() then s.count else 0) == TakenOf(s.past) + |s.taken|
  {
    KeptOrLostOf(s.past);
    KeptOrLost(s.taken, s.fates);
  }

  // In order, and never so far apart that the millisecond counter comes round between two.
  ghost predicate ArePasses(first: nat, passes: seq<Pass>) {
    forall i :: 0 <= i < |passes| ==>
      var last := if i == 0 then first else passes[i - 1].now; last <= passes[i].now < last + 0x1_0000_0000 - 120_000
  }

  lemma ElapsedIsReal(t: nat, t0: nat)
    ensures t0 <= t < t0 + 0x1_0000_0000 ==> (t % 0x1_0000_0000 - t0 % 0x1_0000_0000) % 0x1_0000_0000 == t - t0
  {}

  lemma {:induction false} KeptOrLost(taken: seq<LogRecord>, fates: seq<Fate>)
    requires |fates| <= |taken|
    ensures |Kept(taken, fates)| + Losses(fates) == |fates|
  {
    if |fates| > 0 { KeptOrLost(taken, fates[..|fates| - 1]); }
  }

  lemma {:induction false} KeptOrLostOf(past: seq<Flight>)
    requires AreOver(past)
    ensures |KeptOf(past)| + LossesOf(past) == TakenOf(past)
  {
    if |past| > 0 {
      KeptOrLostOf(past[..|past| - 1]);
      KeptOrLost(past[|past| - 1].taken, past[|past| - 1].fates);
    }
  }

  // Once committed, a record stays in the log in its place.
  lemma {:induction false} KeptOfMore(taken: seq<LogRecord>, record: LogRecord, fates: seq<Fate>)
    requires |fates| <= |taken|
    ensures Kept(taken + [record], fates) == Kept(taken, fates)
  {
    if |fates| > 0 { KeptOfMore(taken, record, fates[..|fates| - 1]); }
  }

  lemma NothingKept(taken: seq<LogRecord>)
    ensures Kept(taken, []) == [] && Losses([]) == 0
  {}

  lemma NothingTaken()
    ensures Accounts([], [], [], [], 0)
  {}

  lemma OneMoreFlight(past: seq<Flight>, flight: Flight)
    ensures KeptOf(past + [flight]) == KeptOf(past) + Kept(flight.taken, flight.fates)
    ensures LossesOf(past + [flight]) == LossesOf(past) + Losses(flight.fates)
  {
    assert (past + [flight])[..|past|] == past;
  }

  ghost function AllCommitted(n: nat): seq<Fate> {
    seq(n, _ => Fate.Committed)
  }

  // The queue with one more, the oldest of a full one gone.
  ghost function After(queue: seq<LogRecord>, record: LogRecord): seq<LogRecord> {
    (if |queue| == PRE_TAKEOFF_RECORDS then queue[1..] else queue) + [record]
  }

  lemma AfterHasOne(queue: seq<LogRecord>, record: LogRecord)
    ensures |After(queue, record)| > 0
  {}

  ghost function LostOne(fates: seq<Fate>, count: nat): seq<Fate> {
    if count == PRE_TAKEOFF_RECORDS then fates + [Fate.Dropped] else fates
  }

  lemma OneMoreFate(taken: seq<LogRecord>, fates: seq<Fate>, fate: Fate)
    ensures Losses(fates + [fate]) == Losses(fates) + (if fate == Dropped then 1 else 0)
    ensures |fates| < |taken| ==>
      Kept(taken, fates + [fate]) == Kept(taken, fates) + (if fate == Committed then [taken[|fates|]] else [])
  {
    assert (fates + [fate])[..|fates|] == fates;
  }
}
