/**
 The claim of ConfigService over whole runs: what sessions other than the holder send might as well
 not have been sent.
 */
module ConfigClaim {
  import opened ConfigState
  import opened ConfigSafety

  // A frame of a session other than the one that holds the link.
  ghost predicate IsOthers(s: Service, e: Event) {
    e.Received? && s.claim.Some? && !Holds(s, e.session)
  }

  // The service but for what it has said.
  ghost function Unsaid(s: Service): Service {
    s.(said := [])
  }

  // t is what t0 would be of a service that had said nothing, with what s had said before it.
  ghost predicate Adds(s: Service, t: Service, t0: Service) {
    Unsaid(t) == Unsaid(t0) && t.said == s.said + t0.said
  }

  // Such a frame is answered with the holder's name and otherwise changes nothing, so it begins
  // nothing and ends nothing.
  lemma OthersChangeNothing(s: Service, e: Event, w: Watch)
    requires IsOthers(s, e)
    ensures Step(s, e) == s.(said := s.said + [Claimed(e.session, s.claim.value)])
    ensures !Begins(w, s, e) && !Ends(w, s, e)
  {
    hide Obeyed;
  }

  // ----- what is said changes nothing either

  lemma SameReadings(s: Service)
    ensures OnGround(Unsaid(s)) == OnGround(s) && Writable(Unsaid(s)) == Writable(s) && Live(Unsaid(s)) == Live(s)
    ensures Activated(Unsaid(s)) == Activated(s) && RefusedInFlight(Unsaid(s)) == RefusedInFlight(s)
  {}

  lemma SettledUnsaid(s: Service, stored: bool)
    ensures Adds(s, Settled(s, stored), Settled(Unsaid(s), stored))
  {
    hide OnGround, Writable, Live, Activated, RefusedInFlight;
    SameReadings(s);
  }

  lemma UnlockedUnsaid(s: Service, wellFormed: bool, verified: bool, stored: bool)
    ensures Adds(s, Unlocked(s, wellFormed, verified, stored), Unlocked(Unsaid(s), wellFormed, verified, stored))
  {
    hide OnGround, Writable, Live, Activated, RefusedInFlight;
    SameReadings(s);
    hide Settled;
    var i := Close(s.identity);
    var v := s.(identity := i.(tried := i.tried + [i.nonce], due := true));
    SettledUnsaid(v, stored);
    SameReadings(v);
  }

  lemma SettingsUnsaid(s: Service, frame: seq<int>, described: Status)
    ensures Adds(s, SettingsAsked(s, frame, described), SettingsAsked(Unsaid(s), frame, described))
  {
    hide OnGround, Writable, Live, Activated, RefusedInFlight;
    SameReadings(s);
  }

  lemma FirmwareUnsaid(s: Service, version: Option<Version>, older: bool)
    ensures Adds(s, FirmwareAsked(s, version, older), FirmwareAsked(Unsaid(s), version, older))
  {
    hide OnGround, Writable, Live, Activated, RefusedInFlight;
    SameReadings(s);
  }

  lemma ChallengedUnsaid(s: Service, provisioned: bool, drawn: bool)
    ensures Adds(s, Challenged(s, provisioned, drawn), Challenged(Unsaid(s), provisioned, drawn))
  {
    hide OnGround, Writable, Live, Activated, RefusedInFlight;
    SameReadings(s);
  }

  lemma RegisterUnsaid(s: Service, provisioned: bool, wide: bool, valid: bool)
    ensures Adds(s, RegisterAsked(s, provisioned, wide, valid), RegisterAsked(Unsaid(s), provisioned, wide, valid))
  {
    hide OnGround, Writable, Live, Activated, RefusedInFlight;
    SameReadings(s);
  }

  lemma ObeyedUnsaid(s: Service, command: Command)
    ensures Adds(s, Obeyed(s, command), Obeyed(Unsaid(s), command))
  {
    hide OnGround, Writable, Live, Activated, RefusedInFlight;
    SameReadings(s);
    hide SettingsAsked, FirmwareAsked, Challenged, RegisterAsked, Unlocked;
    match command
    case SetSettings(frame, described) => SettingsUnsaid(s, frame, described);
    case InstallFirmware(version, older) => FirmwareUnsaid(s, version, older);
    case Challenge(provisioned, drawn) => ChallengedUnsaid(s, provisioned, drawn);
    case RegisterUnit(provisioned, wide, valid) => RegisterUnsaid(s, provisioned, wide, valid);
    case UnlockUnit(wellFormed, verified, stored) => UnlockedUnsaid(s, wellFormed, verified, stored);
    case _ =>
  }

  lemma SetConfirmedUnsaid(s: Service, applied: Status)
    ensures Adds(s, SetConfirmed(s, applied), SetConfirmed(Unsaid(s), applied))
  {
    hide OnGround, Writable, Live, Activated, RefusedInFlight;
    SameReadings(s);
  }

  lemma RegisteredUnsaid(s: Service, versioned: bool, signed: bool)
    ensures Adds(s, Registered(s, versioned, signed), Registered(Unsaid(s), versioned, signed))
  {
    hide OnGround, Writable, Live, Activated, RefusedInFlight;
    SameReadings(s);
  }

  lemma GrantingUnsaid(s: Service, e: Event)
    requires e.Confirm?
    ensures Adds(s, Granting(s, e.applied, e.versioned, e.signed), Granting(Unsaid(s), e.applied, e.versioned, e.signed))
  {
    hide OnGround, Writable, Live, Activated, RefusedInFlight;
    SameReadings(s);
    hide SetConfirmed, Registered;
    match s.prompt.pending
    case Set => SetConfirmedUnsaid(s, e.applied);
    case Register => RegisteredUnsaid(s.(prompt := s.prompt.(pending := NoPrompt)), e.versioned, e.signed);
    case _ =>
  }

  lemma InstallUnsaid(s: Service, upload: Upload)
    ensures Adds(s, InstallReceived(s, upload), InstallReceived(Unsaid(s), upload))
  {
    hide OnGround, Writable, Live, Activated, RefusedInFlight;
    SameReadings(s);
  }

  lemma WindowUnsaid(s: Service, now: nat, upload: Upload)
    ensures Adds(s, WindowTicked(s, now, upload), WindowTicked(Unsaid(s), now, upload))
  {
    hide InstallReceived, Elapsed;
    var open := s.window.open && Elapsed(now, s.window.since) < UPLOAD_WINDOW_MS;
    InstallUnsaid(s.(now := now, window := s.window.(open := open)), upload);
  }

  lemma NonceUnsaid(s: Service)
    ensures Adds(s, NonceTicked(s), NonceTicked(Unsaid(s)))
  {}

  lemma PromptUnsaid(s: Service)
    ensures Adds(s, PromptTicked(s), PromptTicked(Unsaid(s)))
  {}

  lemma TickedUnsaid(s: Service, now: nat, upload: Upload)
    ensures Adds(s, Ticked(s, now, upload), Ticked(Unsaid(s), now, upload))
  {
    hide WindowTicked, NonceTicked, PromptTicked;
    var a, b := WindowTicked(s, now, upload), WindowTicked(Unsaid(s), now, upload);
    WindowUnsaid(s, now, upload);
    NonceUnsaid(a);
    NonceUnsaid(b);
    PromptUnsaid(NonceTicked(a));
    PromptUnsaid(NonceTicked(b));
  }

  lemma FlightUnsaid(s: Service, flight: FlightState)
    ensures Adds(s, FlightSet(s, flight), FlightSet(Unsaid(s), flight))
  {
    hide OnGround, Writable, Live, Activated, RefusedInFlight;
    SameReadings(s);
  }

  lemma LinkUnsaid(s: Service, session: nat)
    ensures Adds(s, LinkLost(s, session), LinkLost(Unsaid(s), session))
  {}

  lemma ClearedUnsaid(s: Service, latch: Pending)
    ensures Adds(s, LatchCleared(s, latch), LatchCleared(Unsaid(s), latch))
  {}

  lemma AskedUnsaid(s: Service, session: nat, command: Command)
    ensures Adds(s, Asked(s, session, command), Asked(Unsaid(s), session, command))
  {
    hide Obeyed;
    ObeyedUnsaid(Granted(s, session), command);
  }

  lemma ConfirmedUnsaid(s: Service, e: Event)
    requires e.Confirm?
    ensures Adds(s, Confirmed(s, e.applied, e.versioned, e.signed), Confirmed(Unsaid(s), e.applied, e.versioned, e.signed))
  {
    hide Granting;
    GrantingUnsaid(s, e);
  }

  // What the service does and says never hangs on what it said before.
  lemma StepUnsaid(s: Service, e: Event)
    ensures Adds(s, Step(s, e), Step(Unsaid(s), e))
  {
    hide Ticked, Asked, Confirmed, Settled, FlightSet, LinkLost, LatchCleared;
    match e
    case FlightReported(flight) => FlightUnsaid(s, flight);
    case LinkDown(session) => LinkUnsaid(s, session);
    case Cleared(latch) => ClearedUnsaid(s, latch);
    case UnlockSettled(stored) => SettledUnsaid(s, stored);
    case Tick(time, upload) => TickedUnsaid(s, time % WRAP, upload);
    case Received(session, command) => AskedUnsaid(s, session, command);
    case Confirm(_, _, _) => ConfirmedUnsaid(s, e);
    case _ =>
  }

  // ----- runs

  // The run without the frames of others.
  ghost function Heeded(s: Service, events: seq<Event>, n: nat): seq<Event>
    requires n <= |events|
  {
    if n == 0 then []
    else Heeded(s, events, n - 1) + (if IsOthers(At(s, events, n - 1), events[n - 1]) then [] else [events[n - 1]])
  }

  lemma {:induction false} AtPrefix(s: Service, events: seq<Event>, more: seq<Event>, n: nat)
    requires n <= |events|
    ensures At(s, events + more, n) == At(s, events, n)
  {
    hide Step;
    if n > 0 { AtPrefix(s, events, more, n - 1); }
  }

  lemma AtOneMore(s: Service, events: seq<Event>, e: Event)
    ensures At(s, events + [e], |events| + 1) == Step(At(s, events, |events|), e)
  {
    hide Step;
    AtPrefix(s, events, [e], |events|);
  }

  // What was said to those that hold the link, or would: all but the word who does.
  ghost function ToHolders(said: seq<Said>): seq<Said> {
    if |said| == 0 then []
    else ToHolders(said[..|said| - 1]) + (if said[|said| - 1].Claimed? then [] else [said[|said| - 1]])
  }

  lemma {:induction false} ToHoldersJoin(a: seq<Said>, b: seq<Said>)
    ensures ToHolders(a + b) == ToHolders(a) + ToHolders(b)
  {
    if |b| == 0 {
      assert a + b == a;
    } else {
      var front := b[..|b| - 1];
      ToHoldersJoin(a, front);
      assert (a + b)[..|a + b| - 1] == a + front;
    }
  }

  // Over every run: leave out every frame of a session that did not hold the link, and prompt,
  // window, latches, settings, nonce session and claim are what they were, and so is everything
  // said but the word to those sessions that another holds it.
  lemma {:induction false} OthersMightAsWellBeSilent(s: Service, events: seq<Event>, n: nat)
    requires n <= |events|
    ensures var heeded := Heeded(s, events, n);
      && Unsaid(At(s, events, n)) == Unsaid(At(s, heeded, |heeded|))
      && ToHolders(At(s, events, n).said) == ToHolders(At(s, heeded, |heeded|).said)
  {
    hide Step, Unsaid, IsOthers, ToHolders;
    if n > 0 {
      var heeded, e, t := Heeded(s, events, n - 1), events[n - 1], At(s, events, n - 1);
      var u := At(s, heeded, |heeded|);
      OthersMightAsWellBeSilent(s, events, n - 1);
      if IsOthers(t, e) {
        OthersUnsaid(t, e);
        assert Heeded(s, events, n) == heeded;
      } else {
        assert Heeded(s, events, n) == heeded + [e];
        AtOneMore(s, heeded, e);
        StepUnsaid(t, e);
        StepUnsaid(u, e);
        ToHoldersJoin(t.said, Step(Unsaid(t), e).said);
        ToHoldersJoin(u.said, Step(Unsaid(u), e).said);
      }
    }
  }

  lemma OthersUnsaid(s: Service, e: Event)
    requires IsOthers(s, e)
    ensures Unsaid(Step(s, e)) == Unsaid(s) && ToHolders(Step(s, e).said) == ToHolders(s.said)
  {
    hide Step, ToHolders;
    OthersChangeNothing(s, e, Window);
    ToHoldersJoin(s.said, [Claimed(e.session, s.claim.value)]);
    OneClaimed(e.session, s.claim.value);
  }

  lemma OneClaimed(to: nat, holder: nat)
    ensures ToHolders([Claimed(to, holder)]) == []
  {}
}
