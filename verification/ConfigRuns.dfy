/**
 ConfigService over whole runs: every standing prompt, open upload window and set latch has one
 moment it comes from, and nothing since that would have taken it away.
 */
module ConfigRuns {
  import opened ConfigState
  import opened ConfigSafety

  ghost predicate BeginsAt(w: Watch, s: Service, events: seq<Event>, i: nat)
    requires i < |events|
  {
    Begins(w, At(s, events, i), events[i])
  }

  ghost predicate EndsAt(w: Watch, s: Service, events: seq<Event>, i: nat)
    requires i < |events|
  {
    Ends(w, At(s, events, i), events[i])
  }

  // It began at event i, and none of the events after i and before n ended it.
  ghost predicate Since(w: Watch, s: Service, events: seq<Event>, i: nat, n: nat) {
    i < n <= |events| && BeginsAt(w, s, events, i) && forall j: nat :: i < j < n ==> !EndsAt(w, s, events, j)
  }

  lemma WatchStep(w: Watch, s: Service, e: Event)
    ensures Stands(w, Step(s, e)) <==> Begins(w, s, e) || (Stands(w, s) && !Ends(w, s, e))
  {
    hide *;
    match w
    case Window => WindowStep(s, e);
    case Standing(p) => PromptStep(s, e, p);
    case Latch(p) => LatchStep(s, e, p);
    case Installing => InstallStep(s, e);
  }

  lemma NothingStandsAtFirst(w: Watch, identity: bool)
    ensures !Stands(w, Initial(identity))
  {}

  // A thing stands exactly when some event began it and none since ended it: the window is open
  // only because a powered confirm of a firmware prompt on the ground opened it, a latch is set only
  // because its own prompt was confirmed on the ground, and so on, and none of it is ever lost.
  lemma {:induction false} StandsExactlySince(w: Watch, identity: bool, events: seq<Event>, n: nat)
    requires n <= |events|
    ensures Stands(w, At(Initial(identity), events, n)) <==> exists i: nat :: Since(w, Initial(identity), events, i, n)
  {
    hide Stands, Begins, Ends, Step, Initial;
    var s := Initial(identity);
    if n == 0 {
      NothingStandsAtFirst(w, identity);
    } else {
      StandsExactlySince(w, identity, events, n - 1);
      WatchStep(w, At(s, events, n - 1), events[n - 1]);
      forall i: nat | Since(w, s, events, i, n) && i < n - 1 ensures Since(w, s, events, i, n - 1) {}
      if BeginsAt(w, s, events, n - 1) {
        assert Since(w, s, events, n - 1, n);
      } else if Stands(w, At(s, events, n - 1)) && !EndsAt(w, s, events, n - 1) {
        var i: nat :| Since(w, s, events, i, n - 1);
        assert Since(w, s, events, i, n);
      }
    }
  }

  // ----- in the air

  ghost predicate Grounded(s: Service) {
    s.world.flight == Airborne ==> !s.window.open && (s.prompt.pending == NoPrompt || s.prompt.pending == Register)
  }

  lemma StepKeepsGrounded(s: Service, e: Event)
    requires Grounded(s)
    ensures Grounded(Step(s, e))
  {
    hide Ticked, Asked, Confirmed;
    match e
    case Tick(_, _) => TickedCases(s, e);
    case Received(session, command) =>
      AskedIsApart(s, session, command);
      AskedRaises(s, e);
      RaisedInTheAir(s, e);
    case Confirm(_, _, _) => ConfirmedWindow(s, e); ConfirmedInTheAir(s, e);
    case _ =>
  }

  lemma RaisedInTheAir(s: Service, e: Event)
    ensures !OnGround(s) ==> Raised(s, e) == NoPrompt || Raised(s, e) == Register
  {}

  lemma ConfirmedInTheAir(s: Service, e: Event)
    requires e.Confirm?
    ensures !OnGround(s) && !s.window.open ==> !Step(s, e).window.open
  {
    hide Granting;
    GrantingCases(s, e);
  }

  // In the air the upload window is shut and no prompt but Register's can stand.
  lemma {:induction false} InTheAir(identity: bool, events: seq<Event>, n: nat)
    requires n <= |events|
    ensures Grounded(At(Initial(identity), events, n))
  {
    if n > 0 {
      hide Grounded, Step;
      InTheAir(identity, events, n - 1);
      StepKeepsGrounded(At(Initial(identity), events, n - 1), events[n - 1]);
    }
  }

  // ----- how long things stand

  // The reading of the unwrapped clock before event n, and that of the last tick.
  ghost function Clock(events: seq<Event>, n: nat): nat
    requires n <= |events|
  {
    if n == 0 then 0 else
      match events[n - 1]
      case Tick(time, _) => time
      case Resumed(time) => time
      case _ => Clock(events, n - 1)
  }

  ghost function LastTick(events: seq<Event>, n: nat): nat
    requires n <= |events|
  {
    if n == 0 then 0 else if events[n - 1].Tick? then events[n - 1].time else LastTick(events, n - 1)
  }

  // Time never runs back, and two ticks are never a whole turn of the counter (49 days) apart, less
  // the window.
  ghost predicate Regular(events: seq<Event>) {
    && (forall k: nat :: k < |events| && (events[k].Tick? || events[k].Resumed?) ==> Clock(events, k) <= events[k].time)
    && (forall k: nat :: k < |events| && events[k].Tick? ==>
          events[k].time < LastTick(events, k) + WRAP - UPLOAD_WINDOW_MS)
  }

  lemma {:induction false} ClockRuns(identity: bool, events: seq<Event>, i: nat, n: nat)
    requires i <= n <= |events| && Regular(events)
    ensures LastTick(events, n) <= Clock(events, n) && Clock(events, i) <= Clock(events, n)
    ensures At(Initial(identity), events, n).now == Clock(events, n) % WRAP
  {
    if n > 0 {
      hide Step;
      ClockRuns(identity, events, if i < n then i else n - 1, n - 1);
      NowStep(At(Initial(identity), events, n - 1), events[n - 1]);
    }
  }

  lemma NowStep(s: Service, e: Event)
    ensures Step(s, e).now == if e.Tick? || e.Resumed? then e.time % WRAP else s.now
  {
    hide Ticked, Asked, Confirmed;
    match e
    case Tick(_, _) => TickedCases(s, e);
    case Received(session, command) => AskedIsApart(s, session, command);
    case Confirm(_, _, _) => ConfirmedWindow(s, e);
    case _ =>
  }

  lemma ElapsedIsReal(t: nat, t0: nat)
    requires t0 <= t < t0 + WRAP
    ensures Elapsed(t % WRAP, t0 % WRAP) == t - t0
  {}

  ghost predicate Timed(w: Watch) {
    w.Window? || w.Standing?
  }

  ghost function Limit(w: Watch): nat {
    if w.Window? then 600_000 else 30_000
  }

  ghost function SinceOf(w: Watch, s: Service): nat {
    if w.Window? then s.window.since else s.prompt.since
  }

  lemma SinceStep(w: Watch, s: Service, e: Event)
    requires Timed(w)
    ensures Begins(w, s, e) ==> SinceOf(w, Step(s, e)) == s.now
    ensures Stands(w, s) && !Begins(w, s, e) && !Ends(w, s, e) ==> SinceOf(w, Step(s, e)) == SinceOf(w, s)
    ensures Stands(w, s) && !Ends(w, s, e) && e.Tick? ==> Elapsed(e.time % WRAP, SinceOf(w, s)) < Limit(w)
  {
    hide Step;
    match w
    case Window => WindowSince(s, e);
    case Standing(p) => PromptStep(s, e, p);
  }

  lemma WindowSince(s: Service, e: Event)
    ensures Begins(Window, s, e) ==> Step(s, e).window.since == s.now
    ensures !Begins(Window, s, e) ==> Step(s, e).window.since == s.window.since
  {
    hide Ticked, Asked, Granting;
    match e
    case Tick(_, _) => TickedCases(s, e);
    case Received(session, command) => AskedIsApart(s, session, command);
    case Confirm(_, _, _) => GrantingCases(s, e);
    case _ =>
  }

  ghost predicate Young(w: Watch, s: Service, events: seq<Event>, i: nat, n: nat) {
    && Since(w, s, events, i, n) && SinceOf(w, At(s, events, n)) == Clock(events, i) % WRAP
    && LastTick(events, n) < Clock(events, i) + Limit(w)
  }

  // At the last tick an open window was opened less than ten minutes before, and a standing prompt
  // raised less than thirty seconds before, by the true clock and however often the counter wrapped.
  lemma {:induction false} NothingStandsLong(w: Watch, identity: bool, events: seq<Event>, n: nat)
    requires Timed(w) && n <= |events| && Regular(events) && Stands(w, At(Initial(identity), events, n))
    ensures exists i: nat :: Young(w, Initial(identity), events, i, n)
  {
    hide Stands, Begins, Ends, Step, Initial, SinceOf, Elapsed, Regular;
    var s := Initial(identity);
    if n == 0 {
      NothingStandsAtFirst(w, identity);
    } else {
      var t, e := At(s, events, n - 1), events[n - 1];
      WatchStep(w, t, e);
      SinceStep(w, t, e);
      ClockRuns(identity, events, n - 1, n - 1);
      if Begins(w, t, e) {
        BeginningNoTick(w, t, e);
        assert Young(w, s, events, n - 1, n);
      } else {
        NothingStandsLong(w, identity, events, n - 1);
        var i: nat :| Young(w, s, events, i, n - 1);
        ClockRuns(identity, events, i, n - 1);
        if e.Tick? {
          TickIsRegular(events, n - 1);
          ElapsedIsReal(e.time, Clock(events, i));
        }
        assert Young(w, s, events, i, n);
      }
    }
  }

  lemma BeginningNoTick(w: Watch, s: Service, e: Event)
    requires Timed(w) && Begins(w, s, e)
    ensures !e.Tick? && !e.Resumed?
  {}

  lemma TickIsRegular(events: seq<Event>, k: nat)
    requires Regular(events) && k < |events| && events[k].Tick?
    ensures Clock(events, k) <= events[k].time < LastTick(events, k) + WRAP - UPLOAD_WINDOW_MS
  {}

  // ----- the version that is installed

  // The version of the last firmware request accepted before event n.
  ghost function LastAsked(s: Service, events: seq<Event>, n: nat): Option<Version>
    requires n <= |events|
  {
    if n == 0 then None
    else if Raised(At(s, events, n - 1), events[n - 1]) == Dfu then Some(VersionOf(At(s, events, n - 1), events[n - 1]))
    else LastAsked(s, events, n - 1)
  }

  lemma ApprovedStep(s: Service, e: Event)
    ensures Step(s, e).approved == if Raised(s, e) == Dfu then VersionOf(s, e) else s.approved
  {
    hide Step;
    if e.Received? { AskedRaises(s, e); OtherVersions(s, e); } else { PromptElsewhere(s, e); }
  }

  lemma OtherVersions(s: Service, e: Event)
    ensures Raised(s, e) != Dfu && Raised(s, e) != NoPrompt ==> VersionOf(s, e) == s.approved
  {}

  lemma {:induction false} ApprovedIsLastAsked(identity: bool, events: seq<Event>, n: nat)
    requires n <= |events|
    ensures var s := At(Initial(identity), events, n);
      && (LastAsked(Initial(identity), events, n).Some? ==> s.approved == LastAsked(Initial(identity), events, n).value)
      && (s.prompt.pending == Dfu || s.window.open ==> LastAsked(Initial(identity), events, n).Some?)
  {
    hide Step, Raised, VersionOf, Ends, Writable, OnGround;
    if n > 0 {
      var t, e := At(Initial(identity), events, n - 1), events[n - 1];
      ApprovedIsLastAsked(identity, events, n - 1);
      ApprovedStep(t, e);
      PromptStep(t, e, Dfu);
      WindowStep(t, e);
    }
  }

  // An install is ever requested only by a tick that found, in the open window, a finished, signed
  // upload of the very version the last accepted firmware request named, powered and on the ground.
  lemma InstalledWasAskedFor(identity: bool, events: seq<Event>, n: nat)
    requires n <= |events| && At(Initial(identity), events, n).latches.install
    ensures exists i: nat ::
      && i < n && Installs(At(Initial(identity), events, i), events[i])
      && LastAsked(Initial(identity), events, i).Some?
      && events[i].upload.staged == LastAsked(Initial(identity), events, i)
  {
    hide Step, Initial, LastAsked;
    var s := Initial(identity);
    assert Stands(Installing, At(s, events, n));
    StandsExactlySince(Installing, identity, events, n);
    var i: nat :| Since(Installing, s, events, i, n);
    assert BeginsAt(Installing, s, events, i);
    ApprovedIsLastAsked(identity, events, i);
  }

  // The version the press that opened the window was shown, against the one installed: they are
  // the same exactly when the last request accepted by then is still the one the press confirmed.
  lemma InstalledWasConfirmed(identity: bool, events: seq<Event>, c: nat, i: nat)
    requires c < i < |events| && BeginsAt(Window, Initial(identity), events, c)
    requires Installs(At(Initial(identity), events, i), events[i])
    ensures var s := Initial(identity);
      events[i].upload.staged == Some(At(s, events, c).approved) <==>
        (AskedSince(s, events, c, i) == None || AskedSince(s, events, c, i) == Some(At(s, events, c).approved))
  {
    hide Step, Initial, LastAsked, Raised, VersionOf;
    var s := Initial(identity);
    ApprovedIsLastAsked(identity, events, c);
    ApprovedIsLastAsked(identity, events, i);
    LastAskedSplits(s, events, c, i);
  }

  // The version of the last firmware request accepted from event c on and before event n.
  ghost function AskedSince(s: Service, events: seq<Event>, c: nat, n: nat): Option<Version>
    requires c <= n <= |events|
  {
    if n == c then None
    else if Raised(At(s, events, n - 1), events[n - 1]) == Dfu then Some(VersionOf(At(s, events, n - 1), events[n - 1]))
    else AskedSince(s, events, c, n - 1)
  }

  lemma {:induction false} LastAskedSplits(s: Service, events: seq<Event>, c: nat, n: nat)
    requires c <= n <= |events|
    ensures LastAsked(s, events, n) ==
      if AskedSince(s, events, c, n) == None then LastAsked(s, events, c) else AskedSince(s, events, c, n)
  {
    hide Raised, VersionOf, Step;
    if n > c { LastAskedSplits(s, events, c, n - 1); }
  }

  // It can differ: a second request accepted while the window is open changes the version the
  // install is held to, though no press ever confirmed it.
  lemma InstallsUnconfirmed()
    ensures exists events: seq<Event> ::
      && |events| == 5
      && At(Initial(false), events, 5).latches.install
      && BeginsAt(Window, Initial(false), events, 2)
      && At(Initial(false), events, 2).approved != At(Initial(false), events, 5).approved
      && (forall j: nat :: j < 5 && events[j].Confirm? ==> j == 2)
  {
    var first, second := Version(1, 0, 0, 0), Version(2, 0, 0, 0);
    var events := [FlightReported(Ground), Received(1, InstallFirmware(Some(first), false)), Confirm(Ok, true, true),
      Received(1, InstallFirmware(Some(second), false)), Tick(0, Upload(true, Some(second), true))];
    var s := Initial(false);
    AtNext(s, events, 0);
    AtNext(s, events, 1);
    AtNext(s, events, 2);
    AtNext(s, events, 3);
    AtNext(s, events, 4);
    hide At, Step, Initial, Installs;
    var s2 := At(s, events, 2);
    FirstRequest(first);
    assert s2.now == 0 by { NowAtFirst(events); }
    PressOpens(s2, events[2]);
    SecondRequest(At(s, events, 3), second);
    FinishedUpload(At(s, events, 4), second);
  }

  lemma AtNext(s: Service, events: seq<Event>, n: nat)
    requires n < |events|
    ensures At(s, events, 0) == s && At(s, events, n + 1) == Step(At(s, events, n), events[n])
  {
    hide Step;
  }

  lemma NowAtFirst(events: seq<Event>)
    requires |events| > 2 && events[0].FlightReported? && events[1].Received?
    ensures At(Initial(false), events, 2).now == 0
  {
    hide Step;
    AtNext(Initial(false), events, 0);
    AtNext(Initial(false), events, 1);
    NowStep(Initial(false), events[0]);
    NowStep(At(Initial(false), events, 1), events[1]);
  }

  lemma FirstRequest(version: Version)
    ensures var s := Step(Step(Initial(false), FlightReported(Ground)), Received(1, InstallFirmware(Some(version), false)));
      && s.world == World(Ground, UnknownLevel, false) && s.claim == Some(1) && s.prompt.pending == Dfu
      && s.approved == version
  {}

  lemma PressOpens(s: Service, e: Event)
    requires e.Confirm? && s.prompt.pending == Dfu && OnGround(s) && Writable(s)
    ensures Begins(Window, s, e)
    ensures var t := Step(s, e);
      && t.world == s.world && t.claim == s.claim && t.approved == s.approved && t.window == UploadWindow(true, s.now) && t.now == s.now
  {}

  lemma SecondRequest(s: Service, version: Version)
    requires OnGround(s) && Writable(s) && s.claim == Some(1)
    ensures var t := Step(s, Received(1, InstallFirmware(Some(version), false)));
      && t.world == s.world && t.approved == version && t.window == s.window && t.now == s.now
  {}

  lemma FinishedUpload(s: Service, version: Version)
    requires OnGround(s) && Writable(s) && s.window == UploadWindow(true, 0) && s.approved == version
    ensures var t := Step(s, Tick(0, Upload(true, Some(version), true)));
      t.latches.install && t.approved == version
  {
    TickedCases(s, Tick(0, Upload(true, Some(version), true)));
  }

  // ----- the settings that are applied

  ghost function LastSet(s: Service, events: seq<Event>, n: nat): Option<seq<int>>
    requires n <= |events|
  {
    if n == 0 then None
    else if Raised(At(s, events, n - 1), events[n - 1]) == Set then Some(FrameOf(At(s, events, n - 1), events[n - 1]))
    else LastSet(s, events, n - 1)
  }

  // At event i a press on powered ground confirmed this frame, and it was the last one shown.
  ghost predicate ConfirmedSet(s: Service, events: seq<Event>, i: nat, frame: seq<int>)
    requires i < |events|
  {
    Confirms(At(s, events, i), events[i], Set) && Writable(At(s, events, i)) && LastSet(s, events, i) == Some(frame)
  }

  // Settings are written by a powered press on the ground that the store accepts, and by nothing else.
  lemma AppliedStep(s: Service, e: Event)
    ensures Step(s, e).store ==
      if Confirms(s, e, Set) && Writable(s) && e.applied == Ok then Store(true, s.store.applied + [s.prompt.frame])
      else if e.SettingsNoted? then Store(true, s.store.applied)
      else if e.DirtyCleared? then Store(false, s.store.applied)
      else s.store
  {
    hide Ticked, Asked, Registered;
    match e
    case Tick(_, _) => TickedStore(s, e);
    case Received(session, command) => AskedIsApart(s, session, command);
    case Confirm(_, _, _) => RegisteredStore(s.(prompt := s.prompt.(pending := NoPrompt)), e.versioned, e.signed);
    case _ =>
  }

  lemma TickedStore(s: Service, e: Event)
    requires e.Tick?
    ensures Step(s, e).store == s.store
  {}

  lemma RegisteredStore(s: Service, versioned: bool, signed: bool)
    ensures Registered(s, versioned, signed).store == s.store
  {}

  lemma {:induction false} SetPromptIsLastSet(identity: bool, events: seq<Event>, n: nat)
    requires n <= |events|
    ensures var s := At(Initial(identity), events, n);
      s.prompt.pending == Set ==> LastSet(Initial(identity), events, n) == Some(s.prompt.frame)
  {
    if n > 0 {
      var t, e := At(Initial(identity), events, n - 1), events[n - 1];
      SetPromptIsLastSet(identity, events, n - 1);
      if e.Received? { AskedRaises(t, e); } else { PromptElsewhere(t, e); }
      hide Step, Raised, FrameOf, VersionOf, Ends;
    }
  }

  // Nothing reaches the settings but a frame that was shown and confirmed.
  lemma {:induction false} SettingsWereConfirmed(identity: bool, events: seq<Event>, n: nat, k: nat)
    requires n <= |events| && k < |At(Initial(identity), events, n).store.applied|
    ensures exists i: nat :: i < n && ConfirmedSet(Initial(identity), events, i, At(Initial(identity), events, n).store.applied[k])
    decreases n
  {
    hide Step, LastSet, Confirms, Writable;
    var s := Initial(identity);
    var t, e := At(s, events, n - 1), events[n - 1];
    AppliedStep(t, e);
    if k < |t.store.applied| {
      SettingsWereConfirmed(identity, events, n - 1, k);
      var i: nat :| i < n - 1 && ConfirmedSet(s, events, i, t.store.applied[k]);
      assert At(s, events, n).store.applied[k] == t.store.applied[k];
    } else {
      SetPromptIsLastSet(identity, events, n - 1);
      ConfirmsFindsSet(t, e);
      assert At(s, events, n).store.applied[k] == t.prompt.frame;
      assert ConfirmedSet(s, events, n - 1, t.prompt.frame);
    }
  }

  lemma ConfirmsFindsSet(s: Service, e: Event)
    requires Confirms(s, e, Set)
    ensures s.prompt.pending == Set
  {}

  // ----- one check to a nonce

  ghost predicate NoncesSpent(i: Identity) {
    && (forall a, b :: 0 <= a < b < |i.tried| ==> i.tried[a] < i.tried[b])
    && (forall a :: 0 <= a < |i.tried| ==> i.tried[a] <= i.nonce && (i.open ==> i.tried[a] < i.nonce))
  }

  lemma UnlockedSpends(s: Service, wellFormed: bool, verified: bool, stored: bool)
    requires NoncesSpent(s.identity)
    ensures NoncesSpent(Unlocked(s, wellFormed, verified, stored).identity)
  {
    hide NoncesSpent;
    var t := Unlocked(s, wellFormed, verified, stored);
    UnlockedNonces(s, wellFormed, verified, stored);
    TryingSpends(s.identity, t.identity);
  }

  lemma TryingSpends(i: Identity, j: Identity)
    requires NoncesSpent(i) && IsTried(i, j)
    ensures NoncesSpent(j)
  {}

  // Nothing tried, or the open session's nonce and the session closed.
  ghost predicate IsTried(i: Identity, j: Identity) {
    && j.nonce == i.nonce && (j.open ==> i.open)
    && (j.tried == i.tried || (i.open && !j.open && j.tried == i.tried + [i.nonce]))
  }

  lemma UnlockedNonces(s: Service, wellFormed: bool, verified: bool, stored: bool)
    ensures IsTried(s.identity, Unlocked(s, wellFormed, verified, stored).identity)
  {
    hide Writable, OnGround, Elapsed;
    var t := Unlocked(s, wellFormed, verified, stored);
    assert t.identity.tried == s.identity.tried
      || (s.identity.open && !t.identity.open && t.identity.tried == s.identity.tried + [s.identity.nonce]);
  }

  lemma StepSpends(s: Service, e: Event)
    requires NoncesSpent(s.identity)
    ensures NoncesSpent(Step(s, e).identity)
  {
    hide Unlocked, Granting, Ticked, NoncesSpent;
    match e
    case Received(session, command) => ObeyedSpends(Granted(s, session), command);
    case Confirm(_, _, _) => GrantingIdentity(s, e);
    case Tick(_, _) => TickedSpends(s, e);
    case LinkDown(_) => CloseSpends(s.identity);
    case UnlockSettled(_) => SameNonces(s.identity, Step(s, e).identity);
    case _ =>
  }

  lemma CloseSpends(i: Identity)
    requires NoncesSpent(i)
    ensures NoncesSpent(Close(i)) && NoncesSpent(Close(i).(due := false))
  {}

  lemma SameNonces(i: Identity, j: Identity)
    requires NoncesSpent(i) && j.tried == i.tried && j.nonce == i.nonce && j.open == i.open
    ensures NoncesSpent(j)
  {}

  lemma TickedSpends(s: Service, e: Event)
    requires NoncesSpent(s.identity) && e.Tick?
    ensures NoncesSpent(Step(s, e).identity)
  {
    hide NoncesSpent;
    CloseSpends(s.identity);
  }

  lemma GrantingIdentity(s: Service, e: Event)
    requires e.Confirm?
    ensures Granting(s, e.applied, e.versioned, e.signed).identity == s.identity
  {}

  lemma ObeyedSpends(s: Service, command: Command)
    requires NoncesSpent(s.identity)
    ensures NoncesSpent(Obeyed(s, command).identity)
  {
    hide Unlocked, NoncesSpent;
    match command
    case UnlockUnit(wellFormed, verified, stored) => UnlockedSpends(s, wellFormed, verified, stored);
    case Challenge(_, _) => ChallengedSpends(s, command);
    case RegisterUnit(_, _, _) => SameNonces(s.identity, Obeyed(s, command).identity);
    case _ =>
  }

  lemma ChallengedSpends(s: Service, command: Command)
    requires NoncesSpent(s.identity) && command.Challenge?
    ensures NoncesSpent(Obeyed(s, command).identity)
  {}

  // Over every run no nonce is ever tried twice: the session is closed before a code is checked.
  lemma {:induction false} NoNonceTwice(identity: bool, events: seq<Event>, n: nat)
    requires n <= |events|
    ensures NoncesSpent(At(Initial(identity), events, n).identity)
  {
    if n > 0 {
      hide Step, NoncesSpent;
      NoNonceTwice(identity, events, n - 1);
      StepSpends(At(Initial(identity), events, n - 1), events[n - 1]);
    }
  }
}
