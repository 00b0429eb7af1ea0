/**
 What ConfigService hands down to be sent.  The result is OneAnswer: a command of the holder's is
 answered by one thing and only one, a frame or a report, to the holder; PressAnswered says the same
 of a press, and NothingUntrueIsSaid that whatever is said, refusal or acceptance, is so.
 */
module ConfigAnswers {
  import opened ConfigState
  import opened ConfigSafety

  // ----- when each thing is due, in the facts themselves and not the service's own tests

  // The supply has not warned and the cell is above its critical level.
  ghost predicate Powered(s: Service) {
    !s.world.supplyWarned && s.world.level in {UnknownLevel, Normal, Low}
  }

  // The session the service answers: the holder, or nobody.
  ghost function Answering(s: Service): nat {
    if s.claim == None then 0 else s.claim.value
  }

  // The holder was challenged under ten minutes ago, and nothing since spent the nonce.
  ghost predicate InSession(s: Service) {
    s.identity.open && s.identity.session == Answering(s) && (s.now - s.identity.since) % 0x1_0000_0000 < 600_000
  }

  ghost predicate IsCommand(e: Event) {
    e.Received?
  }

  ghost predicate IsIdentityCommand(c: Command) {
    c.Challenge? || c.RegisterUnit? || c.UnlockUnit?
  }

  // A command of the identity's that is not turned away at once.
  ghost predicate IsHeard(s: Service, e: Event) {
    && IsCommand(e) && IsIdentityCommand(e.command) && s.identity.present
    && (s.identity.activated ==> s.world.flight == Ground)
  }

  // A press that the prompt it finds is put to.
  ghost predicate IsPress(s: Service, e: Event, p: Pending) {
    && e.Confirm? && s.prompt.pending == p && p != NoPrompt
    && (s.world.flight == Ground || (p == Register && !(s.identity.present && s.identity.activated)))
  }

  // A tick that finds a finished upload in an open window, under ten minutes old.
  ghost predicate IsUploaded(s: Service, e: Event) {
    e.Tick? && s.window.open && (e.time % 0x1_0000_0000 - s.window.since) % 0x1_0000_0000 < 600_000 && e.upload.finished
  }

  // When a refusal for this reason is due.
  ghost predicate IsDue(reason: Reason, s: Service, e: Event) {
    match reason
    case Expired =>
      e.Tick? && s.prompt.pending != NoPrompt && (e.time % 0x1_0000_0000 - s.prompt.since) % 0x1_0000_0000 >= 30_000
    case InFlight =>
      || (s.world.flight != Ground && IsCommand(e) && (
            || e.command.SetSettings? || e.command.InstallFirmware? || e.command.EnterRecovery? || e.command.SwitchOff?
            || e.command.ColdStart? || (IsIdentityCommand(e.command) && s.identity.present && s.identity.activated)))
      || (s.world.flight != Ground && e.LogEraseAsked?)
      || (s.world.flight != Ground && e.Confirm? && !IsPress(s, e, Register))
      || (s.world.flight != Ground && IsUploaded(s, e) && e.upload.staged == Some(s.approved) && e.upload.trusted)
      || (e == FlightReported(Airborne) && s.prompt.pending != NoPrompt
            && !(s.prompt.pending == Register && !(s.identity.present && s.identity.activated)))
    case LowPower =>
      && !Powered(s)
      && (|| (s.world.flight == Ground && IsCommand(e) && (e.command.SetSettings? || e.command.InstallFirmware?))
          || (IsHeard(s, e) && e.command.UnlockUnit? && InSession(s))
          || IsPress(s, e, Set) || IsPress(s, e, Dfu)
          || (IsUploaded(s, e) && e.upload.staged == Some(s.approved) && e.upload.trusted && s.world.flight == Ground)
          || (e.UnlockSettled? && s.identity.present && s.identity.due))
    case NoVersion => IsFirmware(s, e) && e.command.version == None
    case Older => IsFirmware(s, e) && e.command.version != None && e.command.older
    case NothingStaged => IsUploaded(s, e) && e.upload.staged == None
    case NotApproved => IsUploaded(s, e) && e.upload.staged != None && e.upload.staged != Some(s.approved)
    case WrongKey => IsUploaded(s, e) && e.upload.staged == Some(s.approved) && !e.upload.trusted
    case NoCommand => IsCommand(e) && e.command.Unreadable?
    case UnknownCommand =>
      IsCommand(e) && (e.command.Unanswered? || (IsIdentityCommand(e.command) && !s.identity.present))
    case Invalid =>
      || (IsCommand(e) && e.command.Malformed?)
      || (IsSettings(s, e) && e.command.described == OtherStatus)
      || (IsPress(s, e, Set) && Powered(s) && e.applied == OtherStatus)
    case OutOfRange =>
      || (IsSettings(s, e) && e.command.described == OutOfRangeStatus)
      || (IsPress(s, e, Set) && Powered(s) && e.applied == OutOfRangeStatus)
    case Keyless =>
      || (IsHeard(s, e) && e.command.Challenge? && !(e.command.provisioned && e.command.drawn))
      || (IsHeard(s, e) && e.command.RegisterUnit? && !e.command.provisioned)
      || (IsPress(s, e, Register) && IsRegistering(s) && !(e.versioned && e.signed))
    case NoSession =>
      || (IsHeard(s, e) && e.command.RegisterUnit? && e.command.provisioned && !InSession(s))
      || (IsHeard(s, e) && e.command.UnlockUnit? && !InSession(s))
      || (IsPress(s, e, Register) && !IsRegistering(s))
    case SmallMtu => IsRegistration(s, e) && !e.command.wide
    case BadSignature =>
      || (IsRegistration(s, e) && e.command.wide && !e.command.valid)
      || (IsHeard(s, e) && e.command.UnlockUnit? && InSession(s) && Powered(s)
            && !(e.command.wellFormed && e.command.verified))
    case NoStatistics => IsCommand(e) && (e.command == Query(false) || e.command == ReportQuery(false))
    case Flash =>
      || (IsVerified(s, e) && !s.identity.activated && !e.command.stored)
      || (e.UnlockSettled? && s.identity.present && s.identity.due && Powered(s) && !e.stored)
    case Cancelled => e.Cancel?
    case _ => false
  }

  ghost predicate IsSettings(s: Service, e: Event) {
    IsCommand(e) && e.command.SetSettings? && s.world.flight == Ground && Powered(s)
  }

  ghost predicate IsFirmware(s: Service, e: Event) {
    IsCommand(e) && e.command.InstallFirmware? && s.world.flight == Ground && Powered(s)
  }

  ghost predicate IsRegistration(s: Service, e: Event) {
    IsHeard(s, e) && e.command.RegisterUnit? && e.command.provisioned && InSession(s)
  }

  ghost predicate IsVerified(s: Service, e: Event) {
    && IsHeard(s, e) && e.command.UnlockUnit? && InSession(s) && Powered(s)
    && e.command.wellFormed && e.command.verified
  }

  ghost predicate IsRegistering(s: Service) {
    s.identity.present && InSession(s) && s.identity.registering
  }

  // When an acceptance is due.
  ghost predicate IsGranted(reason: Option<Reason>, s: Service, e: Event) {
    match reason
    case None => IsPress(s, e, Set) && Powered(s) && e.applied == Ok
    case Some(Install) =>
      && IsUploaded(s, e) && e.upload.staged == Some(s.approved) && e.upload.trusted
      && s.world.flight == Ground && Powered(s)
    case Some(UploadOpened) => IsPress(s, e, Dfu) && Powered(s)
    case Some(RecoveryGranted) => IsPress(s, e, Recovery)
    case Some(PowerOffGranted) => IsPress(s, e, PowerOff)
    case Some(EraseGranted) => IsPress(s, e, EraseLog)
    case Some(ColdStartGranted) => IsPress(s, e, GnssColdStart)
    case Some(Unlock) =>
      || (IsVerified(s, e) && !s.identity.activated && e.command.stored)
      || (e.UnlockSettled? && s.identity.present && s.identity.due && Powered(s) && e.stored)
    case _ => false
  }

  // And what it is of.
  ghost predicate IsDone(reason: Option<Reason>, s: Service, t: Service) {
    match reason
    case None => t.store == Store(true, s.store.applied + [s.prompt.frame])
    case Some(Install) => t.latches.install
    case Some(UploadOpened) => t.window == UploadWindow(true, s.now)
    case Some(RecoveryGranted) => t.latches.recovery
    case Some(PowerOffGranted) => t.latches.powerOff
    case Some(EraseGranted) => t.latches.eraseLog
    case Some(ColdStartGranted) => t.latches.coldStart
    case _ => t.identity.activated
  }

  // When a prompt goes up.
  ghost predicate IsPrompted(p: Pending, s: Service, e: Event) {
    match p
    case Set => IsSettings(s, e) && e.command.described == Ok
    case Dfu => IsFirmware(s, e) && e.command.version != None && !e.command.older
    case Recovery => IsCommand(e) && e.command.EnterRecovery? && s.world.flight == Ground
    case PowerOff => IsCommand(e) && e.command.SwitchOff? && s.world.flight == Ground
    case GnssColdStart => IsCommand(e) && e.command.ColdStart? && s.world.flight == Ground
    case EraseLog => e.LogEraseAsked? && s.world.flight == Ground
    case Register => IsRegistration(s, e) && e.command.wide && e.command.valid
    case NoPrompt => false
  }

  // What an answer with content answers: a question, a challenge, or the press on a registration.
  ghost predicate IsAskedFor(s: Service, e: Event) {
    || (IsCommand(e) && e.command == Query(true))
    || (IsHeard(s, e) && e.command == Challenge(true, true))
    || (IsPress(s, e, Register) && IsRegistering(s) && e.versioned && e.signed)
  }

  // When something is said, the holder hearing the event's answer.
  ghost predicate IsMeant(said: Said, s: Service, e: Event) {
    match said
    case Acknowledged(to, accepted, reason) =>
      && to == Answering(s)
      && if accepted then IsGranted(reason, s, e) else reason != None && IsDue(reason.value, s, e)
    case Prompted(to, prompt) => to == Answering(s) && IsPrompted(prompt, s, e)
    case Claimed(_, _) => false
    case Answered(to) => to == Answering(s) && IsAskedFor(s, e)
    case Reported(to) => to == Answering(s) && IsCommand(e) && e.command == ReportQuery(true)
  }

  // What is said is due, and what it says was done is done; and a session that does not hold the link
  // is told who does.
  ghost predicate IsHonest(said: Said, s: Service, t: Service, e: Event) {
    match said
    case Claimed(to, holder) => e.Received? && e.session == to && s.claim == Some(holder) && holder != to
    case Acknowledged(_, true, reason) => IsMeant(said, s, e) && IsDone(reason, s, t)
    case Prompted(_, prompt) =>
      && IsMeant(said, s, e) && t.prompt == Prompt(prompt, s.now, if prompt == Set then e.command.frame else s.prompt.frame)
      && t.approved == if prompt == Dfu then e.command.version.value else s.approved
    case _ => IsMeant(said, s, e)
  }

  // Everything said for an event is honest, and nothing said before is lost.
  ghost predicate IsHonestStep(s: Service, t: Service, e: Event) {
    s.said <= t.said && forall i :: |s.said| <= i < |t.said| ==> IsHonest(t.said[i], s, t, e)
  }

  ghost predicate OneSaid(s: Service, t: Service, e: Event) {
    |t.said| == |s.said| + 1 && t.said[..|s.said|] == s.said && IsHonest(t.said[|s.said|], s, t, e)
  }

  ghost predicate SaysJust(s: Service, t: Service, y: Said) {
    |t.said| == |s.said| + 1 && t.said[..|s.said|] == s.said && t.said[|s.said|] == y
  }

  lemma OneSaidIsHonest(s: Service, t: Service, e: Event)
    requires OneSaid(s, t, e)
    ensures IsHonestStep(s, t, e)
  {
    hide IsHonest;
  }

  // The service's own tests are these facts.
  lemma Readings(s: Service)
    ensures OnGround(s) <==> s.world.flight == Ground
    ensures Writable(s) <==> Powered(s)
    ensures Live(s) <==> InSession(s)
    ensures Activated(s) <==> s.identity.present && s.identity.activated
    ensures RegisterExempt(s) <==> s.prompt.pending == Register && !(s.identity.present && s.identity.activated)
    ensures RefusedInFlight(s) <==> s.identity.activated && s.world.flight != Ground
    ensures Holder(s) == Answering(s)
  {}

  lemma SettingsAnswered(s: Service, e: Event)
    requires e.Received? && e.command.SetSettings? && Holds(s, e.session)
    ensures OneSaid(s, SettingsAsked(s, e.command.frame, e.command.described), e)
  {
    hide Live, InSession, Writable, Powered, OnGround, Activated, RegisterExempt, RefusedInFlight, Elapsed;
    Readings(s);
  }

  lemma FirmwareAnswered(s: Service, e: Event)
    requires e.Received? && e.command.InstallFirmware? && Holds(s, e.session)
    ensures OneSaid(s, FirmwareAsked(s, e.command.version, e.command.older), e)
  {
    hide Live, InSession, Writable, Powered, OnGround, Activated, RegisterExempt, RefusedInFlight, Elapsed;
    Readings(s);
  }

  lemma ChallengeAnswered(s: Service, e: Event)
    requires e.Received? && e.command.Challenge? && s.identity.present
    ensures OneSaid(s, Challenged(s, e.command.provisioned, e.command.drawn), e)
  {
    hide Live, InSession, Writable, Powered, OnGround, Activated, RegisterExempt, RefusedInFlight, Elapsed;
    Readings(s);
  }

  lemma RegisterAnswered(s: Service, e: Event)
    requires e.Received? && e.command.RegisterUnit? && Holds(s, e.session) && s.identity.present
    ensures OneSaid(s, RegisterAsked(s, e.command.provisioned, e.command.wide, e.command.valid), e)
  {
    hide Live, InSession, Writable, Powered, OnGround, Activated, RegisterExempt, RefusedInFlight, Elapsed;
    Readings(s);
  }

  // One thing to send for every command of the holder's but a verified unlock of an activated unit,
  // whose answer waits for its write.
  lemma CommandAnswered(s: Service, e: Event)
    requires e.Received? && Holds(s, e.session) && !e.command.UnlockUnit?
    ensures OneSaid(s, Obeyed(s, e.command), e)
  {
    hide Live, Elapsed, SettingsAsked, FirmwareAsked, Challenged, RegisterAsked, Unlocked;
    match e.command
    case SetSettings(_, _) => SettingsAnswered(s, e);
    case InstallFirmware(_, _) => FirmwareAnswered(s, e);
    case Challenge(_, _) => if s.identity.present { ChallengeAnswered(s, e); }
    case RegisterUnit(_, _, _) => if s.identity.present { RegisterAnswered(s, e); }
    case _ =>
  }

  // The holder's command is answered by one thing, to the holder: a report if it asked for one and
  // there is something to report, else a frame.
  lemma OneAnswer(s: Service, session: nat, command: Command)
    requires (s.claim == None || Holds(s, session)) && !command.UnlockUnit?
    ensures var t := Step(s, Received(session, command));
      && |t.said| == |s.said| + 1 && t.said[..|s.said|] == s.said && Holds(t, session)
      && t.said[|s.said|].to == session
      && (t.said[|s.said|].Reported? <==> command == ReportQuery(true))
  {
    hide Obeyed, IsDue, IsDone;
    var g, e := Granted(s, session), Received(session, command);
    CommandAnswered(g, e);
    ObeyedRaises(g, session, command);
    ReportsAreAskedFor(g, command);
  }

  lemma ReportsAreAskedFor(s: Service, command: Command)
    ensures command == ReportQuery(true) ==> Obeyed(s, command).said == s.said + [Reported(Holder(s))]
  {}

  lemma SettledAnswers(s: Service, stored: bool)
    requires s.identity.due
    ensures var t := Settled(s, stored);
      && t.said == s.said + [if !Writable(s) then Acknowledged(Holder(s), false, Some(LowPower))
           else if !stored then Acknowledged(Holder(s), false, Some(Flash))
           else Acknowledged(Holder(s), true, Some(Unlock))]
      && t.claim == s.claim && (Writable(s) && stored ==> t.identity.activated)
  {}

  lemma UnlockAnswered(s: Service, e: Event)
    requires e.Received? && Holds(s, e.session) && e.command.UnlockUnit?
    ensures var t := Obeyed(s, e.command);
      OneSaid(s, t, e) || (t.said == s.said && t.identity.due && s.identity.activated && IsVerified(s, e))
  {
    hide Settled, Live, InSession, Writable, OnGround, Activated, RegisterExempt, RefusedInFlight, Elapsed;
    Readings(s);
    var i := Close(s.identity);
    var v := s.(identity := i.(tried := i.tried + [i.nonce], due := true));
    Readings(v);
    SettledAnswers(v, e.command.stored);
    UnlockedCases(s, e, v);
  }

  lemma UnlockedCases(s: Service, e: Event, v: Service)
    requires e.Received? && e.command.UnlockUnit?
    requires v == s.(identity := Close(s.identity).(tried := s.identity.tried + [s.identity.nonce], due := true))
    ensures var t := Obeyed(s, e.command);
      || (t == (if Activated(v) then v else Settled(v, e.command.stored)) && IsVerified(s, e))
      || (exists r :: IsDue(r, s, e) && t.said == s.said + [Acknowledged(Holder(s), false, Some(r))] && t.claim == s.claim)
  {
    hide Settled, Live, InSession, Writable, Powered, OnGround, Activated, RegisterExempt, RefusedInFlight, Elapsed;
    Readings(s);
    if !s.identity.present { assert IsDue(UnknownCommand, s, e); }
    else if RefusedInFlight(s) { assert IsDue(InFlight, s, e); }
    else if !Live(s) { assert IsDue(NoSession, s, e); }
    else if !Writable(s) { assert IsDue(LowPower, s, e); }
    else if !e.command.wellFormed || !e.command.verified { assert IsDue(BadSignature, s, e); }
  }

  // Another session's frame is answered once, with the holder's name.
  lemma OthersAnswered(s: Service, e: Event)
    requires e.Received? && s.claim.Some? && !Holds(s, e.session)
    ensures OneSaid(s, Step(s, e), e)
  {
    hide Obeyed;
  }

  lemma RegisteredAnswered(s: Service, e: Event)
    requires IsPress(s, e, Register)
    ensures OneSaid(s, Registered(s.(prompt := s.prompt.(pending := NoPrompt)), e.versioned, e.signed), e)
  {
    hide Writable, Powered, OnGround, Activated, RegisterExempt, RefusedInFlight, Elapsed;
    Readings(s);
    Readings(s.(prompt := s.prompt.(pending := NoPrompt)));
  }

  lemma SetAnswered(s: Service, e: Event)
    requires e.Confirm? && s.prompt.pending == Set && OnGround(s)
    ensures OneSaid(s, SetConfirmed(s, e.applied), e)
  {
    hide Live, InSession, Writable, Powered, OnGround, Activated, RegisterExempt, RefusedInFlight, Elapsed;
    Readings(s);
  }

  lemma GrantingAnswered(s: Service, e: Event)
    requires IsPress(s, e, s.prompt.pending)
    ensures OneSaid(s, Granting(s, e.applied, e.versioned, e.signed), e)
  {
    hide Live, Elapsed, Granting, OneSaid;
    GrantingIs(s, e);
    match s.prompt.pending
    case Register => RegisteredAnswered(s, e);
    case Set => SetAnswered(s, e);
    case Dfu => DfuAnswered(s, e);
    case Recovery => ShuttingAnswered(s, e);
    case PowerOff => ShuttingAnswered(s, e);
    case EraseLog => LatchAnswered(s, e);
    case GnssColdStart => LatchAnswered(s, e);
  }

  lemma GrantingIs(s: Service, e: Event)
    requires e.Confirm?
    ensures var t := Granting(s, e.applied, e.versioned, e.signed);
      && (s.prompt.pending == Register ==> t == Registered(s.(prompt := s.prompt.(pending := NoPrompt)), e.versioned, e.signed))
      && (s.prompt.pending == Set ==> t == SetConfirmed(s, e.applied))
  {
    hide Registered, SetConfirmed;
  }

  lemma DfuAnswered(s: Service, e: Event)
    requires e.Confirm? && s.prompt.pending == Dfu && OnGround(s)
    ensures OneSaid(s, Granting(s, e.applied, e.versioned, e.signed), e)
  {
    hide Registered, SetConfirmed, Live, InSession, Writable, Powered, OnGround, Activated, RegisterExempt, RefusedInFlight, Elapsed;
    Readings(s);
  }

  lemma ShuttingAnswered(s: Service, e: Event)
    requires e.Confirm? && OnGround(s) && (s.prompt.pending == Recovery || s.prompt.pending == PowerOff)
    ensures OneSaid(s, Granting(s, e.applied, e.versioned, e.signed), e)
  {
    hide Registered, SetConfirmed, Live, InSession, Writable, Powered, OnGround, Activated, RegisterExempt, RefusedInFlight, Elapsed;
    Readings(s);
  }

  lemma LatchAnswered(s: Service, e: Event)
    requires e.Confirm? && OnGround(s) && (s.prompt.pending == EraseLog || s.prompt.pending == GnssColdStart)
    ensures OneSaid(s, Granting(s, e.applied, e.versioned, e.signed), e)
  {
    hide Registered, SetConfirmed, Live, InSession, Writable, Powered, OnGround, Activated, RegisterExempt, RefusedInFlight, Elapsed;
    Readings(s);
  }

  lemma PressAnswered(s: Service, e: Event)
    requires e.Confirm?
    ensures if OnGround(s) && s.prompt.pending == NoPrompt then Step(s, e).said == s.said else OneSaid(s, Step(s, e), e)
  {
    hide Live, Elapsed, Granting;
    if OnGround(s) || RegisterExempt(s) {
      if s.prompt.pending != NoPrompt { GrantingAnswered(s, e); } else { NothingToGrant(s, e); }
    }
  }

  lemma NothingToGrant(s: Service, e: Event)
    requires e.Confirm? && s.prompt.pending == NoPrompt
    ensures Granting(s, e.applied, e.versioned, e.signed) == s
  {}

  // ----- the tick, which may say two things

  ghost function Overdue(s: Service): Said {
    Acknowledged(Answering(s), false, Some(Expired))
  }

  // What the tick says of a finished upload.
  lemma InstallMeant(s: Service, e: Event, y: Said)
    requires e.Tick? && y != Overdue(s)
    ensures var a := WindowTicked(s, e.time % WRAP, e.upload);
      && (IsMeant(y, s, e) <==> SaysJust(s, a, y))
      && (IsMeant(y, s, e) ==> y.Acknowledged? && (y.accepted ==> y.reason == Some(Install) && a.latches.install))
  {
    hide Writable, OnGround, InstallReceived;
    var t := Finished(s, e);
    Readings(t);
    if IsUploaded(s, e) { InstallSays(s, e, t, y); }
  }

  lemma InstallShape(s: Service, e: Event)
    requires e.Tick?
    ensures var a := WindowTicked(s, e.time % WRAP, e.upload);
      s.said <= a.said && |a.said| <= |s.said| + 1 && (|a.said| > |s.said| ==> a.said[|s.said|] != Overdue(s))
  {}

  // The service as the upload finds it.
  ghost function Finished(s: Service, e: Event): Service
    requires e.Tick?
  {
    s.(now := e.time % WRAP, window := s.window.(open := true))
  }

  lemma InstallSays(s: Service, e: Event, t: Service, y: Said)
    requires e.Tick? && IsUploaded(s, e) && y != Overdue(s) && t == s.(now := t.now, window := t.window)
    requires (OnGround(t) <==> s.world.flight == Ground) && (Writable(t) <==> Powered(s))
    ensures var a := InstallReceived(t, e.upload);
      && (IsMeant(y, s, e) <==> SaysJust(s, a, y))
      && (IsMeant(y, s, e) ==> y.Acknowledged? && (y.accepted ==> y.reason == Some(Install) && a.latches.install))
  {
    hide Writable, Powered, OnGround, IsUploaded;
  }

  // What it says of the prompt.
  lemma ExpiryMeant(s: Service, e: Event, b: Service)
    requires e.Tick? && b.prompt == s.prompt && b.now == e.time % WRAP && b.claim == s.claim
    ensures var t := PromptTicked(b);
      && t.latches == b.latches && t.claim == b.claim
      && t.said == b.said + if IsDue(Expired, s, e) then [Overdue(s)] else []
  {}

  lemma NonceTickedSays(s: Service)
    ensures NonceTicked(s).said == s.said && NonceTicked(s).prompt == s.prompt && NonceTicked(s).now == s.now
    ensures NonceTicked(s).claim == s.claim && NonceTicked(s).latches == s.latches
  {}

  lemma TickMeant(s: Service, e: Event, y: Said)
    requires e.Tick?
    ensures var t := Step(s, e);
      && s.said <= t.said && (y in t.said[|s.said|..] <==> IsMeant(y, s, e)) && (IsMeant(y, s, e) ==> IsHonest(y, s, t, e))
  {
    hide WindowTicked, NonceTicked, PromptTicked, IsMeant, IsDue, IsUploaded, InstallReceived;
    var a, t := WindowTicked(s, e.time % WRAP, e.upload), Step(s, e);
    WindowTickedCases(s, e);
    NonceTickedSays(a);
    ExpiryMeant(s, e, NonceTicked(a));
    OverdueMeant(s, e);
    InstallShape(s, e);
    Behind(s.said, a.said, if IsDue(Expired, s, e) then [Overdue(s)] else [], y);
    if y != Overdue(s) { InstallMeant(s, e, y); }
  }

  lemma Behind(was: seq<Said>, soFar: seq<Said>, more: seq<Said>, y: Said)
    requires was <= soFar && |soFar| <= |was| + 1
    ensures y in (soFar + more)[|was|..] <==> (|soFar| > |was| && soFar[|was|] == y) || y in more
  {
    assert (soFar + more)[|was|..] == soFar[|was|..] + more;
  }

  lemma TickAnswered(s: Service, e: Event)
    requires e.Tick?
    ensures IsHonestStep(s, Step(s, e), e)
  {
    hide IsHonest, Step, IsMeant;
    var t := Step(s, e);
    TickMeant(s, e, Overdue(s));
    forall i | |s.said| <= i < |t.said| ensures IsHonest(t.said[i], s, t, e) {
      assert t.said[i] == t.said[|s.said|..][i - |s.said|];
      TickMeant(s, e, t.said[i]);
    }
  }

  lemma OverdueMeant(s: Service, e: Event)
    ensures IsMeant(Overdue(s), s, e) <==> IsDue(Expired, s, e)
  {
    hide IsDue;
  }

  // Over every event: whatever the service says is so.
  lemma NothingUntrueIsSaid(s: Service, e: Event)
    ensures !e.Received? ==> IsHonestStep(s, Step(s, e), e)
    ensures e.Received? && (s.claim == None || Holds(s, e.session)) ==> IsHonestStep(Granted(s, e.session), Step(s, e), e)
    ensures e.Received? && s.claim.Some? && !Holds(s, e.session) ==> IsHonestStep(s, Step(s, e), e)
  {
    hide IsHonest, Ticked, Confirmed, Obeyed, Elapsed;
    match e
    case Tick(_, _) => TickAnswered(s, e);
    case Confirm(_, _, _) => PressAnswered(s, e); if OneSaid(s, Step(s, e), e) { OneSaidIsHonest(s, Step(s, e), e); }
    case Received(session, command) =>
      var g := if s.claim == None || Holds(s, session) then Granted(s, session) else s;
      if s.claim == None || Holds(s, session) {
        if command.UnlockUnit? { UnlockAnswered(g, e); } else { CommandAnswered(g, e); }
      } else {
        OthersAnswered(s, e);
      }
      if OneSaid(g, Step(s, e), e) { OneSaidIsHonest(g, Step(s, e), e); }
    case _ => QuietEvents(s, e);
  }

  lemma QuietEvents(s: Service, e: Event)
    requires !e.Tick? && !e.Confirm? && !e.Received?
    ensures IsHonestStep(s, Step(s, e), e)
  {
    hide Ticked, Confirmed, Asked, Elapsed, Settled;
    match e
    case UnlockSettled(stored) => if s.identity.present { SettledHonest(s, e); }
    case _ =>
  }

  lemma SettledHonest(s: Service, e: Event)
    requires e.UnlockSettled?
    ensures s.identity.present ==> IsHonestStep(s, Settled(s, e.stored), e)
  {
    if s.identity.due { SettledAnswers(s, e.stored); }
  }

  // ----- and whatever is due is said

  // No two things are due at once, but at a tick.
  lemma OnlyOneIsMeant(s: Service, e: Event, x: Said, y: Said)
    requires !e.Tick? && IsMeant(x, s, e) && IsMeant(y, s, e)
    ensures x == y
  {
    hide Powered, InSession, Answering;
    match e
    case Received(_, command) => OnlyOneToACommand(s, e, x, y);
    case Confirm(_, _, _) => OnlyOneToAPress(s, e, x, y);
    case _ =>
  }

  lemma OnlyOneToAPress(s: Service, e: Event, x: Said, y: Said)
    requires e.Confirm? && IsMeant(x, s, e) && IsMeant(y, s, e)
    ensures x == y
  {
    hide Powered, InSession, Answering;
  }

  lemma OnlyOneToACommand(s: Service, e: Event, x: Said, y: Said)
    requires e.Received? && IsMeant(x, s, e) && IsMeant(y, s, e)
    ensures x == y
  {
    hide Powered, InSession, Answering;
    match e.command
    case UnlockUnit(_, _, _) =>
    case RegisterUnit(_, _, _) =>
    case _ =>
  }

  // The service an event finds: with a first frame's sender already its holder.
  ghost function Found(s: Service, e: Event): Service {
    if e.Received? then Granted(s, e.session) else s
  }

  // Over every event: a thing is said exactly when it is due, a refusal exactly when its reason is
  // the first that holds; and a frame of a session that does not hold the link brings one word alone.
  lemma SaidExactlyWhenDue(s: Service, e: Event, y: Said)
    ensures s.said <= Step(s, e).said
    ensures if e.Received? && s.claim.Some? && s.claim.value != e.session then
        Step(s, e).said == s.said + [Claimed(e.session, s.claim.value)]
      else y in Step(s, e).said[|s.said|..] <==> IsMeant(y, Found(s, e), e)
  {
    hide IsMeant, Ticked, Confirmed, Obeyed, IsDue, IsDone;
    match e
    case Tick(_, _) => TickMeant(s, e, y);
    case Confirm(_, _, _) => PressMeant(s, e, y);
    case Received(session, command) =>
      if s.claim == None || Holds(s, session) { CommandMeant(Found(s, e), e, y); } else { OthersAnswered(s, e); }
    case _ => OtherMeant(s, e, y);
  }

  // One thing was said and it was due, so nothing else was.
  lemma JustThat(s: Service, t: Service, e: Event, y: Said)
    requires OneSaid(s, t, e) && !e.Tick? && !t.said[|s.said|].Claimed?
    ensures s.said <= t.said && (y in t.said[|s.said|..] <==> IsMeant(y, s, e))
  {
    hide IsMeant;
    var x := t.said[|s.said|];
    assert t.said[|s.said|..] == [x];
    if IsMeant(y, s, e) { OnlyOneIsMeant(s, e, x, y); }
  }

  lemma CommandMeant(s: Service, e: Event, y: Said)
    requires e.Received? && Holds(s, e.session)
    ensures var t := Obeyed(s, e.command); s.said <= t.said && (y in t.said[|s.said|..] <==> IsMeant(y, s, e))
  {
    hide IsMeant, Obeyed, OneSaid;
    var t := Obeyed(s, e.command);
    if e.command.UnlockUnit? { UnlockAnswered(s, e); } else { CommandAnswered(s, e); }
    if OneSaid(s, t, e) {
      NotClaimed(s, t, e);
      JustThat(s, t, e, y);
    } else {
      HeldMeansNothing(s, e, y);
    }
  }

  lemma NotClaimed(s: Service, t: Service, e: Event)
    requires OneSaid(s, t, e) && (e.Received? ==> Holds(s, e.session))
    ensures !t.said[|s.said|].Claimed?
  {
    hide IsMeant, IsDone;
  }

  // An unlock that verifies on an activated unit is held for its write, and nothing is due yet.
  lemma HeldMeansNothing(s: Service, e: Event, y: Said)
    requires e.Received? && Holds(s, e.session) && e.command.UnlockUnit?
    requires !OneSaid(s, Obeyed(s, e.command), e)
    ensures Obeyed(s, e.command).said == s.said && !IsMeant(y, s, e)
  {
    hide Obeyed, OneSaid;
    UnlockAnswered(s, e);
  }

  lemma PressMeant(s: Service, e: Event, y: Said)
    requires e.Confirm?
    ensures var t := Step(s, e); s.said <= t.said && (y in t.said[|s.said|..] <==> IsMeant(y, s, e))
  {
    hide IsMeant, Step, OneSaid;
    PressAnswered(s, e);
    if OneSaid(s, Step(s, e), e) {
      NotClaimed(s, Step(s, e), e);
      JustThat(s, Step(s, e), e, y);
    } else {
      NothingToPress(s, e, y);
    }
  }

  lemma NothingToPress(s: Service, e: Event, y: Said)
    requires e.Confirm? && s.prompt.pending == NoPrompt && OnGround(s)
    ensures !IsMeant(y, s, e)
  {}

  lemma OtherMeant(s: Service, e: Event, y: Said)
    requires !e.Tick? && !e.Confirm? && !e.Received?
    ensures var t := Step(s, e); s.said <= t.said && (y in t.said[|s.said|..] <==> IsMeant(y, s, e))
  {
    hide IsMeant, Step, OneSaid, IsHonest;
    QuietEvents(s, e);
    OtherShape(s, e, y);
    if |Step(s, e).said| == |s.said| + 1 {
      assert OneSaid(s, Step(s, e), e) by { OneIsHonest(s, Step(s, e), e); }
      NotClaimed(s, Step(s, e), e);
      JustThat(s, Step(s, e), e, y);
    }
  }

  lemma OneIsHonest(s: Service, t: Service, e: Event)
    requires IsHonestStep(s, t, e) && |t.said| == |s.said| + 1
    ensures OneSaid(s, t, e)
  {
    hide IsHonest;
  }

  // The other events that are answered.
  ghost predicate HasAnswer(s: Service, e: Event) {
    || e.Cancel? || e.LogEraseAsked? || (e.UnlockSettled? && s.identity.present && s.identity.due)
    || (e == FlightReported(Airborne) && s.prompt.pending != NoPrompt && !RegisterExempt(s))
  }

  lemma OtherShape(s: Service, e: Event, y: Said)
    requires !e.Tick? && !e.Confirm? && !e.Received?
    ensures |Step(s, e).said| == |s.said| + if HasAnswer(s, e) then 1 else 0
    ensures IsMeant(y, s, e) ==> HasAnswer(s, e)
  {
    hide Ticked, Confirmed, Asked, IsMeant;
    if IsMeant(y, s, e) { MeantIsAnswered(s, e, y); }
  }

  lemma MeantIsAnswered(s: Service, e: Event, y: Said)
    requires !e.Tick? && !e.Confirm? && !e.Received? && IsMeant(y, s, e)
    ensures HasAnswer(s, e)
  {
    hide InSession, Powered;
  }

  ghost predicate SaysWhatIsDue(s: Service, t: Service, e: Event) {
    && s.said <= t.said
    && if e.Received? && s.claim.Some? && s.claim.value != e.session then
         t.said == s.said + [Claimed(e.session, s.claim.value)]
       else forall y :: y in t.said[|s.said|..] <==> IsMeant(y, Found(s, e), e)
  }

  lemma StepSaysWhatIsDue(s: Service, e: Event)
    ensures SaysWhatIsDue(s, Step(s, e), e)
  {
    hide IsMeant, Step, Found;
    SaidExactlyWhenDue(s, e, Overdue(s));
    forall y ensures s.said <= Step(s, e).said
      ensures !(e.Received? && s.claim.Some? && s.claim.value != e.session) ==>
        (y in Step(s, e).said[|s.said|..] <==> IsMeant(y, Found(s, e), e))
    {
      SaidExactlyWhenDue(s, e, y);
    }
  }

  // A question that can be answered is, whatever the unit is doing.
  lemma QuestionIsAnswered(s: Service, session: nat)
    requires s.claim == None || s.claim == Some(session)
    ensures Step(s, Received(session, Query(true))).said == s.said + [Answered(session)]
    ensures Step(s, Received(session, ReportQuery(true))).said == s.said + [Reported(session)]
  {}
}
