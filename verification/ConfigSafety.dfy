/** Safety of ConfigService over every run of events, from the state it starts in. */
module ConfigSafety {
  import opened ConfigState

  // ----- what stands, since when, and what takes it away

  // The things a run is watched for.
  datatype Watch = Window | Standing(prompt: Pending) | Latch(latch: Pending) | Installing

  ghost predicate Stands(w: Watch, s: Service) {
    match w
    case Window => s.window.open
    case Standing(p) => p != NoPrompt && s.prompt.pending == p
    case Latch(p) => IsLatched(s, p)
    case Installing => s.latches.install
  }

  ghost predicate IsLatched(s: Service, p: Pending) {
    match p
    case Recovery => s.latches.recovery
    case PowerOff => s.latches.powerOff
    case EraseLog => s.latches.eraseLog
    case GnssColdStart => s.latches.coldStart
    case _ => false
  }

  // A confirming press that finds this prompt, on the ground.
  ghost predicate Confirms(s: Service, e: Event, p: Pending) {
    e.Confirm? && s.prompt.pending == p && OnGround(s)
  }

  // The prompt an event raises: the log service asking, or a frame of the holder's (the first to
  // speak becomes the holder).
  ghost function Raised(s: Service, e: Event): Pending {
    match e
    case LogEraseAsked => if OnGround(s) then EraseLog else NoPrompt
    case Received(session, command) =>
      if s.claim == None || Holds(s, session) then RaisedBy(Granted(s, session), command) else NoPrompt
    case _ => NoPrompt
  }

  ghost function RaisedBy(s: Service, command: Command): Pending {
    match command
    case SetSettings(_, described) => if OnGround(s) && Writable(s) && described == Ok then Set else NoPrompt
    case InstallFirmware(version, older) =>
      if OnGround(s) && Writable(s) && version.Some? && !older then Dfu else NoPrompt
    case EnterRecovery => if OnGround(s) then Recovery else NoPrompt
    case SwitchOff => if OnGround(s) then PowerOff else NoPrompt
    case ColdStart => if OnGround(s) then GnssColdStart else NoPrompt
    case RegisterUnit(provisioned, wide, valid) =>
      if s.identity.present && (OnGround(s) || !s.identity.activated) && provisioned && Live(s) && wide && valid
      then Register else NoPrompt
    case _ => NoPrompt
  }

  ghost predicate HolderLost(s: Service, e: Event) {
    e.LinkDown? && Holds(s, e.session)
  }

  // The tick at which a finished upload is the version asked for last, signed, on the ground and powered.
  ghost predicate Installs(s: Service, e: Event) {
    && e.Tick? && s.window.open && Elapsed(e.time % WRAP, s.window.since) < UPLOAD_WINDOW_MS
    && e.upload.finished && e.upload.staged == Some(s.approved) && e.upload.trusted
    && OnGround(s) && Writable(s)
  }

  ghost predicate Begins(w: Watch, s: Service, e: Event) {
    match w
    case Window => Confirms(s, e, Dfu) && Writable(s)
    case Standing(p) => p != NoPrompt && Raised(s, e) == p
    case Latch(p) => (p == Recovery || p == PowerOff || p == EraseLog || p == GnssColdStart) && Confirms(s, e, p)
    case Installing => Installs(s, e)
  }

  ghost predicate Ends(w: Watch, s: Service, e: Event) {
    match w
    case Window =>
      || e == FlightReported(Airborne) || e.Cancel? || e.WindowClosed? || HolderLost(s, e)
      || (e.Tick? && (e.upload.finished || Elapsed(e.time % WRAP, s.window.since) >= UPLOAD_WINDOW_MS))
      || Confirms(s, e, Recovery) || Confirms(s, e, PowerOff) || (Confirms(s, e, Dfu) && !Writable(s))
    case Standing(p) =>
      || (e == FlightReported(Airborne) && !RegisterExempt(s)) || e.Cancel? || HolderLost(s, e) || e.Confirm?
      || (e.Tick? && Elapsed(e.time % WRAP, s.prompt.since) >= PROMPT_FORGET_MS)
      || (Raised(s, e) != NoPrompt && Raised(s, e) != p)
    case Latch(p) => e == Cleared(p)
    case Installing => e.InstallCleared?
  }

  // ----- what a frame on the link leaves alone

  // Only the prompt, the version asked for, the claim, the nonce session and what is said may differ.
  ghost predicate Apart(s: Service, t: Service) {
    t.world == s.world && t.window == s.window && t.latches == s.latches && t.store == s.store && t.now == s.now
  }

  lemma UnlockedIsApart(s: Service, wellFormed: bool, verified: bool, stored: bool)
    ensures Apart(s, Unlocked(s, wellFormed, verified, stored))
  {}

  lemma ObeyedIsApart(s: Service, command: Command)
    ensures Apart(s, Obeyed(s, command))
  {
    hide Unlocked;
    match command
    case Challenge(provisioned, drawn) =>
    case UnlockUnit(wellFormed, verified, stored) => UnlockedIsApart(s, wellFormed, verified, stored);
    case RegisterUnit(provisioned, wide, valid) =>
    case _ =>
  }

  lemma AskedIsApart(s: Service, session: nat, command: Command)
    ensures Apart(s, Asked(s, session, command))
  {
    hide Obeyed;
    ObeyedIsApart(Granted(s, session), command);
  }

  lemma GrantingCases(s: Service, e: Event)
    requires e.Confirm?
    ensures var t := Granting(s, e.applied, e.versioned, e.signed);
      && t.prompt.pending == NoPrompt && t.world == s.world && t.now == s.now && t.approved == s.approved
      && t.window == (
        match s.prompt.pending
        case Dfu => if Writable(s) then UploadWindow(true, s.now) else s.window.(open := false)
        case Recovery => s.window.(open := false)
        case PowerOff => s.window.(open := false)
        case _ => s.window)
      && t.latches == (
        match s.prompt.pending
        case Recovery => s.latches.(recovery := true)
        case PowerOff => s.latches.(powerOff := true)
        case EraseLog => s.latches.(eraseLog := true)
        case GnssColdStart => s.latches.(coldStart := true)
        case _ => s.latches)
  {
    hide Registered, SetConfirmed;
    SetConfirmedKeeps(s, e.applied);
    RegisteredKeeps(s.(prompt := s.prompt.(pending := NoPrompt)), e.versioned, e.signed);
  }

  lemma ConfirmedWindow(s: Service, e: Event)
    requires e.Confirm?
    ensures var t := Step(s, e);
      && t.prompt.pending == NoPrompt && t.latches.install == s.latches.install && t.world == s.world && t.now == s.now
      && (t.window.open <==> Begins(Window, s, e) || (s.window.open && !Ends(Window, s, e)))
      && (t.window == s.window || t.window == s.window.(open := false) || t.window == UploadWindow(true, s.now))
  {
    hide Granting;
    GrantingCases(s, e);
  }

  lemma ConfirmedLatch(s: Service, e: Event, p: Pending)
    requires e.Confirm?
    ensures IsLatched(Step(s, e), p) <==> IsLatched(s, p) || Begins(Latch(p), s, e)
  {
    hide Granting, Writable, Activated;
    GrantingCases(s, e);
    match p
    case Recovery => case PowerOff => case EraseLog => case GnssColdStart =>
    case _ =>
  }

  lemma SetConfirmedKeeps(s: Service, applied: Status)
    ensures var t := SetConfirmed(s, applied);
      && t.prompt.pending == NoPrompt && t.world == s.world && t.now == s.now
      && t.window == s.window && t.latches == s.latches && t.approved == s.approved
  {}

  lemma RegisteredKeeps(s: Service, versioned: bool, signed: bool)
    ensures var t := Registered(s, versioned, signed);
      && t.prompt == s.prompt && t.world == s.world && t.now == s.now
      && t.window == s.window && t.latches == s.latches && t.approved == s.approved
  {}

  lemma TickedCases(s: Service, e: Event)
    requires e.Tick?
    ensures var t := Step(s, e);
      && t.world == s.world && t.window.since == s.window.since && t.prompt.since == s.prompt.since
      && t.approved == s.approved && t.claim == s.claim && t.now == e.time % WRAP
      && (t.window.open <==> s.window.open && !Ends(Window, s, e))
      && (t.latches.install <==> s.latches.install || Installs(s, e))
      && t.prompt.pending == (if Elapsed(t.now, s.prompt.since) >= PROMPT_FORGET_MS then NoPrompt else s.prompt.pending)
      && (forall p: Pending :: IsLatched(t, p) <==> IsLatched(s, p))
  {
    var a := WindowTicked(s, e.time % WRAP, e.upload);
    WindowTickedCases(s, e);
    hide WindowTicked, Installs, Ends;
    NonceTickedKeeps(a);
  }

  lemma WindowTickedCases(s: Service, e: Event)
    requires e.Tick?
    ensures var t := WindowTicked(s, e.time % WRAP, e.upload);
      && t.now == e.time % WRAP && t.world == s.world && t.window.since == s.window.since && t.prompt == s.prompt
      && t.approved == s.approved && t.claim == s.claim && (forall p: Pending :: IsLatched(t, p) <==> IsLatched(s, p))
      && (t.window.open <==> s.window.open && !Ends(Window, s, e))
      && (t.latches.install <==> s.latches.install || Installs(s, e))
  {}

  lemma NonceTickedKeeps(s: Service)
    ensures var t := NonceTicked(s);
      && t.now == s.now && t.world == s.world && t.window == s.window && t.prompt == s.prompt
      && t.approved == s.approved && t.claim == s.claim && t.latches == s.latches
  {}

  lemma OthersKeep(s: Service, e: Event)
    ensures e.UnlockSettled? ==> Apart(s, Step(s, e))
    ensures var t := Step(s, e);
      e.LinkDown? || e.FlightReported? ==>
        && t.latches == s.latches && t.store == s.store && t.now == s.now
        && t.window == (if HolderLost(s, e) || e == FlightReported(Airborne) then s.window.(open := false) else s.window)
  {
    hide Asked, Ticked, Confirmed;
    match e
    case UnlockSettled(_) =>
    case LinkDown(_) =>
    case FlightReported(_) =>
    case _ =>
  }

  lemma WindowStep(s: Service, e: Event)
    ensures Stands(Window, Step(s, e)) <==> Begins(Window, s, e) || (Stands(Window, s) && !Ends(Window, s, e))
  {
    hide Asked, Ticked, Confirmed, Settled, LinkLost, FlightSet;
    OthersKeep(s, e);
    match e
    case Tick(_, _) => TickedCases(s, e);
    case Received(session, command) => AskedIsApart(s, session, command);
    case Confirm(_, _, _) => ConfirmedWindow(s, e);
    case _ =>
  }

  lemma InstallStep(s: Service, e: Event)
    ensures Stands(Installing, Step(s, e)) <==> Begins(Installing, s, e) || (Stands(Installing, s) && !Ends(Installing, s, e))
  {
    hide Asked, Ticked, Confirmed, Settled, LinkLost, FlightSet;
    OthersKeep(s, e);
    match e
    case Tick(_, _) => TickedCases(s, e);
    case Received(session, command) => AskedIsApart(s, session, command);
    case Confirm(_, _, _) => ConfirmedWindow(s, e);
    case _ =>
  }

  lemma LatchStep(s: Service, e: Event, p: Pending)
    ensures Stands(Latch(p), Step(s, e)) <==> Begins(Latch(p), s, e) || (Stands(Latch(p), s) && !Ends(Latch(p), s, e))
  {
    hide Asked, Ticked, Confirmed, Settled, LinkLost, FlightSet;
    OthersKeep(s, e);
    match e
    case Tick(_, _) => TickedCases(s, e);
    case Received(session, command) => AskedIsApart(s, session, command);
    case Confirm(_, _, _) => ConfirmedLatch(s, e, p);
    case _ =>
  }

  // ----- prompts

  // What raising a prompt leaves behind.
  ghost predicate IsRaised(s: Service, t: Service, p: Pending, frame: seq<int>, version: Version) {
    if p == NoPrompt then t.prompt == s.prompt && t.approved == s.approved
    else t.prompt == Prompt(p, s.now, frame) && t.approved == version
  }

  ghost function FrameOf(s: Service, e: Event): seq<int> {
    if e.Received? && e.command.SetSettings? then e.command.frame else s.prompt.frame
  }

  ghost function VersionOf(s: Service, e: Event): Version {
    if e.Received? && e.command.InstallFirmware? && e.command.version.Some? then e.command.version.value else s.approved
  }

  lemma UnlockedKeepsPrompt(s: Service, wellFormed: bool, verified: bool, stored: bool)
    ensures var t := Unlocked(s, wellFormed, verified, stored); t.prompt == s.prompt && t.approved == s.approved
  {}

  lemma ObeyedRaises(s: Service, session: nat, command: Command)
    ensures var e := Received(session, command);
      IsRaised(s, Obeyed(s, command), RaisedBy(s, command), FrameOf(s, e), VersionOf(s, e))
      && Obeyed(s, command).claim == s.claim
  {
    hide Unlocked;
    match command
    case UnlockUnit(wellFormed, verified, stored) => UnlockedKeepsPrompt(s, wellFormed, verified, stored);
      UnlockedKeepsClaim(s, wellFormed, verified, stored);
    case _ =>
  }

  lemma UnlockedKeepsClaim(s: Service, wellFormed: bool, verified: bool, stored: bool)
    ensures Unlocked(s, wellFormed, verified, stored).claim == s.claim
  {}

  lemma AskedRaises(s: Service, e: Event)
    requires e.Received?
    ensures IsRaised(s, Step(s, e), Raised(s, e), FrameOf(s, e), VersionOf(s, e))
  {
    hide Obeyed, RaisedBy, IsRaised;
    ObeyedRaises(Granted(s, e.session), e.session, e.command);
    SameRaised(s, Granted(s, e.session), Step(s, e), RaisedBy(Granted(s, e.session), e.command), FrameOf(s, e), VersionOf(s, e));
    if !(s.claim == None || Holds(s, e.session)) { NothingRaised(s, Step(s, e), FrameOf(s, e), VersionOf(s, e)); }
  }

  lemma SameRaised(s: Service, g: Service, t: Service, p: Pending, frame: seq<int>, version: Version)
    requires g.prompt == s.prompt && g.approved == s.approved && g.now == s.now
    ensures IsRaised(g, t, p, frame, version) ==> IsRaised(s, t, p, frame, version)
  {}

  lemma NothingRaised(s: Service, t: Service, frame: seq<int>, version: Version)
    requires t.prompt == s.prompt && t.approved == s.approved
    ensures IsRaised(s, t, NoPrompt, frame, version)
  {}

  // Any other event leaves the prompt as it is or takes it away, and leaves the version asked for.
  lemma PromptElsewhere(s: Service, e: Event)
    requires !e.Received?
    ensures var t := Step(s, e);
      && (Raised(s, e) != NoPrompt ==> IsRaised(s, t, EraseLog, s.prompt.frame, s.approved))
      && (Raised(s, e) == NoPrompt ==>
        && t.approved == s.approved
        && (s.prompt.pending != NoPrompt && !Ends(Standing(s.prompt.pending), s, e) ==> t.prompt == s.prompt)
        && (s.prompt.pending == NoPrompt || Ends(Standing(s.prompt.pending), s, e) ==> t.prompt.pending == NoPrompt))
  {
    hide Ticked, Confirmed;
    match e
    case Tick(_, _) => TickedCases(s, e); TickedPrompt(s, e);
    case Confirm(_, _, _) => ConfirmedWindow(s, e); ConfirmedApproved(s, e);
    case _ =>
  }

  lemma TickedPrompt(s: Service, e: Event)
    requires e.Tick?
    ensures var t := Step(s, e); t.prompt.pending != NoPrompt ==> t.prompt == s.prompt
  {
    hide WindowTicked;
    WindowTickedCases(s, e);
    NonceTickedKeeps(WindowTicked(s, e.time % WRAP, e.upload));
  }

  lemma ConfirmedApproved(s: Service, e: Event)
    requires e.Confirm?
    ensures Step(s, e).approved == s.approved
  {
    hide Granting;
    GrantingCases(s, e);
  }

  lemma PromptStep(s: Service, e: Event, p: Pending)
    ensures Stands(Standing(p), Step(s, e)) <==>
      Begins(Standing(p), s, e) || (Stands(Standing(p), s) && !Ends(Standing(p), s, e))
    ensures Begins(Standing(p), s, e) ==> Step(s, e).prompt.since == s.now
    ensures Stands(Standing(p), s) && !Begins(Standing(p), s, e) && !Ends(Standing(p), s, e) ==>
      Step(s, e).prompt.since == s.prompt.since
  {
    hide Step, RaisedBy;
    if e.Received? { AskedRaises(s, e); } else { PromptElsewhere(s, e); }
  }
}
