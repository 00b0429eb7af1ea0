/**
 ConfigService of firmware/core/comms/config, with LinkClaim and IdentityLink beside it: the fields
 and methods of the source.  An object keeps, for the proofs only, the events of its life; what it
 holds is always what that run makes of a new service, so everything proved over runs holds of it.
 */
module ConfigService {
  import opened ConfigState
  import opened ConfigSafety
  import opened ConfigRuns
  import opened ConfigAnswers
  import opened ConfigClaim

  // firmware/core/comms/link_claim.h
  class LinkClaim {
    var held: bool
    var holder: nat

    constructor ()
      ensures Valid() && Value() == None
    {
      held, holder := false, 0;
    }

    ghost predicate Valid()
      reads this
    {
      held || holder == 0
    }

    function Value(): Option<nat>
      reads this
    {
      if held then Some(holder) else None
    }

    // Whether nobody held it, or this session does.
    method Grant(session: nat) returns (granted: bool)
      requires Valid()
      modifies this
      ensures Valid()
      ensures granted == (old(Value()) == None || old(Value()) == Some(session))
      ensures Value() == if old(Value()) == None then Some(session) else old(Value())
    {
      if !held {
        held := true;
        holder := session;
      }
      granted := holder == session;
    }

    method Release()
      modifies this
      ensures Valid() && Value() == None
    {
      held := false;
      holder := 0;
    }
  }

  // firmware/core/comms/identity_link.h, its unit's verdicts left to the caller.
  class IdentityLink {
    var activated: bool
    var open: bool
    var registering: bool
    var session: nat
    var since: nat
    var nonce: nat
    var due: bool
    ghost var tried: seq<nat>

    constructor ()
      ensures Value() == Initial(true).identity
    {
      activated, open, registering, session, since, nonce, due := false, false, false, 0, 0, 0, false;
      tried := [];
    }

    ghost function Value(): Identity
      reads this
    {
      Identity(true, activated, open, registering, session, since, nonce, due, tried)
    }

    // live.
    predicate IsLive(session: nat, now: nat)
      reads this
    {
      open && this.session == session && Elapsed(now, since) < NONCE_FORGET_MS
    }

    method Close()
      modifies this`open, this`registering
      ensures Value() == ConfigState.Close(old(Value()))
      ensures forall session, now :: !IsLive(session, now)
    {
      open, registering := false, false;
    }

    // A new session, of this one sender and a nonce not used before, takes the place of any other;
    // when no nonce can be drawn there is none.
    method Open(session: nat, now: nat, drawn: bool) returns (ok: bool)
      modifies this`open, this`registering, this`session, this`since, this`nonce
      ensures open == ok == drawn && IsLive(session, now) == ok && !registering
      ensures forall other, time :: other != session || !ok ==> !IsLive(other, time)
      ensures nonce == if ok then old(nonce) + 1 else old(nonce)
      ensures ok ==> since == now && this.session == session
      ensures !ok ==> since == old(since) && this.session == old(this.session)
    {
      Close();
      if !drawn {
        return false;
      }
      nonce := nonce + 1;
      this.session, since, open := session, now, true;
      ok := true;
    }

    // Nobody loses a session that is live by it, and one that is left over is live.
    method Tick(now: nat)
      modifies this`open, this`registering
      ensures forall session :: IsLive(session, now) == old(IsLive(session, now))
      ensures open == old(IsLive(this.session, now))
      ensures registering == (old(registering) && (open || !old(open)))
    {
      if open && Elapsed(now, since) >= NONCE_FORGET_MS {
        Close();
      }
    }

    // Whose session it was has none at any time, and no code held for it; nobody else's changes.
    method Forget(session: nat)
      modifies this`open, this`registering, this`due
      ensures forall now :: !IsLive(session, now)
      ensures forall other, now :: other != session ==> IsLive(other, now) == old(IsLive(other, now))
      ensures if this.session == session then !due && !registering && !open
        else due == old(due) && registering == old(registering) && open == old(open)
    {
      if this.session != session {
        return;
      }
      Close();
      due := false;
    }
  }

  class ConfigService {
    const claim: LinkClaim
    const identity: IdentityLink?
    var world: World
    var prompt: Prompt
    var window: Window
    var approved: Version
    var latches: Latches
    var store: Store
    var now: nat
    var said: seq<Said>
    // Everything that has happened to it, in order.
    ghost var history: seq<Event>

    ghost function State(): Service
      reads this, claim, identity
    {
      Service(world, prompt, window, approved, latches, store, claim.Value(),
        if identity == null then Initial(false).identity else identity.Value(), now, said)
    }

    // A new service of this kind.
    ghost function Start(): Service {
      Initial(identity != null)
    }

    // What it holds is what its history made of a new service.
    ghost predicate Valid()
      reads this, claim, identity
    {
      claim.Valid() && State() == At(Start(), history, |history|)
    }

    constructor (identity: IdentityLink?)
      requires identity != null ==> identity.Value() == Initial(true).identity
      ensures Valid() && history == [] && this.identity == identity && fresh(claim)
    {
      claim := new LinkClaim();
      this.identity := identity;
      world, prompt := World(UnknownFlight, UnknownLevel, false), Prompt(NoPrompt, 0, []);
      window, approved, now := UploadWindow(false, 0), Version(0, 0, 0, 0), 0;
      latches, store, said := Latches(false, false, false, false, false), Store(false, []), [];
      history := [];
    }

    // The event that has just been dealt with joins the history.
    ghost method Note(e: Event, was: Service)
      requires claim.Valid() && was == At(Start(), history, |history|) && State() == Step(was, e)
      modifies this`history
      ensures Valid() && history == old(history) + [e] && SaysWhatIsDue(was, State(), e)
    {
      hide Step, SaysWhatIsDue;
      StepSaysWhatIsDue(was, e);
      AtOneMore(Start(), history, e);
      history := history + [e];
    }

    // ----- what is said

    method Acknowledge(accepted: bool, reason: Option<Reason>)
      requires claim.Valid()
      modifies this`said
      ensures State() == ConfigState.Acknowledge(old(State()), accepted, reason)
    {
      said := said + [Acknowledged(claim.holder, accepted, reason)];
    }

    method Refuse(reason: Reason)
      requires claim.Valid()
      modifies this`said
      ensures State() == ConfigState.Refuse(old(State()), reason)
    {
      Acknowledge(false, Some(reason));
    }

    method Stage(prompt: Pending)
      requires claim.Valid()
      modifies this`prompt, this`said
      ensures State() == ConfigState.Stage(old(State()), prompt)
    {
      this.prompt := this.prompt.(pending := prompt, since := now);
      said := said + [Prompted(claim.holder, prompt)];
    }

    predicate OnGround()
      reads this
      ensures OnGround() == ConfigState.OnGround(State())
    {
      world.flight == Ground
    }

    predicate SettingsWritable()
      reads this
      ensures SettingsWritable() == Writable(State())
    {
      !world.supplyWarned && world.level != Critical && world.level != Flat
    }

    predicate UploadAllowed()
      reads this
      ensures UploadAllowed() == ConfigState.UploadAllowed(State())
    {
      window.open && OnGround()
    }

    predicate IsActivated()
      reads this, identity
      ensures IsActivated() == Activated(State())
    {
      identity != null && identity.activated
    }

    predicate RegisterExempt()
      reads this, identity
      ensures RegisterExempt() == ConfigState.RegisterExempt(State())
    {
      prompt.pending == Register && !IsActivated()
    }

    // ----- time

    // What stands after a tick is young, and an install is asked for only of the upload that was
    // last asked for, signed, on the ground and powered.
    method Tick(nowMs: nat, upload: Upload, ghost time: nat)
      requires Valid() && nowMs == time % WRAP
      modifies this, identity
      ensures Valid() && history == old(history) + [Event.Tick(time, upload)]
      ensures window.open ==> old(window.open) && !upload.finished && Elapsed(nowMs, window.since) < UPLOAD_WINDOW_MS
      ensures prompt.pending != NoPrompt ==> prompt == old(prompt) && Elapsed(nowMs, prompt.since) < PROMPT_FORGET_MS
      ensures latches.install && !old(latches.install) ==>
        old(window.open) && upload.staged == Some(approved) && upload.trusted && OnGround() && SettingsWritable()
      ensures SaysWhatIsDue(old(State()), State(), Event.Tick(time, upload))
      ensures now == nowMs
    {
      hide WindowTicked, NonceTicked, PromptTicked, At, SaysWhatIsDue;
      ghost var was, e := State(), Event.Tick(time, upload);
      TickWindow(nowMs, upload);
      TickIdentity();
      TickPrompt();
      Note(e, was);
      TickLeaves(was, e);
    }

    method TickWindow(nowMs: nat, upload: Upload)
      requires claim.Valid()
      modifies this`now, this`window, this`latches, this`said
      ensures State() == WindowTicked(old(State()), nowMs, upload)
    {
      hide Elapsed, InstallReceived;
      now := nowMs;
      if window.open && Elapsed(nowMs, window.since) >= UPLOAD_WINDOW_MS {
        window := window.(open := false);
      }
      if window.open && upload.finished {
        InstallReceivedImage(upload);
      }
    }

    method TickIdentity()
      requires claim.Valid()
      modifies identity
      ensures State() == NonceTicked(old(State()))
    {
      hide Elapsed;
      if identity != null {
        identity.Tick(now);
      }
    }

    method TickPrompt()
      requires claim.Valid()
      modifies this`prompt, this`said
      ensures State() == PromptTicked(old(State()))
    {
      hide Elapsed;
      if prompt.pending != NoPrompt && Elapsed(now, prompt.since) >= PROMPT_FORGET_MS {
        prompt := prompt.(pending := NoPrompt, frame := []);
        Refuse(Expired);
      }
    }

    method InstallReceivedImage(upload: Upload)
      requires claim.Valid()
      modifies this`window, this`latches, this`said
      ensures State() == InstallReceived(old(State()), upload)
    {
      window := window.(open := false);
      if upload.staged == None {
        Refuse(NothingStaged);
      } else if upload.staged.value != approved {
        Refuse(NotApproved);
      } else if !upload.trusted {
        Refuse(WrongKey);
      } else if !OnGround() {
        Refuse(InFlight);
      } else if !SettingsWritable() {
        Refuse(LowPower);
      } else {
        latches := latches.(install := true);
        Acknowledge(true, Some(Install));
      }
    }

    // resume_replies, as far as it is the service's clock.
    method ResumeReplies(nowMs: nat, ghost time: nat)
      requires Valid() && nowMs == time % WRAP
      modifies this
      ensures Valid() && history == old(history) + [Resumed(time)]
      ensures now == nowMs
    {
      hide At, SaysWhatIsDue;
      ghost var was := State();
      now := nowMs;
      Note(Resumed(time), was);
    }

    // ----- the unit and the link

    // Airborne, no upload is allowed and no prompt can be confirmed but one to register a unit that
    // is not activated.
    method SetFlightState(state: FlightState)
      requires Valid()
      modifies this
      ensures Valid() && history == old(history) + [FlightReported(state)] && world.flight == state
      ensures state == Airborne ==> !window.open && (prompt.pending == NoPrompt || RegisterExempt())
      ensures state != Airborne ==> window == old(window) && prompt == old(prompt)
      ensures SaysWhatIsDue(old(State()), State(), FlightReported(state))
    {
      hide At, SaysWhatIsDue;
      ghost var was := State();
      if state == Airborne {
        window := window.(open := false);
        if prompt.pending != NoPrompt && !RegisterExempt() {
          prompt := prompt.(pending := NoPrompt, frame := []);
          Refuse(InFlight);
        }
      }
      world := world.(flight := state);
      Note(FlightReported(state), was);
    }

    // set_battery_state, as far as it gates anything.
    method SetPowerLevel(level: PowerLevel)
      requires Valid()
      modifies this
      ensures Valid() && history == old(history) + [PowerReported(level)]
      ensures world == old(world).(level := level)
    {
      hide At, SaysWhatIsDue;
      ghost var was := State();
      world := world.(level := level);
      Note(PowerReported(level), was);
    }

    method SetSupplyWarned(warned: bool)
      requires Valid()
      modifies this
      ensures Valid() && history == old(history) + [SupplyReported(warned)]
      ensures world == old(world).(supplyWarned := warned)
    {
      hide At, SaysWhatIsDue;
      ghost var was := State();
      world := world.(supplyWarned := warned);
      Note(SupplyReported(warned), was);
    }

    // A session that goes holds nothing afterwards, neither the claim nor a nonce; and unless it was
    // the holder prompt, window and claim are as they were.
    method OnLinkDown(session: nat)
      requires Valid()
      modifies this, claim, identity
      ensures Valid() && history == old(history) + [LinkDown(session)]
      ensures claim.Value() != Some(session)
      ensures identity != null ==> forall time :: !identity.IsLive(session, time)
      ensures if old(claim.Value()) == Some(session) then prompt.pending == NoPrompt && !window.open
        else prompt == old(prompt) && window == old(window) && claim.Value() == old(claim.Value())
    {
      hide At, SaysWhatIsDue;
      ghost var was := State();
      if identity != null {
        identity.Forget(session);
      }
      if claim.Value() == Some(session) {
        claim.Release();
        prompt := prompt.(pending := NoPrompt, frame := []);
        window := window.(open := false);
      }
      Note(LinkDown(session), was);
    }

    method ClaimLink(session: nat) returns (granted: bool)
      requires Valid()
      modifies claim, this`history
      ensures Valid() && history == old(history) + [LinkClaimed(session)]
      ensures granted == (claim.Value() == Some(session))
      ensures claim.Value() == if old(claim.Value()) == None then Some(session) else old(claim.Value())
    {
      hide At, SaysWhatIsDue;
      ghost var was := State();
      granted := claim.Grant(session);
      Note(LinkClaimed(session), was);
    }

    // ----- frames

    // A frame opens no window, sets no latch and writes no settings, whoever sends it; and of a
    // session that does not hold the link it raises no prompt either.
    method OnRx(session: nat, command: Command)
      requires Valid()
      modifies this, claim, identity
      ensures Valid() && history == old(history) + [Received(session, command)]
      ensures State() == Step(old(State()), Received(session, command))
      ensures world == old(world) && window == old(window) && latches == old(latches) && store == old(store)
      ensures claim.Value() != Some(session) ==> prompt == old(prompt) && approved == old(approved)
      ensures claim.Value() == if old(claim.Value()) == None then Some(session) else old(claim.Value())
      ensures old(said) <= said
      ensures SaysWhatIsDue(old(State()), State(), Received(session, command))
      ensures claim.Value() == Some(session) && command == Query(true) ==> said == old(said) + [Answered(session)]
    {
      hide ConfigState.Obeyed, At, SaysWhatIsDue;
      ghost var was := State();
      var granted := claim.Grant(session);
      if granted {
        Obey(command);
      } else {
        said := said + [Claimed(session, claim.holder)];
      }
      assert State() == Asked(was, session, command);
      Note(Received(session, command), was);
      AskedIsApart(was, session, command);
      if granted { QuestionIsAnswered(was, session); }
    }

    // The rest of on_rx, for the holder's frame.
    method Obey(command: Command)
      requires claim.Valid()
      modifies this`prompt, this`approved, this`said, identity
      ensures State() == Obeyed(old(State()), command) && old(said) <= said
    {
      hide SettingsAsked, FirmwareAsked, Challenged, RegisterAsked, Unlocked;
      match command
      case Unreadable => Refuse(NoCommand);
      case Unanswered => Refuse(UnknownCommand);
      case Malformed => Refuse(Invalid);
      case Query(measured) => Tell(measured, Answered(claim.holder));
      case ReportQuery(measured) => Tell(measured, Reported(claim.holder));
      case SetSettings(frame, described) => StageSettings(frame, described);
      case InstallFirmware(version, older) => RequestFirmware(version, older);
      case EnterRecovery => StageOnGround(Recovery);
      case SwitchOff => StageOnGround(PowerOff);
      case ColdStart => StageOnGround(GnssColdStart);
      case Challenge(provisioned, drawn) =>
        if identity == null { Refuse(UnknownCommand); } else { AnswerChallenge(provisioned, drawn); }
      case RegisterUnit(provisioned, wide, valid) =>
        if identity == null { Refuse(UnknownCommand); } else { RegisterTheUnit(provisioned, wide, valid); }
      case UnlockUnit(wellFormed, verified, stored) =>
        if identity == null { Refuse(UnknownCommand); } else { UnlockTheUnit(wellFormed, verified, stored); }
    }

    // send_config, send_timing and their like.
    method Tell(measured: bool, answer: Said)
      requires claim.Valid()
      modifies this`said
      ensures State() == if measured then old(State()).(said := old(said) + [answer])
        else ConfigState.Refuse(old(State()), NoStatistics)
    {
      if !measured {
        Refuse(NoStatistics);
        return;
      }
      said := said + [answer];
    }

    method StageOnGround(prompt: Pending)
      requires claim.Valid()
      modifies this`prompt, this`said
      ensures old(said) <= said
      ensures State() == if ConfigState.OnGround(old(State())) then ConfigState.Stage(old(State()), prompt)
        else ConfigState.Refuse(old(State()), InFlight)
    {
      if !OnGround() {
        Refuse(InFlight);
        return;
      }
      Stage(prompt);
    }

    method StageSettings(frame: seq<int>, described: Status)
      requires claim.Valid()
      modifies this`prompt, this`said
      ensures State() == SettingsAsked(old(State()), frame, described) && old(said) <= said
    {
      if !OnGround() {
        Refuse(InFlight);
        return;
      }
      if !SettingsWritable() {
        Refuse(LowPower);
        return;
      }
      if described != Ok {
        Refuse(SettingsRefusal(described));
        return;
      }
      prompt := prompt.(frame := frame);
      Stage(Set);
    }

    method RequestFirmware(version: Option<Version>, older: bool)
      requires claim.Valid()
      modifies this`approved, this`prompt, this`said
      ensures State() == FirmwareAsked(old(State()), version, older) && old(said) <= said
    {
      if !OnGround() {
        Refuse(InFlight);
        return;
      }
      if !SettingsWritable() {
        Refuse(LowPower);
        return;
      }
      if version == None {
        Refuse(NoVersion);
        return;
      }
      if older {
        Refuse(Older);
        return;
      }
      approved := version.value;
      Stage(Dfu);
    }

    method RequestLogErase()
      requires Valid()
      modifies this
      ensures Valid() && history == old(history) + [LogEraseAsked]
      ensures prompt == if OnGround() then Prompt(EraseLog, now, old(prompt.frame)) else old(prompt)
      ensures SaysWhatIsDue(old(State()), State(), LogEraseAsked)
    {
      hide At, SaysWhatIsDue;
      ghost var was := State();
      StageOnGround(EraseLog);
      Note(LogEraseAsked, was);
    }

    // ----- the nonce session

    method AnswerChallenge(provisioned: bool, drawn: bool)
      requires claim.Valid() && identity != null
      modifies this`said, identity
      ensures State() == Challenged(old(State()), provisioned, drawn) && old(said) <= said
    {
      if identity.activated && !OnGround() {
        Refuse(InFlight);
        return;
      }
      if !provisioned {
        Refuse(Keyless);
        return;
      }
      var ok := identity.Open(claim.holder, now, drawn);
      if !ok {
        Refuse(Keyless);
        return;
      }
      said := said + [Answered(claim.holder)];
    }

    method RegisterTheUnit(provisioned: bool, wide: bool, valid: bool)
      requires claim.Valid() && identity != null
      modifies this`prompt, this`said, identity
      ensures State() == RegisterAsked(old(State()), provisioned, wide, valid) && old(said) <= said
    {
      if identity.activated && !OnGround() {
        Refuse(InFlight);
        return;
      }
      if !provisioned {
        Refuse(Keyless);
        return;
      }
      if !identity.IsLive(claim.holder, now) {
        Refuse(NoSession);
        return;
      }
      if !wide {
        Refuse(SmallMtu);
        return;
      }
      if !valid {
        Refuse(BadSignature);
        return;
      }
      identity.registering := true;
      Stage(Register);
    }

    method UnlockTheUnit(wellFormed: bool, verified: bool, stored: bool)
      requires claim.Valid() && identity != null
      modifies this`said, identity
      ensures State() == Unlocked(old(State()), wellFormed, verified, stored) && old(said) <= said
    {
      if identity.activated && !OnGround() {
        Refuse(InFlight);
        return;
      }
      if !identity.IsLive(claim.holder, now) {
        Refuse(NoSession);
        return;
      }
      if !SettingsWritable() {
        Refuse(LowPower);
        return;
      }
      identity.Close();
      if !wellFormed {
        Refuse(BadSignature);
        return;
      }
      identity.tried := identity.tried + [identity.nonce];
      if !verified {
        Refuse(BadSignature);
        return;
      }
      identity.due := true;
      if !identity.activated {
        SettleDue(stored);
      }
    }

    method SettleDue(stored: bool)
      requires claim.Valid() && identity != null
      modifies this`said, identity
      ensures State() == Settled(old(State()), stored) && old(said) <= said
    {
      var code := identity.due;
      identity.due := false;
      if !code {
        return;
      }
      if !SettingsWritable() {
        Refuse(LowPower);
        return;
      }
      if !stored {
        Refuse(Flash);
        return;
      }
      identity.activated := true;
      Acknowledge(true, Some(Unlock));
    }

    // A code held for its write is written or dropped, and is held no longer.
    method SettleUnlock(stored: bool)
      requires Valid() && identity != null
      modifies this, identity
      ensures Valid() && history == old(history) + [UnlockSettled(stored)] && !identity.due
      ensures identity.activated == (old(identity.activated) || (old(identity.due) && stored && SettingsWritable()))
      ensures SaysWhatIsDue(old(State()), State(), UnlockSettled(stored))
    {
      hide At, SaysWhatIsDue;
      ghost var was := State();
      SettleDue(stored);
      Note(UnlockSettled(stored), was);
    }

    method SendRegistration(versioned: bool, signed: bool)
      requires claim.Valid()
      modifies this`said
      ensures State() == Registered(old(State()), versioned, signed)
    {
      if identity == null || !identity.IsLive(claim.holder, now) || !identity.registering {
        Refuse(NoSession);
        return;
      }
      if !versioned || !signed {
        Refuse(Keyless);
        return;
      }
      said := said + [Answered(claim.holder)];
    }

    // ----- the press

    // A press answers the prompt, and only what the prompt asked: the window opens for a firmware
    // prompt, on the ground and powered; settings are written for a Set prompt, the frame it showed;
    // a latch is set for its own prompt on the ground; and no install is asked for.
    method Confirm(applied: Status, versioned: bool, signed: bool)
      requires Valid()
      modifies this
      ensures Valid() && history == old(history) + [Event.Confirm(applied, versioned, signed)]
      ensures prompt.pending == NoPrompt && latches.install == old(latches.install)
      ensures window.open ==>
        old(window.open) || (old(prompt.pending) == Dfu && OnGround() && SettingsWritable() && window.since == now)
      ensures store.applied == old(store.applied) ||
        (old(prompt.pending) == Set && OnGround() && SettingsWritable() &&
         store.applied == old(store.applied) + [old(prompt.frame)])
      ensures forall p: Pending ::
        IsLatched(State(), p) ==> IsLatched(old(State()), p) || (old(prompt.pending) == p && OnGround())
      ensures SaysWhatIsDue(old(State()), State(), Event.Confirm(applied, versioned, signed))
    {
      hide Granting, At, Confirmed, SaysWhatIsDue;
      ghost var was, e := State(), Event.Confirm(applied, versioned, signed);
      Press(applied, versioned, signed);
      Note(e, was);
      PressGrants(was, e);
    }

    method Press(applied: Status, versioned: bool, signed: bool)
      requires claim.Valid()
      modifies this`prompt, this`window, this`latches, this`store, this`said
      ensures State() == Confirmed(old(State()), applied, versioned, signed)
    {
      hide Granting;
      if !OnGround() && !RegisterExempt() {
        prompt := prompt.(pending := NoPrompt, frame := []);
        Refuse(InFlight);
        return;
      }
      Grant(applied, versioned, signed);
    }

    // The rest of confirm.
    method Grant(applied: Status, versioned: bool, signed: bool)
      requires claim.Valid()
      modifies this`prompt, this`window, this`latches, this`store, this`said
      ensures State() == Granting(old(State()), applied, versioned, signed)
    {
      hide SetConfirmed, Registered;
      if prompt.pending == Register {
        prompt := prompt.(pending := NoPrompt);
        SendRegistration(versioned, signed);
        return;
      }
      if prompt.pending == Set {
        ApplySettings(applied);
      } else if prompt.pending == Dfu && !SettingsWritable() {
        prompt := prompt.(pending := NoPrompt);
        window := window.(open := false);
        Refuse(LowPower);
      } else if prompt.pending == Dfu {
        prompt := prompt.(pending := NoPrompt);
        window := UploadWindow(true, now);
        Acknowledge(true, Some(UploadOpened));
      } else if prompt.pending == Recovery {
        prompt := prompt.(pending := NoPrompt);
        window := window.(open := false);
        latches := latches.(recovery := true);
        Acknowledge(true, Some(RecoveryGranted));
      } else if prompt.pending == PowerOff {
        prompt := prompt.(pending := NoPrompt);
        window := window.(open := false);
        latches := latches.(powerOff := true);
        Acknowledge(true, Some(PowerOffGranted));
      } else if prompt.pending == EraseLog {
        prompt := prompt.(pending := NoPrompt);
        latches := latches.(eraseLog := true);
        Acknowledge(true, Some(EraseGranted));
      } else if prompt.pending == GnssColdStart {
        prompt := prompt.(pending := NoPrompt);
        latches := latches.(coldStart := true);
        Acknowledge(true, Some(ColdStartGranted));
      }
    }

    method ApplySettings(status: Status)
      requires claim.Valid()
      modifies this`prompt, this`store, this`said
      ensures State() == SetConfirmed(old(State()), status)
    {
      if !SettingsWritable() {
        prompt := prompt.(pending := NoPrompt, frame := []);
        Refuse(LowPower);
        return;
      }
      var frame := prompt.frame;
      prompt := prompt.(pending := NoPrompt, frame := []);
      if status == Ok {
        store := Store(true, store.applied + [frame]);
        Acknowledge(true, None);
      } else {
        Refuse(SettingsRefusal(status));
      }
    }

    // Afterwards nothing stands that could be confirmed or uploaded to, and nothing was granted.
    method Cancel()
      requires Valid()
      modifies this
      ensures Valid() && history == old(history) + [Event.Cancel]
      ensures prompt.pending == NoPrompt && !window.open && latches == old(latches) && store == old(store)
      ensures SaysWhatIsDue(old(State()), State(), Event.Cancel)
    {
      hide At, SaysWhatIsDue;
      ghost var was := State();
      prompt := prompt.(pending := NoPrompt, frame := []);
      window := window.(open := false);
      Refuse(Cancelled);
      Note(Event.Cancel, was);
    }

    // ----- what the product takes up

    // clear_power_off_request and its like.
    method Clear(latch: Pending)
      requires Valid()
      modifies this
      ensures Valid() && history == old(history) + [Cleared(latch)] && !IsLatched(State(), latch)
    {
      hide At, SaysWhatIsDue;
      ghost var was := State();
      match latch {
        case PowerOff => latches := latches.(powerOff := false);
        case Recovery => latches := latches.(recovery := false);
        case EraseLog => latches := latches.(eraseLog := false);
        case GnssColdStart => latches := latches.(coldStart := false);
        case _ =>
      }
      Note(Cleared(latch), was);
    }

    method ClearInstallRequest()
      requires Valid()
      modifies this
      ensures Valid() && history == old(history) + [InstallCleared]
      ensures !latches.install
    {
      hide At, SaysWhatIsDue;
      ghost var was := State();
      latches := latches.(install := false);
      Note(InstallCleared, was);
    }

    method CloseUploadWindow()
      requires Valid()
      modifies this
      ensures Valid() && history == old(history) + [WindowClosed]
      ensures !window.open
    {
      hide At, SaysWhatIsDue;
      ghost var was := State();
      window := window.(open := false);
      Note(WindowClosed, was);
    }

    method NoteSettingsChanged()
      requires Valid()
      modifies this
      ensures Valid() && history == old(history) + [SettingsNoted]
      ensures store.dirty
    {
      hide At, SaysWhatIsDue;
      ghost var was := State();
      store := store.(dirty := true);
      Note(SettingsNoted, was);
    }

    method ClearDirty()
      requires Valid()
      modifies this
      ensures Valid() && history == old(history) + [DirtyCleared]
      ensures !store.dirty
    {
      hide At, SaysWhatIsDue;
      ghost var was := State();
      store := store.(dirty := false);
      Note(DirtyCleared, was);
    }
  }

  // ----- what the two events with the most branches leave behind

  lemma TickLeaves(s: Service, e: Event)
    requires e.Tick?
    ensures var t := Step(s, e);
      && (t.window.open ==> s.window.open && !e.upload.finished && Elapsed(t.now, t.window.since) < UPLOAD_WINDOW_MS)
      && (t.prompt.pending != NoPrompt ==> t.prompt == s.prompt && Elapsed(t.now, t.prompt.since) < PROMPT_FORGET_MS)
      && (t.latches.install && !s.latches.install ==>
            s.window.open && e.upload.staged == Some(t.approved) && e.upload.trusted && OnGround(t) && Writable(t))
      && t.now == e.time % WRAP
  {
    hide Step, Elapsed;
    TickedCases(s, e);
    TickedPrompt(s, e);
  }

  lemma PressGrants(s: Service, e: Event)
    requires e.Confirm?
    ensures var t := Step(s, e);
      && t.prompt.pending == NoPrompt && t.latches.install == s.latches.install && t.world == s.world && t.now == s.now
      && (t.window.open ==>
            s.window.open || (s.prompt.pending == Dfu && OnGround(s) && Writable(s) && t.window.since == s.now))
      && (t.store.applied == s.store.applied ||
            (s.prompt.pending == Set && OnGround(s) && Writable(s) && t.store.applied == s.store.applied + [s.prompt.frame]))
      && (forall p: Pending :: IsLatched(t, p) ==> IsLatched(s, p) || (s.prompt.pending == p && OnGround(s)))
  {
    hide Step;
    ConfirmedWindow(s, e);
    WindowSince(s, e);
    AppliedStep(s, e);
    forall p: Pending ensures IsLatched(Step(s, e), p) ==> IsLatched(s, p) || (s.prompt.pending == p && OnGround(s)) {
      ConfirmedLatch(s, e, p);
    }
  }

  // ----- what holds of every service, whatever happened to it

  // Everything that stands was begun by one event of its life and ended by none since.
  lemma EverythingHasItsEvent(s: ConfigService, w: Watch)
    requires s.Valid()
    ensures Stands(w, s.State()) <==> exists i: nat :: Since(w, s.Start(), s.history, i, |s.history|)
  {
    hide Stands, Step, Begins, Ends;
    StandsExactlySince(w, s.identity != null, s.history, |s.history|);
  }

  // An upload is allowed only since a press that found a firmware prompt on powered ground, under
  // ten minutes before the last tick, and since it nobody reported the unit airborne, cancelled,
  // closed the window or lost the link while holding it.
  lemma UploadsWereAuthorised(s: ConfigService)
    requires s.Valid() && s.UploadAllowed() && Regular(s.history)
    ensures exists i: nat ::
      && i < |s.history| && Confirms(At(s.Start(), s.history, i), s.history[i], Dfu)
      && Writable(At(s.Start(), s.history, i)) && LastTick(s.history, |s.history|) < Clock(s.history, i) + 600_000
      && forall j: nat :: i < j < |s.history| ==>
        && s.history[j] != FlightReported(Airborne) && !s.history[j].Cancel? && !s.history[j].WindowClosed?
        && !HolderLost(At(s.Start(), s.history, j), s.history[j])
  {
    hide Step, Confirms, Regular, Clock, LastTick, HolderLost;
    NothingStandsLong(Window, s.identity != null, s.history, |s.history|);
    var i: nat :| Young(Window, s.Start(), s.history, i, |s.history|);
    assert BeginsAt(Window, s.Start(), s.history, i);
    forall j: nat | i < j < |s.history|
      ensures s.history[j] != FlightReported(Airborne) && !s.history[j].Cancel? && !s.history[j].WindowClosed?
      ensures !HolderLost(At(s.Start(), s.history, j), s.history[j])
    {
      assert !EndsAt(Window, s.Start(), s.history, j);
    }
  }

  // A prompt on the glass was raised under thirty seconds before the last tick, and in the air none
  // stands but Register.
  lemma PromptsAreFresh(s: ConfigService)
    requires s.Valid() && s.prompt.pending != NoPrompt && Regular(s.history)
    ensures exists i: nat :: Young(Standing(s.prompt.pending), s.Start(), s.history, i, |s.history|)
    ensures s.world.flight == Airborne ==> s.prompt.pending == Register && !s.window.open
  {
    hide Step;
    assert Stands(Standing(s.prompt.pending), s.State());
    NothingStandsLong(Standing(s.prompt.pending), s.identity != null, s.history, |s.history|);
    InTheAir(s.identity != null, s.history, |s.history|);
  }

  // An install is asked for only of the version of the last firmware request then accepted; every
  // settings frame applied was shown and confirmed; no nonce was ever tried twice.
  lemma NothingWasGrantedUnasked(s: ConfigService, k: nat)
    requires s.Valid()
    ensures s.latches.install ==> exists i: nat ::
      && i < |s.history| && Installs(At(s.Start(), s.history, i), s.history[i])
      && LastAsked(s.Start(), s.history, i).Some?
      && s.history[i].upload.staged == LastAsked(s.Start(), s.history, i)
    ensures k < |s.store.applied| ==>
      exists i: nat :: i < |s.history| && ConfirmedSet(s.Start(), s.history, i, s.store.applied[k])
    ensures NoncesSpent(s.State().identity)
  {
    hide Step, Installs, LastAsked, ConfirmedSet, NoncesSpent;
    if s.latches.install { InstalledWasAskedFor(s.identity != null, s.history, |s.history|); }
    if k < |s.store.applied| { SettingsWereConfirmed(s.identity != null, s.history, |s.history|, k); }
    NoNonceTwice(s.identity != null, s.history, |s.history|);
  }
}
