/**
 What ConfigService of firmware/core/comms/config holds, and what each event makes of it.  What
 the service says is kept as the list of things it handed down to be sent, in order; Replies says
 what becomes of them.
 */
module ConfigState {

  datatype Option<T> = None | Some(value: T)

  datatype FlightState = UnknownFlight | Ground | Airborne

  datatype PowerLevel = UnknownLevel | Normal | Low | Critical | Flat

  datatype Pending = NoPrompt | Set | Dfu | Recovery | PowerOff | EraseLog | GnssColdStart | Register

  datatype Reason =
    | Expired | InFlight | LowPower | NoVersion | Older | NothingStaged | NotApproved | WrongKey | Install
    | NoCommand | UnknownCommand | Invalid | OutOfRange | Keyless | NoSession | SmallMtu | BadSignature | Flash
    | NoStatistics | Unlock | Cancelled | UploadOpened | RecoveryGranted | PowerOffGranted | EraseGranted | ColdStartGranted

  datatype Said =
    | Acknowledged(to: nat, accepted: bool, reason: Option<Reason>)
    | Prompted(to: nat, prompt: Pending)
    | Claimed(to: nat, holder: nat)
    | Answered(to: nat)
    | Reported(to: nat)

  datatype Version = Version(major: nat, minor: nat, revision: nat, build: nat)

  datatype Status = Ok | OutOfRangeStatus | OtherStatus

  // What the Dfu port reports of the other slot.
  datatype Upload = Upload(finished: bool, staged: Option<Version>, trusted: bool)

  // The nonce session of IdentityLink; a nonce is known by its number in the order they were drawn.
  datatype Identity = Identity(
    present: bool, activated: bool, open: bool, registering: bool, session: nat, since: nat,
    nonce: nat, due: bool, tried: seq<nat>)

  // What the rest of the unit reports.
  datatype World = World(flight: FlightState, level: PowerLevel, supplyWarned: bool)

  // The prompt on the glass, and the settings frame a Set prompt would apply.
  datatype Prompt = Prompt(pending: Pending, since: nat, frame: seq<int>)

  datatype Window = UploadWindow(open: bool, since: nat)

  datatype Latches = Latches(powerOff: bool, install: bool, recovery: bool, eraseLog: bool, coldStart: bool)

  datatype Store = Store(dirty: bool, applied: seq<seq<int>>)

  datatype Service = Service(
    world: World, prompt: Prompt, window: Window, approved: Version, latches: Latches, store: Store,
    claim: Option<nat>, identity: Identity, now: nat, said: seq<Said>)

  datatype Command =
    | Unreadable
    | Unanswered
    | Malformed
    | Query(measured: bool)
    | ReportQuery(measured: bool)
    | SetSettings(frame: seq<int>, described: Status)
    | InstallFirmware(version: Option<Version>, older: bool)
    | EnterRecovery
    | SwitchOff
    | ColdStart
    | Challenge(provisioned: bool, drawn: bool)
    | RegisterUnit(provisioned: bool, wide: bool, valid: bool)
    | UnlockUnit(wellFormed: bool, verified: bool, stored: bool)

  datatype Event =
    | Tick(time: nat, upload: Upload)
    | Resumed(time: nat)
    | FlightReported(flight: FlightState)
    | PowerReported(level: PowerLevel)
    | SupplyReported(warned: bool)
    | LinkDown(session: nat)
    | LinkClaimed(session: nat)
    | Received(session: nat, command: Command)
    | Confirm(applied: Status, versioned: bool, signed: bool)
    | Cancel
    | LogEraseAsked
    | UnlockSettled(stored: bool)
    | WindowClosed
    | SettingsNoted
    | DirtyCleared
    | Cleared(latch: Pending)
    | InstallCleared

  const WRAP: nat := 0x1_0000_0000
  const UPLOAD_WINDOW_MS: nat := 600000
  const PROMPT_FORGET_MS: nat := 30000
  const NONCE_FORGET_MS: nat := 600000

  // The difference of two readings of a 32-bit millisecond counter.
  function Elapsed(now: nat, since: nat): nat {
    (now - since) % WRAP
  }

  function Initial(identity: bool): Service {
    Service(World(UnknownFlight, UnknownLevel, false), Prompt(NoPrompt, 0, []), UploadWindow(false, 0),
      Version(0, 0, 0, 0), Latches(false, false, false, false, false), Store(false, []), None,
      Identity(identity, false, false, false, 0, 0, 0, false, []), 0, [])
  }

  // ----- reading it

  function Holder(s: Service): nat {
    if s.claim.Some? then s.claim.value else 0
  }

  predicate Holds(s: Service, session: nat) {
    s.claim == Some(session)
  }

  predicate OnGround(s: Service) {
    s.world.flight == Ground
  }

  predicate Writable(s: Service) {
    !s.world.supplyWarned && s.world.level != Critical && s.world.level != Flat
  }

  predicate UploadAllowed(s: Service) {
    s.window.open && OnGround(s)
  }

  predicate Activated(s: Service) {
    s.identity.present && s.identity.activated
  }

  predicate RegisterExempt(s: Service) {
    s.prompt.pending == Register && !Activated(s)
  }

  predicate Live(s: Service) {
    s.identity.open && s.identity.session == Holder(s) && Elapsed(s.now, s.identity.since) < NONCE_FORGET_MS
  }

  // ----- changing it

  function Acknowledge(s: Service, accepted: bool, reason: Option<Reason>): Service {
    s.(said := s.said + [Acknowledged(Holder(s), accepted, reason)])
  }

  function Refuse(s: Service, reason: Reason): Service {
    Acknowledge(s, false, Some(reason))
  }

  function Stage(s: Service, prompt: Pending): Service {
    s.(prompt := s.prompt.(pending := prompt, since := s.now), said := s.said + [Prompted(Holder(s), prompt)])
  }

  function Shut(s: Service): Service {
    s.(window := s.window.(open := false))
  }

  function Forgotten(s: Service): Service {
    s.(prompt := s.prompt.(pending := NoPrompt, frame := []))
  }

  function Close(i: Identity): Identity {
    i.(open := false, registering := false)
  }

  function SettingsRefusal(status: Status): Reason {
    if status == OutOfRangeStatus then OutOfRange else Invalid
  }

  function InstallReceived(s: Service, upload: Upload): Service {
    var t := Shut(s);
    if upload.staged == None then Refuse(t, NothingStaged)
    else if upload.staged.value != s.approved then Refuse(t, NotApproved)
    else if !upload.trusted then Refuse(t, WrongKey)
    else if !OnGround(s) then Refuse(t, InFlight)
    else if !Writable(s) then Refuse(t, LowPower)
    else Acknowledge(t.(latches := t.latches.(install := true)), true, Some(Install))
  }

  function WindowTicked(s: Service, now: nat, upload: Upload): Service {
    var t := s.(now := now, window := s.window.(open := s.window.open && Elapsed(now, s.window.since) < UPLOAD_WINDOW_MS));
    if t.window.open && upload.finished then InstallReceived(t, upload) else t
  }

  function NonceTicked(s: Service): Service {
    if s.identity.present && s.identity.open && Elapsed(s.now, s.identity.since) >= NONCE_FORGET_MS
    then s.(identity := Close(s.identity)) else s
  }

  function PromptTicked(s: Service): Service {
    if s.prompt.pending != NoPrompt && Elapsed(s.now, s.prompt.since) >= PROMPT_FORGET_MS
    then Refuse(Forgotten(s), Expired) else s
  }

  function Ticked(s: Service, now: nat, upload: Upload): Service {
    PromptTicked(NonceTicked(WindowTicked(s, now, upload)))
  }

  function FlightSet(s: Service, flight: FlightState): Service {
    var t := if flight != Airborne then s
      else if s.prompt.pending != NoPrompt && !RegisterExempt(s) then Refuse(Shut(Forgotten(s)), InFlight)
      else Shut(s);
    t.(world := t.world.(flight := flight))
  }

  function IdentityForgets(s: Service, session: nat): Service {
    if s.identity.present && s.identity.session == session
    then s.(identity := Close(s.identity).(due := false)) else s
  }

  function LinkLost(s: Service, session: nat): Service {
    var t := IdentityForgets(s, session);
    if Holds(s, session) then Shut(Forgotten(t)).(claim := None) else t
  }

  function Granted(s: Service, session: nat): Service {
    if s.claim == None then s.(claim := Some(session)) else s
  }

  function Asked(s: Service, session: nat, command: Command): Service {
    var t := Granted(s, session);
    if Holds(t, session) then Obeyed(t, command)
    else t.(said := t.said + [Claimed(session, Holder(t))])
  }

  // A frame of the holder's.
  function Obeyed(s: Service, command: Command): Service {
    match command
    case Unreadable => Refuse(s, NoCommand)
    case Unanswered => Refuse(s, UnknownCommand)
    case Malformed => Refuse(s, Invalid)
    case Query(measured) =>
      if measured then s.(said := s.said + [Answered(Holder(s))]) else Refuse(s, NoStatistics)
    case ReportQuery(measured) =>
      if measured then s.(said := s.said + [Reported(Holder(s))]) else Refuse(s, NoStatistics)
    case SetSettings(frame, described) => SettingsAsked(s, frame, described)
    case InstallFirmware(version, older) => FirmwareAsked(s, version, older)
    case EnterRecovery => if OnGround(s) then Stage(s, Recovery) else Refuse(s, InFlight)
    case SwitchOff => if OnGround(s) then Stage(s, PowerOff) else Refuse(s, InFlight)
    case ColdStart => if OnGround(s) then Stage(s, GnssColdStart) else Refuse(s, InFlight)
    case Challenge(provisioned, drawn) =>
      if !s.identity.present then Refuse(s, UnknownCommand) else Challenged(s, provisioned, drawn)
    case RegisterUnit(provisioned, wide, valid) =>
      if !s.identity.present then Refuse(s, UnknownCommand) else RegisterAsked(s, provisioned, wide, valid)
    case UnlockUnit(wellFormed, verified, stored) =>
      if !s.identity.present then Refuse(s, UnknownCommand) else Unlocked(s, wellFormed, verified, stored)
  }

  function SettingsAsked(s: Service, frame: seq<int>, described: Status): Service {
    if !OnGround(s) then Refuse(s, InFlight)
    else if !Writable(s) then Refuse(s, LowPower)
    else if described != Ok then Refuse(s, SettingsRefusal(described))
    else Stage(s.(prompt := s.prompt.(frame := frame)), Set)
  }

  function FirmwareAsked(s: Service, version: Option<Version>, older: bool): Service {
    if !OnGround(s) then Refuse(s, InFlight)
    else if !Writable(s) then Refuse(s, LowPower)
    else if version == None then Refuse(s, NoVersion)
    else if older then Refuse(s, Older)
    else Stage(s.(approved := version.value), Dfu)
  }

  predicate RefusedInFlight(s: Service) {
    s.identity.activated && !OnGround(s)
  }

  function Challenged(s: Service, provisioned: bool, drawn: bool): Service {
    if RefusedInFlight(s) then Refuse(s, InFlight)
    else if !provisioned then Refuse(s, Keyless)
    else if !drawn then Refuse(s.(identity := Close(s.identity)), Keyless)
    else
      s.(identity := Close(s.identity).(open := true, session := Holder(s), since := s.now, nonce := s.identity.nonce + 1),
        said := s.said + [Answered(Holder(s))])
  }

  function RegisterAsked(s: Service, provisioned: bool, wide: bool, valid: bool): Service {
    if RefusedInFlight(s) then Refuse(s, InFlight)
    else if !provisioned then Refuse(s, Keyless)
    else if !Live(s) then Refuse(s, NoSession)
    else if !wide then Refuse(s, SmallMtu)
    else if !valid then Refuse(s, BadSignature)
    else Stage(s.(identity := s.identity.(registering := true)), Register)
  }

  function Unlocked(s: Service, wellFormed: bool, verified: bool, stored: bool): Service {
    if RefusedInFlight(s) then Refuse(s, InFlight)
    else if !Live(s) then Refuse(s, NoSession)
    else if !Writable(s) then Refuse(s, LowPower)
    else
      var t := s.(identity := Close(s.identity));
      if !wellFormed then Refuse(t, BadSignature)
      else
        var u := t.(identity := t.identity.(tried := t.identity.tried + [t.identity.nonce]));
        if !verified then Refuse(u, BadSignature)
        else
          var v := u.(identity := u.identity.(due := true));
          if Activated(v) then v else Settled(v, stored)
  }

  function Settled(s: Service, stored: bool): Service {
    var t := s.(identity := s.identity.(due := false));
    if !s.identity.due then t
    else if !Writable(s) then Refuse(t, LowPower)
    else if !stored then Refuse(t, Flash)
    else Acknowledge(t.(identity := t.identity.(activated := true)), true, Some(Unlock))
  }

  function Registered(s: Service, versioned: bool, signed: bool): Service {
    if !s.identity.present || !Live(s) || !s.identity.registering then Refuse(s, NoSession)
    else if !versioned || !signed then Refuse(s, Keyless)
    else s.(said := s.said + [Answered(Holder(s))])
  }

  function SetConfirmed(s: Service, applied: Status): Service {
    var t := Forgotten(s);
    if !Writable(s) then Refuse(t, LowPower)
    else if applied == Ok then Acknowledge(t.(store := Store(true, s.store.applied + [s.prompt.frame])), true, None)
    else Refuse(t, SettingsRefusal(applied))
  }

  function Confirmed(s: Service, applied: Status, versioned: bool, signed: bool): Service {
    if !OnGround(s) && !RegisterExempt(s) then Refuse(Forgotten(s), InFlight)
    else Granting(s, applied, versioned, signed)
  }

  // What the press authorises, by the prompt it finds.
  function Granting(s: Service, applied: Status, versioned: bool, signed: bool): Service {
    var t := s.(prompt := s.prompt.(pending := NoPrompt));
    match s.prompt.pending
    case NoPrompt => s
    case Register => Registered(t, versioned, signed)
    case Set => SetConfirmed(s, applied)
    case Dfu =>
      if !Writable(s) then Refuse(Shut(t), LowPower)
      else Acknowledge(t.(window := UploadWindow(true, s.now)), true, Some(UploadOpened))
    case Recovery => Acknowledge(Shut(t).(latches := t.latches.(recovery := true)), true, Some(RecoveryGranted))
    case PowerOff => Acknowledge(Shut(t).(latches := t.latches.(powerOff := true)), true, Some(PowerOffGranted))
    case EraseLog => Acknowledge(t.(latches := t.latches.(eraseLog := true)), true, Some(EraseGranted))
    case GnssColdStart => Acknowledge(t.(latches := t.latches.(coldStart := true)), true, Some(ColdStartGranted))
  }

  function LatchCleared(s: Service, latch: Pending): Service {
    match latch
    case PowerOff => s.(latches := s.latches.(powerOff := false))
    case Recovery => s.(latches := s.latches.(recovery := false))
    case EraseLog => s.(latches := s.latches.(eraseLog := false))
    case GnssColdStart => s.(latches := s.latches.(coldStart := false))
    case _ => s
  }

  function Step(s: Service, e: Event): Service {
    match e
    case Tick(time, upload) => Ticked(s, time % WRAP, upload)
    case Resumed(time) => s.(now := time % WRAP)
    case FlightReported(flight) => FlightSet(s, flight)
    case PowerReported(level) => s.(world := s.world.(level := level))
    case SupplyReported(warned) => s.(world := s.world.(supplyWarned := warned))
    case LinkDown(session) => LinkLost(s, session)
    case LinkClaimed(session) => Granted(s, session)
    case Received(session, command) => Asked(s, session, command)
    case Confirm(applied, versioned, signed) => Confirmed(s, applied, versioned, signed)
    case Cancel => Refuse(Shut(Forgotten(s)), Cancelled)
    case LogEraseAsked => if OnGround(s) then Stage(s, EraseLog) else Refuse(s, InFlight)
    case UnlockSettled(stored) => if s.identity.present then Settled(s, stored) else s
    case WindowClosed => Shut(s)
    case SettingsNoted => s.(store := s.store.(dirty := true))
    case DirtyCleared => s.(store := s.store.(dirty := false))
    case Cleared(latch) => LatchCleared(s, latch)
    case InstallCleared => s.(latches := s.latches.(install := false))
  }

  // The service after the first n events.
  ghost function At(s: Service, events: seq<Event>, n: nat): Service
    requires n <= |events|
  {
    if n == 0 then s else Step(At(s, events, n - 1), events[n - 1])
  }
}
