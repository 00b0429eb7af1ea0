/**
 The nonce session of IdentityLink, event by event: what opens it, what spends it, and what a code
 verified against it comes to.
 */
module ConfigSession {
  import opened ConfigState
  import opened ConfigSafety
  import opened ConfigAnswers

  // A frame of the holder's, or of the first to speak.
  ghost predicate IsOfHolder(s: Service, e: Event) {
    e.Received? && (s.claim == None || s.claim == Some(e.session))
  }

  // A challenge that is answered.
  ghost predicate Opens(s: Service, e: Event) {
    IsHeard(s, e) && e.command == Challenge(true, true)
  }

  // A code that is looked at, right or wrong.
  ghost predicate Spends(s: Service, e: Event) {
    IsHeard(s, e) && e.command.UnlockUnit? && InSession(s) && Powered(s)
  }

  ghost predicate Leaves(s: Service, e: Event) {
    e.LinkDown? && s.identity.present && s.identity.session == e.session
  }

  // A code held for its write is written or dropped.
  ghost predicate Drops(s: Service, e: Event) {
    Leaves(s, e) || (e.UnlockSettled? && s.identity.present)
  }

  ghost predicate Closes(s: Service, e: Event) {
    || (IsHeard(s, e) && e.command.Challenge? && e.command.provisioned) || Spends(s, e) || Leaves(s, e)
    || (e.Tick? && s.identity.present && s.identity.open
          && (e.time % 0x1_0000_0000 - s.identity.since) % 0x1_0000_0000 >= 600_000)
  }

  // What becomes of the identity, of a service that finds the event with its sender as the holder.
  ghost predicate IsIdentityStep(s: Service, i: Identity, e: Event) {
    && i.present == s.identity.present
    && (i.open <==> Opens(s, e) || (s.identity.open && !Closes(s, e)))
    && (i.registering <==> IsPrompted(Register, s, e) || (s.identity.registering && !Closes(s, e)))
    && (if Opens(s, e) then i.session == Answering(s) && i.since == s.now && i.nonce == s.identity.nonce + 1
        else i.session == s.identity.session && i.since == s.identity.since && i.nonce == s.identity.nonce)
    && (i.activated <==> s.identity.activated || IsGranted(Some(ConfigState.Unlock), s, e))
    && (i.due <==> if IsVerified(s, e) then s.identity.activated else s.identity.due && !Drops(s, e))
    && i.tried == (if Spends(s, e) && e.command.wellFormed then s.identity.tried + [s.identity.nonce] else s.identity.tried)
  }

  // Events that are no business of the identity's.
  ghost predicate IsElsewhere(e: Event) {
    && !e.Tick? && !e.LinkDown? && !e.UnlockSettled?
    && (e.Received? ==> !IsIdentityCommand(e.command))
  }

  lemma NothingMoves(s: Service, e: Event)
    requires IsElsewhere(e) || (e.Received? && !s.identity.present)
    ensures IsIdentityStep(s, s.identity, e)
  {
    hide InSession, Powered;
  }

  lemma ObeyedIdentity(s: Service, e: Event)
    requires e.Received? && Holds(s, e.session)
    ensures IsIdentityStep(s, Obeyed(s, e.command).identity, e)
  {
    hide IsIdentityStep, Challenged, RegisterAsked, Unlocked;
    if IsElsewhere(e) || !s.identity.present { NothingMoves(s, e); }
    match e.command
    case UnlockUnit(_, _, _) => if s.identity.present { UnlockedIdentity(s, e); }
    case RegisterUnit(_, _, _) => if s.identity.present { RegisterIdentity(s, e); }
    case Challenge(_, _) => if s.identity.present { ChallengedIdentity(s, e); }
    case _ =>
  }

  lemma UnlockedIdentity(s: Service, e: Event)
    requires e.Received? && Holds(s, e.session) && e.command.UnlockUnit? && s.identity.present
    ensures IsIdentityStep(s, Unlocked(s, e.command.wellFormed, e.command.verified, e.command.stored).identity, e)
  {
    hide Live, InSession, OnGround;
    Readings(s);
  }

  lemma RegisterIdentity(s: Service, e: Event)
    requires e.Received? && Holds(s, e.session) && e.command.RegisterUnit? && s.identity.present
    ensures IsIdentityStep(s, RegisterAsked(s, e.command.provisioned, e.command.wide, e.command.valid).identity, e)
  {
    hide Live, InSession, OnGround;
    Readings(s);
  }

  lemma ChallengedIdentity(s: Service, e: Event)
    requires e.Received? && Holds(s, e.session) && e.command.Challenge? && s.identity.present
    ensures IsIdentityStep(s, Challenged(s, e.command.provisioned, e.command.drawn).identity, e)
  {
    hide Live, InSession, OnGround;
    Readings(s);
  }

  // Over every event.
  lemma IdentityStep(s: Service, e: Event)
    ensures if e.Received? && !IsOfHolder(s, e) then Step(s, e).identity == s.identity
      else IsIdentityStep(Found(s, e), Step(s, e).identity, e)
  {
    hide Obeyed, Granting, WindowTicked, IsIdentityStep;
    match e
    case Received(session, command) => if IsOfHolder(s, e) { ObeyedIdentity(Found(s, e), e); }
    case _ => OtherIdentity(s, e);
  }

  lemma OtherIdentity(s: Service, e: Event)
    requires !e.Received?
    ensures IsIdentityStep(s, Step(s, e).identity, e)
  {
    hide IsIdentityStep, Granting, Settled;
    match e
    case Tick(_, _) => TickedIdentity(s, e);
    case LinkDown(_) => LostIdentity(s, e);
    case UnlockSettled(_) => SettledIdentity(s, e);
    case Confirm(_, _, _) => NothingMoves(s, e); GrantedIdentity(s, e);
    case _ => NothingMoves(s, e);
  }

  lemma GrantedIdentity(s: Service, e: Event)
    requires e.Confirm?
    ensures Granting(s, e.applied, e.versioned, e.signed).identity == s.identity
  {}

  lemma TickedIdentity(s: Service, e: Event)
    requires e.Tick?
    ensures IsIdentityStep(s, Step(s, e).identity, e)
  {
    hide InstallReceived;
    InstallKeepsIdentity(s.(now := e.time % WRAP), e.upload);
    hide InSession, Powered;
  }

  lemma InstallKeepsIdentity(s: Service, upload: Upload)
    ensures WindowTicked(s, s.now, upload).identity == s.identity && WindowTicked(s, s.now, upload).now == s.now
  {}

  lemma LostIdentity(s: Service, e: Event)
    requires e.LinkDown?
    ensures IsIdentityStep(s, Step(s, e).identity, e)
  {
    hide InSession, Powered;
  }

  lemma SettledIdentity(s: Service, e: Event)
    requires e.UnlockSettled?
    ensures IsIdentityStep(s, Step(s, e).identity, e)
  {
    hide InSession, OnGround;
    Readings(s);
  }
}
