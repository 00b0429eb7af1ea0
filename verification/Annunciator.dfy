/**
 Policy of firmware/core/annunciation: which tune the buzzer is playing and where in it, moved on
 by passes that come when they come, against the score as written.
 */
module Annunciator {

  datatype Voice = NoVoice | FirstFix | Traffic

  datatype Level = NoLevel | Advisory

  datatype Note = Note(pitch: nat, tone: nat, gap: nat)

  datatype Situation = Situation(level: Level, announced: bool, firstFix: bool, enabled: bool, running: bool)

  datatype Pass = Pass(situation: Situation, time: nat)

  datatype Command = Command(toneOn: bool, toneHz: nat, toneChanged: bool, vibrating: bool, vibrationChanged: bool)

  const REANNOUNCE_REST_MS: nat := 90
  const WRAP: nat := 0x1_0000_0000
  const LATEST_PASS_MS: nat := 0x8000_0000

  const ADVISORY_CALL: seq<Note> := [Note(3520, 180, 0), Note(4435, 90, 270), Note(3520, 180, 0), Note(4435, 270, 0)]

  const FIRST_FIX_JINGLE: seq<Note> := [Note(2637, 90, 90), Note(2637, 90, 270), Note(2637, 90, 270),
    Note(2093, 90, 90), Note(2637, 90, 270), Note(3136, 270, 0)]

  function TuneFor(voice: Voice, level: Level): seq<Note> {
    match voice
    case NoVoice => []
    case FirstFix => FIRST_FIX_JINGLE
    case Traffic => if level == Advisory then ADVISORY_CALL else []
  }

  ghost predicate IsTune(tune: seq<Note>) {
    && 0 < |tune| <= 6
    && forall i :: 0 <= i < |tune| ==> 90 <= tune[i].tone <= 270 && tune[i].gap <= 270 && tune[i].pitch > 0
  }

  lemma TunesAreTunes(voice: Voice, level: Level)
    ensures TuneFor(voice, level) == [] || IsTune(TuneFor(voice, level))
    ensures TuneFor(voice, level) == [] <==> voice == NoVoice || (voice == Traffic && level == NoLevel)
  {}

  // ----- the score

  // What sounds so long after note i begins: its pitch, or 0 for silence.
  ghost function ScoreFrom(tune: seq<Note>, i: nat, t: nat): nat
    requires i <= |tune|
    decreases |tune| - i
  {
    if i == |tune| then 0
    else if t < tune[i].tone then tune[i].pitch
    else if t < tune[i].tone + tune[i].gap then 0
    else ScoreFrom(tune, i + 1, t - tune[i].tone - tune[i].gap)
  }

  // Where note i begins.
  ghost function Offset(tune: seq<Note>, i: nat): nat
    requires i <= |tune|
  {
    if i == 0 then 0 else Offset(tune, i - 1) + tune[i - 1].tone + tune[i - 1].gap
  }

  lemma {:induction false} ScoreOn(tune: seq<Note>, i: nat, u: nat)
    requires i <= |tune|
    ensures ScoreFrom(tune, 0, Offset(tune, i) + u) == ScoreFrom(tune, i, u)
  {
    if i > 0 {
      ScoreOn(tune, i - 1, tune[i - 1].tone + tune[i - 1].gap + u);
    }
  }

  // The traffic call as it is heard: up a third after two sixteenths, a rest, and up again, held.
  lemma CallAsHeard(t: nat)
    ensures ScoreFrom(TuneFor(Traffic, Advisory), 0, t) ==
      if t < 180 then 3520 else if t < 270 then 4435 else if t < 540 then 0
      else if t < 720 then 3520 else if t < 990 then 4435 else 0
  {
    var tune := TuneFor(Traffic, Advisory);
    NextNote(tune, 0, t);
    if t >= 180 { NextNote(tune, 1, t - 180); }
    if t >= 540 { NextNote(tune, 2, t - 540); }
    if t >= 720 { NextNote(tune, 3, t - 720); }
  }

  // The jingle of the first fix: three notes, the low one, and up to the held one.
  lemma JingleAsHeard(t: nat)
    ensures ScoreFrom(TuneFor(FirstFix, NoLevel), 0, t) ==
      if t < 90 || 180 <= t < 270 || 540 <= t < 630 || 1080 <= t < 1170 then 2637
      else if 900 <= t < 990 then 2093
      else if 1440 <= t < 1710 then 3136
      else 0
  {
    var tune := TuneFor(FirstFix, NoLevel);
    NextNote(tune, 0, t);
    if t >= 180 { NextNote(tune, 1, t - 180); }
    if t >= 540 { NextNote(tune, 2, t - 540); }
    if t >= 900 { NextNote(tune, 3, t - 900); }
    if t >= 1080 { NextNote(tune, 4, t - 1080); }
    if t >= 1440 { NextNote(tune, 5, t - 1440); }
  }

  lemma NextNote(tune: seq<Note>, i: nat, t: nat)
    requires i < |tune|
    ensures t < tune[i].tone ==> ScoreFrom(tune, i, t) == tune[i].pitch
    ensures tune[i].tone <= t < tune[i].tone + tune[i].gap ==> ScoreFrom(tune, i, t) == 0
    ensures t >= tune[i].tone + tune[i].gap ==>
      ScoreFrom(tune, i, t) == if i + 1 == |tune| then 0 else ScoreFrom(tune, i + 1, t - tune[i].tone - tune[i].gap)
  {}

  // What sounds at a moment, for a tune that begins at another.
  ghost function HeardAt(tune: seq<Note>, start: nat, time: nat): nat {
    if time < start then 0 else ScoreFrom(tune, 0, time - start)
  }

  lemma {:induction false} ScoreEnds(tune: seq<Note>, t: nat)
    requires |tune| > 0 && t >= Offset(tune, |tune| - 1) + tune[|tune| - 1].tone
    ensures ScoreFrom(tune, 0, t) == 0
  {
    var i := |tune| - 1;
    var u := t - Offset(tune, i);
    ScoreOn(tune, i, u);
    assert ScoreFrom(tune, |tune|, 0) == 0;
    if u >= tune[i].tone + tune[i].gap { assert ScoreFrom(tune, |tune|, u - tune[i].tone - tune[i].gap) == 0; }
  }

  // ----- the player

  class Policy {
    var tune: seq<Note>
    var voice: Voice
    var level: Level
    var pitch: nat
    var noteIndex: nat
    var phaseMs: nat
    var phaseOn: bool
    var resting: bool
    var commandedHz: nat
    var commandedVibrating: bool
    // The tune last begun and not released, when its first note begins, and the time of the last pass.
    ghost var score: seq<Note>
    ghost var start: nat
    ghost var clock: nat

    // When the phase under way began.
    ghost function PhaseStart(): int
      reads this
    {
      if resting then start - REANNOUNCE_REST_MS
      else if noteIndex >= |tune| then start
      else if phaseOn then start + Offset(tune, noteIndex)
      else start + Offset(tune, noteIndex) + tune[noteIndex].tone
    }

    ghost function PhaseEnd(): int
      reads this
    {
      if resting then start
      else if noteIndex >= |tune| then start
      else if phaseOn then start + Offset(tune, noteIndex) + tune[noteIndex].tone
      else start + Offset(tune, noteIndex) + tune[noteIndex].tone + tune[noteIndex].gap
    }

    // The last note is over.
    ghost predicate IsOver()
      reads this
    {
      !resting && !phaseOn && noteIndex + 1 >= |tune|
    }

    ghost predicate IsPlaced()
      reads this
    {
      && IsTune(tune) && tune == TuneFor(voice, level) && score == tune && noteIndex < |tune| && pitch == tune[noteIndex].pitch
      && (resting ==> noteIndex == 0 && !phaseOn) && PhaseStart() >= 0 && phaseMs == PhaseStart() % WRAP
    }

    ghost predicate IsSilent()
      reads this
    {
      !phaseOn && !resting && forall time: nat :: time >= clock ==> HeardAt(score, start, time) == 0
    }

    // What was last commanded is what the phase under way asks for.
    ghost predicate IsCommanded()
      reads this
    {
      && (commandedHz != 0 <==> voice != NoVoice && phaseOn)
      && (commandedVibrating <==> voice == Traffic && phaseOn)
    }

    ghost predicate Valid()
      reads this
    {
      InStep() && IsCommanded()
    }

    // At the last pass the phase under way was the one that holds that moment.
    ghost predicate InStep()
      reads this
    {
      if voice == NoVoice then IsSilent()
      else IsPlaced() && PhaseStart() <= clock && (IsOver() || clock < PhaseEnd())
    }

    constructor ()
      ensures Valid() && voice == NoVoice && score == [] && commandedHz == 0 && !commandedVibrating && clock == 0
    {
      tune, voice, level, pitch, noteIndex, phaseMs := [], NoVoice, NoLevel, 0, 0, 0;
      phaseOn, resting, commandedHz, commandedVibrating := false, false, 0, false;
      score, start, clock := [], 0, 0;
    }

    // What an update makes of the tune: released, begun, or neither.
    ghost predicate Releases(situation: Situation)
      reads this
    {
      !situation.running || !situation.enabled
      || (situation.level == NoLevel && voice == Traffic && !situation.firstFix)
    }

    ghost predicate Begins(situation: Situation)
      reads this
    {
      && situation.running && situation.enabled
      && (if situation.level != NoLevel then voice != Traffic || level != situation.level || situation.announced
          else situation.firstFix)
    }

    // When a tune begun now is heard from: at once, after a rest when a note is sounding, and no
    // later for being begun again while it rests.
    ghost function BeginsFrom(situation: Situation, time: nat): nat
      reads this
    {
      var released := situation.level == NoLevel && voice == Traffic;
      if phaseOn && !released then time + 90
      else if resting && !released then start
      else time
    }

    method Release()
      modifies this`voice, this`pitch, this`level, this`phaseOn, this`resting
      ensures voice == NoVoice && !phaseOn && !resting
    {
      voice := NoVoice;
      pitch := 0;
      level := NoLevel;
      phaseOn := false;
      resting := false;
    }

    // begin, for a voice that has a tune.
    method Begin(newVoice: Voice, newLevel: Level, ghost time: nat, now: nat)
      requires now == time % WRAP && TuneFor(newVoice, newLevel) != [] && time >= clock
      requires voice != NoVoice ==> IsPlaced() && PhaseStart() <= clock
      requires voice == NoVoice ==> !phaseOn && !resting
      modifies this`voice, this`level, this`tune, this`noteIndex, this`pitch, this`phaseMs, this`phaseOn, this`resting
      modifies this`score, this`start
      ensures voice == newVoice && level == newLevel && tune == TuneFor(newVoice, newLevel) && IsPlaced()
      ensures PhaseStart() <= time && (old(resting) ==> PhaseStart() == old(PhaseStart()))
      ensures !old(resting) || old(phaseOn) ==> PhaseStart() == time
      ensures start == if old(phaseOn) then time + REANNOUNCE_REST_MS else if old(resting) then old(start) else time
      ensures !IsOver()
    {
      TunesAreTunes(newVoice, newLevel);
      var cuttingIn := phaseOn;
      voice := newVoice;
      level := newLevel;
      tune := TuneFor(newVoice, newLevel);
      score := tune;
      noteIndex := 0;
      pitch := tune[0].pitch;
      if cuttingIn {
        phaseMs := now;
        phaseOn := false;
        resting := true;
        start := time + REANNOUNCE_REST_MS;
      } else if !resting {
        phaseMs := now;
        phaseOn := true;
        start := time;
      }
    }

    method Advance(ghost time: nat, now: nat)
      requires now == time % WRAP
      requires voice != NoVoice ==> IsPlaced() && PhaseStart() <= time && (IsOver() || time < PhaseStart() + WRAP)
      requires voice == NoVoice ==> !phaseOn && !resting
      modifies this`noteIndex, this`pitch, this`phaseMs, this`phaseOn, this`resting, this`voice, this`level
      ensures voice != NoVoice ==> voice == old(voice) && level == old(level)
      ensures voice != NoVoice ==> IsPlaced() && PhaseStart() <= time && (IsOver() || time < PhaseEnd())
      ensures voice == NoVoice ==> !phaseOn && !resting
      ensures voice == NoVoice && old(voice) != NoVoice ==> old(voice) == FirstFix && IsTune(score) && IsPast(score, start, time)
      ensures old(voice) == NoVoice ==> voice == NoVoice
    {
      if voice == NoVoice {
        return;
      }
      var more := true;
      while more
        invariant voice != NoVoice ==> voice == old(voice) && level == old(level)
        invariant voice != NoVoice ==> IsPlaced() && PhaseStart() <= time && (IsOver() || time < PhaseStart() + WRAP)
        invariant voice == NoVoice ==> !more && !phaseOn && !resting
        invariant voice == NoVoice ==> old(voice) == FirstFix && IsTune(score) && IsPast(score, start, time)
        invariant !more && voice != NoVoice ==> IsOver() || time < PhaseEnd()
        decreases more, resting, |tune| - noteIndex, phaseOn
      {
        more := Turn(time, now);
      }
    }

    // One turn of advance's loop; more says whether it goes round again.
    method Turn(ghost time: nat, now: nat) returns (more: bool)
      requires now == time % WRAP && voice != NoVoice
      requires IsPlaced() && PhaseStart() <= time && (IsOver() || time < PhaseStart() + WRAP)
      modifies this`noteIndex, this`pitch, this`phaseMs, this`phaseOn, this`resting, this`voice, this`level
      ensures more ==>
        && voice == old(voice) && level == old(level)
        && IsPlaced() && PhaseStart() <= time && (IsOver() || time < PhaseStart() + WRAP)
        && ((old(resting) && !resting) || (old(resting) == resting && noteIndex > old(noteIndex))
            || (old(resting) == resting && noteIndex == old(noteIndex) && old(phaseOn) && !phaseOn))
      ensures !more && voice != NoVoice ==>
        voice == old(voice) && level == old(level) && IsPlaced() && PhaseStart() <= time && (IsOver() || time < PhaseEnd())
      ensures voice == NoVoice ==>
        !more && !phaseOn && !resting && old(voice) == FirstFix && IsTune(score) && IsPast(score, start, time)
    {
      hide ScoreFrom, HeardAt, TuneFor;
      ghost var since: nat := PhaseStart();
      if !IsOverNow() { ElapsedIsReal(time, since); }
      more := true;
      if resting {
        more := TurnRest(time, now);
        return;
      }
      if phaseOn {
        more := TurnTone(time, now);
        return;
      }
      var note := tune[noteIndex];
      if noteIndex + 1 >= |tune| {
        if voice == FirstFix {
          Release();
        }
        return false;
      }
      if (now - phaseMs) % WRAP < note.gap {
        return false;
      }
      Moved(since, note.gap);
      phaseMs := (phaseMs + note.gap) % WRAP;
      noteIndex := noteIndex + 1;
      pitch := tune[noteIndex].pitch;
      phaseOn := true;
    }

    // A note that sounds.
    method TurnTone(ghost time: nat, now: nat) returns (more: bool)
      requires now == time % WRAP && IsPlaced() && phaseOn && PhaseStart() <= time < PhaseStart() + WRAP
      modifies this`phaseMs, this`phaseOn
      ensures IsPlaced() && PhaseStart() <= time && (IsOver() || time < PhaseStart() + WRAP)
      ensures if more then !phaseOn else phaseOn && time < PhaseEnd()
    {
      hide Offset, TuneFor;
      ghost var since: nat := PhaseStart();
      ElapsedIsReal(time, since);
      var note := tune[noteIndex];
      if (now - phaseMs) % WRAP < note.tone {
        return false;
      }
      Moved(since, note.tone);
      phaseMs := (phaseMs + note.tone) % WRAP;
      phaseOn := false;
      more := true;
    }

    // The rest before a tune.
    method TurnRest(ghost time: nat, now: nat) returns (more: bool)
      requires now == time % WRAP && resting && IsPlaced() && PhaseStart() <= time < PhaseStart() + WRAP
      modifies this`phaseMs, this`phaseOn, this`resting
      ensures IsPlaced() && PhaseStart() <= time < PhaseStart() + WRAP
      ensures if more then !resting && phaseOn else resting && time < PhaseEnd()
    {
      ghost var since: nat := PhaseStart();
      ElapsedIsReal(time, since);
      if (now - phaseMs) % WRAP < REANNOUNCE_REST_MS {
        return false;
      }
      Moved(since, REANNOUNCE_REST_MS);
      phaseMs := (phaseMs + REANNOUNCE_REST_MS) % WRAP;
      resting := false;
      phaseOn := true;
      more := true;
    }

    predicate IsOverNow()
      reads this
    {
      !resting && !phaseOn && noteIndex + 1 >= |tune|
    }

    // One pass.  Whatever passes came between, what sounds is what the score says at this moment of
    // a tune begun when it was; a tune begun over a sounding note rests 90 ms first, and is not put
    // off again by being begun again meanwhile.
    method Update(situation: Situation, time: nat) returns (command: Command)
      requires Valid() && clock <= time < clock + LATEST_PASS_MS
      modifies this
      ensures Valid() && clock == time
      ensures command.toneHz == HeardAt(score, start, time) && command.toneOn == (command.toneHz != 0)
      ensures command.toneChanged == (command.toneHz != old(commandedHz)) && commandedHz == command.toneHz
      ensures command.vibrating == (command.toneOn && voice == Traffic) && commandedVibrating == command.vibrating
      ensures command.vibrationChanged == (command.vibrating != old(commandedVibrating))
      ensures old(Releases(situation)) ==> score == [] && voice == NoVoice
      ensures old(Begins(situation)) ==>
        && score == TuneFor(if situation.level != NoLevel then Traffic else FirstFix, situation.level)
        && start == old(BeginsFrom(situation, time))
      ensures !old(Releases(situation)) && !old(Begins(situation)) ==> score == old(score) && start == old(start)
      ensures !old(Releases(situation)) && !old(Begins(situation)) ==> IsKept(old(voice), old(level))
      ensures situation.running && situation.enabled && situation.level != NoLevel ==> voice == Traffic
      ensures old(Begins(situation)) && old(commandedHz) != 0 ==>
        start == if JumpsIn(situation, old(commandedVibrating)) then time else time + 90
      ensures !situation.running || !situation.enabled ==> command.toneHz == 0 && voice == NoVoice
      ensures situation.running && situation.enabled && situation.level != NoLevel ==>
        score == TuneFor(Traffic, situation.level) &&
        if !situation.announced && old(voice) == Traffic && old(level) == situation.level then start == old(start)
        else start == if old(commandedHz) != 0 then time + 90 else if old(resting) then old(start) else time
      ensures situation.running && situation.enabled && situation.level == NoLevel && !situation.firstFix ==>
        voice != Traffic && if old(voice) == Traffic then command.toneHz == 0 else score == old(score) && start == old(start)
      ensures situation.running && situation.enabled && situation.level == NoLevel && situation.firstFix ==>
        score == TuneFor(FirstFix, NoLevel)
    {
      hide ScoreFrom, IsTune, Offset, HeardAt, TuneFor;
      var now := time % WRAP;
      LatePass(time);
      if !situation.running || !situation.enabled {
        command := Hush(time);
        return;
      }
      Choose(situation, time, now);
      command := Sound(time, now);
    }

    // Nothing here begins or releases a tune: the call's level stays, or there is none and no fix.
    ghost predicate AsksNothingNew(situation: Situation)
      reads this
    {
      && situation.running && situation.enabled
      && if voice == Traffic then situation.level == level != NoLevel && !situation.announced
         else situation.level == NoLevel && !situation.firstFix
    }

    // Any passes that begin and release nothing: each hears the score at its offset from the start
    // the tune had before them, however many there are and whenever they come.
    method Listen(passes: seq<Pass>) returns (commands: seq<Command>)
      requires Valid() && AreInTime(clock, passes)
      requires forall k :: 0 <= k < |passes| ==> AsksNothingNew(passes[k].situation)
      modifies this
      ensures Valid() && score == old(score) && start == old(start) && |commands| == |passes|
      ensures forall k :: 0 <= k < |passes| ==> commands[k].toneHz == HeardAt(score, start, passes[k].time)
    {
      hide HeardAt, InStep, IsCommanded, TuneFor;
      commands := [];
      for i := 0 to |passes|
        invariant Valid() && AreInTime(clock, passes[i..]) && |commands| == i
        invariant score == old(score) && start == old(start)
        invariant forall k :: 0 <= k < |passes| ==> AsksNothingNew(passes[k].situation)
        invariant forall k :: 0 <= k < i ==> commands[k].toneHz == HeardAt(score, start, passes[k].time)
      {
        assert passes[i..][0] == passes[i] && passes[i..][1..] == passes[i + 1..];
        var command := Update(passes[i].situation, passes[i].time);
        commands := commands + [command];
      }
    }

    // Begun again however often while it rests, a call is neither heard early nor put off.
    method Insist(passes: seq<Pass>)
      requires Valid() && resting && AreInTime(clock, passes)
      requires forall k :: 0 <= k < |passes| ==>
        var s := passes[k].situation; s.running && s.enabled && s.level != NoLevel && passes[k].time < start
      modifies this
      ensures Valid() && start == old(start) && resting
      ensures |passes| > 0 ==> commandedHz == 0
    {
      for i := 0 to |passes|
        invariant Valid() && AreInTime(clock, passes[i..]) && start == old(start) && resting
        invariant i > 0 ==> commandedHz == 0
      {
        assert passes[i..][0] == passes[i] && passes[i..][1..] == passes[i + 1..];
        var command := Update(passes[i].situation, passes[i].time);
      }
    }

    // The same voice at the same level, or a jingle come to its end.
    ghost predicate IsKept(voice0: Voice, level0: Level)
      reads this
    {
      (voice == voice0 && (voice != NoVoice ==> level == level0)) || (voice0 == FirstFix && voice == NoVoice)
    }

    // advance and emit.
    method Sound(ghost time: nat, now: nat) returns (command: Command)
      requires now == time % WRAP && clock <= time
      requires voice != NoVoice ==> IsPlaced() && PhaseStart() <= time && (IsOver() || time < PhaseStart() + WRAP)
      requires voice == NoVoice ==> IsSilent()
      modifies this`noteIndex, this`pitch, this`phaseMs, this`phaseOn, this`resting, this`voice, this`level, this`clock
      modifies this`commandedHz, this`commandedVibrating
      ensures Valid() && clock == time && IsKept(old(voice), old(level))
      ensures command.toneHz == HeardAt(score, start, time) && command.toneOn == (command.toneHz != 0)
      ensures command.toneChanged == (command.toneHz != old(commandedHz)) && commandedHz == command.toneHz
      ensures command.vibrating == (command.toneOn && voice == Traffic) && commandedVibrating == command.vibrating
      ensures command.vibrationChanged == (command.vibrating != old(commandedVibrating))
    {
      hide ScoreFrom, Offset, HeardAt, IsTune, TuneFor;
      Move(time, now);
      command := Emit();
    }

    method Hush(ghost time: nat) returns (command: Command)
      modifies this
      ensures Valid() && clock == time && score == [] && voice == NoVoice
      ensures command.toneHz == HeardAt(score, start, time) == 0 && !command.toneOn
      ensures command.toneChanged == (command.toneHz != old(commandedHz)) && commandedHz == command.toneHz
      ensures !command.vibrating && !commandedVibrating && command.vibrationChanged == old(commandedVibrating)
    {
      hide ScoreFrom;
      Drop();
      clock := time;
      command := Emit();
    }

    // Which voice has the buzzer at this pass.
    method Choose(situation: Situation, ghost time: nat, now: nat)
      requires now == time % WRAP && clock <= time && situation.running && situation.enabled
      requires voice != NoVoice ==> IsPlaced() && PhaseStart() <= clock && (IsOver() || time < PhaseStart() + WRAP)
      requires voice == NoVoice ==> IsSilent()
      modifies this`voice, this`level, this`tune, this`noteIndex, this`pitch, this`phaseMs, this`phaseOn, this`resting
      modifies this`score, this`start
      ensures voice != NoVoice ==> IsPlaced() && PhaseStart() <= time && (IsOver() || time < PhaseStart() + WRAP)
      ensures voice == NoVoice ==> IsSilent()
      ensures old(Releases(situation)) ==> score == [] && voice == NoVoice
      ensures old(Begins(situation)) ==>
        && score == TuneFor(if situation.level != NoLevel then Traffic else FirstFix, situation.level)
        && start == old(BeginsFrom(situation, time))
      ensures !old(Releases(situation)) && !old(Begins(situation)) ==>
        score == old(score) && start == old(start) && voice == old(voice) && level == old(level)
      ensures situation.level != NoLevel ==> voice == Traffic
    {
      hide ScoreFrom, IsTune, Offset;
      if situation.level != NoLevel {
        if voice != Traffic || level != situation.level || situation.announced {
          TunesAreTunes(Traffic, situation.level);
          Begin(Traffic, situation.level, time, now);
        }
      } else if voice == Traffic {
        Drop();
      }
      if situation.firstFix && voice != Traffic {
        TunesAreTunes(FirstFix, NoLevel);
        Begin(FirstFix, NoLevel, time, now);
      }
    }

    method Drop()
      modifies this`voice, this`pitch, this`level, this`phaseOn, this`resting, this`score
      ensures voice == NoVoice && score == [] && !phaseOn && !resting
      ensures forall later: nat :: HeardAt(score, start, later) == 0
    {
      Release();
      score := [];
    }

    lemma LatePass(time: nat)
      requires InStep() && clock <= time < clock + LATEST_PASS_MS
      ensures voice != NoVoice ==> IsPlaced() && PhaseStart() <= clock && (IsOver() || time < PhaseStart() + WRAP)
      ensures voice == NoVoice ==> IsSilent()
    {}

    // advance, and what the onlooker hears of it.
    method Move(ghost time: nat, now: nat)
      requires now == time % WRAP && clock <= time
      requires voice != NoVoice ==> IsPlaced() && PhaseStart() <= time && (IsOver() || time < PhaseStart() + WRAP)
      requires voice == NoVoice ==> IsSilent()
      modifies this`noteIndex, this`pitch, this`phaseMs, this`phaseOn, this`resting, this`voice, this`level, this`clock
      ensures InStep() && clock == time
      ensures (if voice != NoVoice && phaseOn then pitch else 0) == HeardAt(score, start, time)
      ensures voice != NoVoice && phaseOn ==> pitch > 0
      ensures IsKept(old(voice), old(level))
    {
      hide ScoreFrom, Offset, TuneFor;
      Advance(time, now);
      if voice == NoVoice {
        if old(voice) != NoVoice { SilentAfter(score, start, time); }
      } else {
        HeardInPlace(time);
      }
      clock := time;
    }

    // Where the player stands is where the score is.
    lemma HeardInPlace(time: nat)
      requires IsPlaced() && PhaseStart() <= time && (IsOver() || time < PhaseEnd())
      ensures (if phaseOn then pitch else 0) == HeardAt(score, start, time)
      ensures phaseOn ==> pitch > 0
    {
      hide TuneFor;
      if time >= start {
        if IsOver() {
          ScoreEnds(tune, time - start);
        } else {
          ScoreOn(tune, noteIndex, time - start - Offset(tune, noteIndex));
        }
      }
    }

    method Emit() returns (command: Command)
      modifies this`commandedHz, this`commandedVibrating
      ensures command.toneOn == (voice != NoVoice && phaseOn) && command.toneHz == (if command.toneOn then pitch else 0)
      ensures command.toneChanged == (command.toneHz != old(commandedHz) || command.toneOn != (old(commandedHz) != 0))
      ensures command.vibrating == (command.toneOn && voice == Traffic)
      ensures command.vibrationChanged == (command.vibrating != old(commandedVibrating))
      ensures commandedHz == command.toneHz && commandedVibrating == command.vibrating
    {
      var toneOn := voice != NoVoice && phaseOn;
      var toneHz := if toneOn then pitch else 0;
      var vibrating := toneOn && voice == Traffic;
      command := Command(toneOn, toneHz, toneHz != commandedHz || toneOn != (commandedHz != 0), vibrating,
        vibrating != commandedVibrating);
      commandedHz, commandedVibrating := toneHz, vibrating;
    }
  }

  // The one way a tune starts over a sounding one: the first fix comes in the very pass in which
  // the call that sounds is dropped, so that the jingle follows it without a rest.
  predicate JumpsIn(situation: Situation, calling: bool) {
    calling && situation.level == NoLevel && situation.firstFix
  }

  // It happens.
  method FixDuringCall() returns (first: Command, second: Command)
    ensures first.toneOn && second.toneOn && first.toneHz != second.toneHz
  {
    var policy := new Policy();
    first := policy.Update(Situation(Advisory, true, false, true, true), 0);
    second := policy.Update(Situation(NoLevel, false, true, true, true), 50);
  }

  // Each pass comes no earlier than the one before and less than 24 days after it.
  ghost predicate AreInTime(clock: nat, passes: seq<Pass>)
    decreases |passes|
  {
    |passes| > 0 ==> clock <= passes[0].time < clock + LATEST_PASS_MS && AreInTime(passes[0].time, passes[1..])
  }

  lemma ElapsedIsReal(time: nat, since: nat)
    requires since <= time < since + WRAP
    ensures (time % WRAP - since % WRAP) % WRAP == time - since
  {}

  lemma Moved(since: nat, elapsed: nat)
    ensures (since % WRAP + elapsed) % WRAP == (since + elapsed) % WRAP
  {}

  lemma SilentAfter(tune: seq<Note>, start: nat, time: nat)
    requires IsTune(tune) && IsPast(tune, start, time)
    ensures forall later: nat :: later >= time ==> HeardAt(tune, start, later) == 0
  {
    hide ScoreFrom, Offset;
    forall later: nat | later >= time ensures HeardAt(tune, start, later) == 0 {
      if later >= start { ScoreEnds(tune, later - start); }
    }
  }

  // The last note of the tune is over.
  ghost predicate IsPast(tune: seq<Note>, start: nat, time: nat)
    requires |tune| > 0
  {
    time >= start + Offset(tune, |tune| - 1) + tune[|tune| - 1].tone
  }
}
