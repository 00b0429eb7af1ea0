/**
 A command and its answer: ConfigService deciding what to say, and the reply half of it saying it.
 */
module ConfigReplies {
  import opened ConfigState
  import opened ConfigSafety
  import opened ConfigAnswers
  import opened ConfigService
  import Reports
  import Replies

  // What the link has been given, beside what it had before, is all of the answer: a whole report,
  // every field once and in order and all of it to this session; or one frame, and nothing for one that could not be written; or,
  // of either, a word that it was too wide.
  ghost predicate IsAnswered(replies: Replies.ReplyService, session: nat, report: bool, id: nat, bytes: nat,
                             shape: Reports.Shape, fields: seq<Reports.Field>, before: seq<Replies.Out>)
    reads replies, replies.link, replies.report
  {
    && replies.Valid() && !replies.Replying() && before <= replies.link.sent
    && if !report then
         replies.link.sent == before + replies.Answer(session, id, bytes)
       else if !Reports.Fits(shape, fields, replies.link.payload) then
         replies.link.sent == before + [Replies.Single(session, Replies.TOO_WIDE)]
       else
         fields != [] && Reports.Fits(shape, fields, Reports.Room(replies.link.payload, 384)) ==>
           && replies.before == |before| && Reports.Together(replies.Delivered()) == fields
           && Replies.AllTo(session, replies.link.sent[|before|..])
  }

  // One thing said goes to the reply service.
  method HandDown(replies: Replies.ReplyService, said: Said, id: nat, bytes: nat,
                  shape: Reports.Shape, fields: seq<Reports.Field>)
    requires replies.Valid() && !replies.Replying() && (said.Reported? ==> replies.holder == Replies.Some(said.to))
    requires Reports.WellFormed(shape, fields) && bytes <= Replies.HELD_FRAME_BYTES
    modifies replies, replies.link
    ensures replies.Valid() && replies.holder == old(replies.holder)
    ensures |old(replies.link.script)| == 0 ==>
      IsAnswered(replies, said.to, said.Reported?, id, bytes, shape, fields, old(replies.link.sent))
  {
    hide Reports.Fits, Reports.WellFormed, Reports.Together, Reports.Chain, Replies.FramesOf;
    if said.Reported? {
      var started := replies.StartReport(shape, fields);
      Replies.DeliveredIsThePrefix(replies);
    } else {
      var sent := replies.Reply(said.to, id, bytes);
    }
  }

  lemma ReportsGoToTheHolder(s: Service, t: Service, e: Event, said: Said)
    requires e.Received? && SaysWhatIsDue(s, t, e) && said in t.said[|s.said|..] && said.Reported?
    ensures (s.claim == None || s.claim == Some(e.session)) && said.to == e.session
  {
    hide IsDue, IsGranted;
    if s.claim == None || s.claim == Some(e.session) { assert IsMeant(said, Found(s, e), e); }
  }

  method Ask(config: ConfigService, session: nat, command: Command) returns (said: Option<Said>)
    requires config.Valid()
    modifies config, config.claim, config.identity
    ensures config.Valid() && config.history == old(config.history) + [Received(session, command)]
    ensures config.claim.Value() == Some(session) && !command.UnlockUnit? ==>
      said.Some? && said.value.to == session && (said.value.Reported? <==> command == ReportQuery(true))
    ensures said.Some? && said.value.Reported? ==> config.claim.Value() == Some(said.value.to)
  {
    hide Step, At, SaysWhatIsDue;
    ghost var was := config.State();
    var before := |config.said|;
    config.OnRx(session, command);
    if (was.claim == None || Holds(was, session)) && !command.UnlockUnit? {
      OneAnswer(was, session, command);
    }
    said := if |config.said| > before then Some(config.said[before]) else None;
    if said.Some? && said.value.Reported? {
      assert config.said[before] == config.said[|was.said|..][0];
      ReportsGoToTheHolder(was, config.State(), Received(session, command), config.said[before]);
    }
  }

  // on_rx as the link sees it, while nothing waits: whatever the holder's command, its answer goes
  // out whole on a link that takes what it is given; an unlock may wait for its write.
  method Exchange(config: ConfigService, replies: Replies.ReplyService, session: nat, command: Command,
                  bytes: nat, shape: Reports.Shape, fields: seq<Reports.Field>)
    requires config.Valid() && replies.Valid() && !replies.Replying()
    requires Reports.WellFormed(shape, fields) && bytes <= Replies.HELD_FRAME_BYTES
    modifies config, config.claim, config.identity, replies, replies.link
    ensures config.Valid() && config.history == old(config.history) + [Received(session, command)]
    ensures replies.Valid()
    ensures config.claim.Value() == Some(session) && !command.UnlockUnit? && |old(replies.link.script)| == 0 ==>
      IsAnswered(replies, session, command == ReportQuery(true), |config.said|, bytes, shape, fields, old(replies.link.sent))
  {
    hide IsAnswered, Step, At, Initial, Reports.Chain, Reports.Fits, Reports.WellFormed, Replies.FramesOf;
    var said := Ask(config, session, command);
    replies.holder := if config.claim.held then Replies.Some(config.claim.holder) else Replies.None;
    if said.Some? {
      HandDown(replies, said.value, |config.said|, bytes, shape, fields);
    }
  }
}
