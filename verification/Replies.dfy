/**
 The reply half of ConfigService: one frame waits for the link when it would block, and a report
 goes out frame by frame behind it (firmware/core/comms/config.cpp and config_reports.cpp).
 */
module Replies {
  import opened Reports

  datatype Option<T> = None | Some(value: T)

  datatype Status = Ok | WouldBlock | OutOfRange | Full | Failed

  // A frame, and the session it is for.
  datatype Out = OfReport(to: nat, frame: Frame) | Single(to: nat, id: nat)

  datatype Held = Held(out: Out, bytes: nat)

  const HELD_FRAME_BYTES: nat := 384
  const MINIMUM_PAYLOAD_BYTES: nat := 20
  const ACKNOWLEDGEMENT_BYTES: nat := 16
  const TOO_WIDE: nat := 0
  const REPLY_WAIT_MS: nat := 2000
  const WRAP: nat := 0x1_0000_0000

  // The companion link: it answers each frame as its script says, then takes everything.
  class Link {
    var script: seq<Status>
    var payload: nat
    var sent: seq<Out>
    // How many frames it has refused for good.
    ghost var refused: nat

    ghost predicate Valid()
      reads this
    {
      payload >= MINIMUM_PAYLOAD_BYTES
    }

    constructor (payload: nat, script: seq<Status>)
      requires payload >= MINIMUM_PAYLOAD_BYTES
      ensures Valid() && this.payload == payload && this.script == script && sent == []
    {
      this.payload, this.script, sent, refused := payload, script, [], 0;
    }

    // Whether it would block just now.
    ghost predicate Blocks()
      reads this
    {
      |script| > 0 && script[0] == WouldBlock
    }

    method SendTo(out: Out) returns (status: Status)
      modifies this`script, this`sent, this`refused
      ensures status == if |old(script)| > 0 then old(script)[0] else Ok
      ensures script == if |old(script)| > 0 then old(script)[1..] else []
      ensures refused == if status == Ok || status == WouldBlock then old(refused) else old(refused) + 1
      ensures sent == if status == Ok then old(sent) + [out] else old(sent)
      ensures |script| <= |old(script)| && (status != Ok ==> |script| < |old(script)|)
    {
      status := Ok;
      if |script| > 0 {
        status := script[0];
        script := script[1..];
      }
      if status == Ok {
        sent := sent + [out];
      } else if status != WouldBlock {
        refused := refused + 1;
      }
    }
  }

  ghost function FramesOf(sent: seq<Out>): seq<Frame> {
    if |sent| == 0 then [] else
      FramesOf(sent[..|sent| - 1]) +
      (match sent[|sent| - 1] case OfReport(_, frame) => [frame] case Single(_, _) => [])
  }

  // Every frame of a report among them is for this session.
  ghost predicate AllTo(asker: nat, sent: seq<Out>) {
    forall i :: 0 <= i < |sent| && sent[i].OfReport? ==> sent[i].to == asker
  }

  lemma FramesJoin(sent: seq<Out>, out: Out)
    ensures FramesOf(sent + [out]) == FramesOf(sent) + (if out.OfReport? then [out.frame] else [])
  {
    assert (sent + [out])[..|sent|] == sent;
  }

  class ReplyService {
    const link: Link
    var holder: Option<nat>
    var held: Option<Held>
    var heldSince: nat
    // diagnostics_report_ and timing_report_ in one: the next command waits while either is set.
    var report: Report?
    var reportPayload: nat
    var reportFrameBytes: nat
    var drops: nat
    var now: nat
    // The last report started: its shape and fields, the frames cut from it so far and how far they
    // reach, what the link had been sent before it, and whether the link failed it.
    ghost var shape: Shape
    ghost var fields: seq<Field>
    ghost var cut: seq<Frame>
    ghost var reach: nat
    ghost var before: nat
    ghost var failed: bool
    // Whom it is for.
    ghost var asker: nat
    // Every frame there was to send, and those lost with the session that held the link.
    ghost var offered: nat
    ghost var forgotten: nat
    ghost const sentBefore: nat

    // Each was taken by the link, waits, was counted as dropped, or went with its session.
    ghost predicate Accounted()
      reads this, link
    {
      offered + sentBefore == |link.sent| + drops + forgotten + if held.Some? then 1 else 0
    }

    // The frames of it that the link has taken.
    ghost function Delivered(): seq<Frame>
      reads this, link
      requires before <= |link.sent|
    {
      FramesOf(link.sent[before..])
    }

    ghost predicate Waiting()
      reads this
    {
      held.Some? && held.value.out.OfReport?
    }

    ghost predicate Running()
      reads this, link, report
    {
      Accounted() && Stands() && (report != null ==> IsReporting())
    }

    // What of the last report was cut, taken, failed and is waiting.
    ghost predicate Stands()
      reads this, link, report
    {
      && link.Valid() && before <= |link.sent| && reportFrameBytes <= HELD_FRAME_BYTES
      && Chain(shape, fields, Room(reportPayload, reportFrameBytes), cut, reach)
      && (Waiting() ==> Delivered() + [held.value.out.frame] == cut)
      && (!Waiting() && !failed ==> Delivered() == cut)
      && Delivered() <= cut
      && (report == null && !failed ==> reach == |fields|)
      && AllTo(asker, link.sent[before..]) && (Waiting() ==> held.value.out.to == asker)
    }

    // Between calls an unfinished report always has a frame waiting, so nothing else gets in.
    ghost predicate Valid()
      reads this, link, report
    {
      Running() && (report != null ==> Waiting())
    }

    // An unfinished report stands where its frames reach, and nothing else was sent since it began.
    ghost predicate IsReporting()
      reads this, link, report
    {
      HasCursor() && asker == Addressee() && (reach < |fields| || fields == []) && !failed && before <= |link.sent| && |link.sent| - before == |Delivered()|
    }

    ghost predicate HasCursor()
      reads this, report
    {
      && report != null && report.Valid() && report.shape == shape && report.fields == fields
      && report.at == reach && report.part == |cut|
    }

    // What the report was cut for still holds: its fields fit, and the link still takes such frames.
    ghost predicate IsSteady()
      reads this, link
    {
      Fits(shape, fields, Room(reportPayload, reportFrameBytes)) && reportPayload <= link.payload
    }

    // A report fails only because the link refused a frame of it for good, or could not carry it.
    ghost predicate IsExcused(refused: nat)
      reads this, link
    {
      failed ==> link.refused > refused || !IsSteady() || fields == []
    }

    constructor (link: Link)
      requires link.Valid()
      ensures Valid() && this.link == link && report == null && held == None && holder == None
    {
      this.link := link;
      holder, held, heldSince, report := None, None, 0, null;
      reportPayload, reportFrameBytes, drops, now := 0, 0, 0, 0;
      shape, fields, cut, reach, before, failed, asker := Shape(0, false), [], [], 0, |link.sent|, false, 0;
      offered, forgotten, sentBefore := 0, 0, |link.sent|;
    }

    // claim_.holder(): the session that holds the link, or nobody.
    function Addressee(): nat
      reads this
    {
      if holder.Some? then holder.value else 0
    }

    predicate Replying()
      reads this
    {
      held.Some? || report != null
    }

    // ----- one frame

    method Deliver(out: Out, bytes: nat) returns (status: Status)
      requires link.Valid() && Accounted() && bytes <= HELD_FRAME_BYTES
      modifies this`held, this`heldSince, this`drops, this`offered, link`script, link`sent, link`refused
      ensures link.sent == if status == Ok then old(link.sent) + [out] else old(link.sent)
      ensures held == if old(held) == None && status == WouldBlock && !(bytes == 0 || bytes > link.payload)
        then Some(Held(out, bytes)) else old(held)
      ensures heldSince == if held == old(held) then old(heldSince) else now
      ensures old(held) != None ==> status == Full
      ensures old(held) == None && (bytes == 0 || bytes > link.payload) ==> status == OutOfRange
      ensures |link.script| <= |old(link.script)| && link.refused >= old(link.refused)
      ensures |old(link.script)| == 0 ==> link.refused == old(link.refused)
      ensures old(held) == None && 0 < bytes <= link.payload && status != Ok && status != WouldBlock ==>
        link.refused > old(link.refused)
      ensures old(held) == None && 0 < bytes <= link.payload && |old(link.script)| == 0 ==> status == Ok
      ensures old(held) == None && 0 < bytes <= link.payload && status != Ok ==> |link.script| < |old(link.script)|
      ensures old(held) == None && 0 < bytes <= link.payload && old(link.Blocks()) ==>
        status == WouldBlock && link.refused == old(link.refused) && link.script == old(link.script)[1..]
      ensures Accounted() && offered == old(offered) + 1
      ensures drops == if status == Ok || status == WouldBlock then old(drops) else old(drops) + 1
    {
      offered := offered + 1;
      if bytes == 0 || bytes > link.payload || held.Some? {
        drops := drops + 1;
        return if held.Some? then Full else OutOfRange;
      }
      status := link.SendTo(out);
      if status == WouldBlock {
        Hold(out, bytes);
      } else if status != Ok {
        drops := drops + 1;
      }
    }

    // hold: the frame, and the moment from which its ceiling counts.
    method Hold(out: Out, bytes: nat)
      modifies this`held, this`heldSince, this`drops, this`offered
      ensures held == if bytes > HELD_FRAME_BYTES then old(held) else Some(Held(out, bytes))
      ensures offered == old(offered) && drops == if bytes > HELD_FRAME_BYTES then old(drops) + 1 else old(drops)
      ensures heldSince == if bytes > HELD_FRAME_BYTES then old(heldSince) else now
    {
      if bytes > HELD_FRAME_BYTES {
        drops := drops + 1;
        return;
      }
      held := Some(Held(out, bytes));
      heldSince := now;
    }

    // reply_to: a frame too wide for the holder is answered with small_mtu, which fits any link.
    method ReplyTo(out: Out, bytes: nat) returns (status: Status)
      requires link.Valid() && Accounted() && bytes <= HELD_FRAME_BYTES
      modifies this`held, this`heldSince, this`drops, this`offered, link`script, link`sent, link`refused
      ensures status == Ok || status == WouldBlock ==>
        link.sent == (if status == Ok then old(link.sent) + [out] else old(link.sent))
      ensures status == Ok ==> held == old(held)
      ensures status == WouldBlock ==> old(held) == None && held == Some(Held(out, bytes))
      ensures heldSince == if held == old(held) then old(heldSince) else now
      ensures old(held) == None && 0 < bytes <= link.payload && old(link.Blocks()) ==>
        status == WouldBlock && link.refused == old(link.refused) && link.script == old(link.script)[1..]
      ensures status != Ok && status != WouldBlock ==>
        && old(link.sent) <= link.sent && FramesOf(link.sent[|old(link.sent)|..]) == []
        && (held == old(held) || (old(held) == None && held.Some? && held.value.out.Single?))
      ensures old(held) != None ==> held == old(held) && link.sent == old(link.sent) && status == Full
      ensures |link.script| <= |old(link.script)| && link.refused >= old(link.refused)
      ensures |old(link.script)| == 0 ==> link.refused == old(link.refused)
      ensures old(held) == None && 0 < bytes <= link.payload && status != Ok && status != WouldBlock ==>
        link.refused > old(link.refused)
      ensures old(held) == None && 0 < bytes <= link.payload && |old(link.script)| == 0 ==> status == Ok
      ensures old(held) == None && |old(link.script)| == 0 ==> held == None
      ensures bytes == 0 ==> held == old(held) && link.sent == old(link.sent) && status != Ok
      ensures old(held) == None && |old(link.script)| == 0 && bytes > link.payload ==>
        link.sent == if holder == Some(out.to) then old(link.sent) + [Single(out.to, TOO_WIDE)] else old(link.sent)
      ensures Accounted()
      decreases |link.script|, if bytes > link.payload then 1 else 0, 1
    {
      status := Deliver(out, bytes);
      if status == OutOfRange && bytes > 0 && holder == Some(out.to) {
        RefuseTooWide();
      }
    }

    method RefuseTooWide()
      requires link.Valid() && Accounted()
      modifies this`held, this`heldSince, this`drops, this`offered, link`script, link`sent, link`refused
      ensures old(link.sent) <= link.sent && FramesOf(link.sent[|old(link.sent)|..]) == []
      ensures held == old(held) || (old(held) == None && held.Some? && held.value.out.Single?)
      ensures heldSince == if held == old(held) then old(heldSince) else now
      ensures old(held) != None ==> held == old(held) && link.sent == old(link.sent)
      ensures |link.script| <= |old(link.script)| && link.refused >= old(link.refused)
      ensures |old(link.script)| == 0 ==> link.refused == old(link.refused)
      ensures old(held) == None && |old(link.script)| == 0 ==>
        held == None && link.sent == old(link.sent) + [Single(Addressee(), TOO_WIDE)]
      ensures Accounted()
      decreases |link.script|, 0, 2
    {
      var _ := ReplyTo(Single(Addressee(), TOO_WIDE), ACKNOWLEDGEMENT_BYTES);
      OnlySingles(old(link.sent), link.sent, Single(Addressee(), TOO_WIDE));
    }

    // What one frame of this many bytes comes to on a willing link: the frame, a word that it is too
    // wide, or, if it could not be written, nothing.
    ghost function Answer(session: nat, id: nat, bytes: nat): seq<Out>
      reads this, link
    {
      if bytes == 0 then []
      else if bytes <= link.payload then [Single(session, id)]
      else if holder == Some(session) then [Single(session, TOO_WIDE)]
      else []
    }

    // Any other answer, or one nobody asked for.
    method Reply(session: nat, id: nat, bytes: nat) returns (status: Status)
      requires Valid() && bytes <= HELD_FRAME_BYTES
      modifies this`held, this`heldSince, this`drops, this`offered, link`script, link`sent, link`refused
      ensures Valid() && Delivered() == old(Delivered()) && cut == old(cut) && report == old(report)
      ensures old(Replying()) ==> held == old(held) && link.sent == old(link.sent)
      ensures heldSince == if held == old(held) then old(heldSince) else now
      ensures !old(Replying()) && |old(link.script)| == 0 ==>
        !Replying() && link.sent == old(link.sent) + Answer(session, id, bytes)
    {
      hide FramesOf, Chain, Room;
      status := ReplyTo(Single(session, id), bytes);
      SinglesKeep(old(link.sent), link.sent, before, Single(session, id));
    }

    // ----- reports

    // start_report: refused whole when some field would fit no frame of the payload.
    method StartReport(shape: Shape, fields: seq<Field>) returns (ok: bool)
      requires Valid() && !Replying() && WellFormed(shape, fields)
      modifies this, link`script, link`sent, link`refused
      ensures Valid() && ok == Fits(shape, fields, link.payload)
      ensures ok ==> this.shape == shape && this.fields == fields && before == |old(link.sent)|
      ensures ok ==> reportPayload == link.payload
      ensures !ok ==> report == null && Delivered() == [] && before == |old(link.sent)|
      ensures old(link.sent) <= link.sent
      ensures ok && IsSteady() && fields != [] && link.refused == old(link.refused) ==> !failed
      ensures ok && |old(link.script)| == 0 ==> held == None && report == null
      ensures ok && |old(link.script)| == 0 && fields != [] && Fits(shape, fields, Room(link.payload, 384)) ==>
        !failed
      ensures !ok && |old(link.script)| == 0 ==> !Replying() && link.sent == old(link.sent) + [Single(Addressee(), TOO_WIDE)]
      ensures holder == old(holder) && asker == Addressee() && now == old(now)
      ensures held.Some? ==> heldSince == now
      ensures ok && old(link.Blocks()) && fields != [] && Fits(shape, fields, Room(link.payload, 384)) ==>
        Waiting() && !failed && link.sent == old(link.sent) && link.script == old(link.script)[1..]
      ensures report != null ==> fresh(report)
    {
      hide FramesOf, Fits, WellFormed, Chain, Room;
      ok := EmplaceReport(shape, fields);
      if ok {
        ContinueReport();
      } else {
        AbandonReport();
      }
    }

    // report.emplace(...).fits(...)
    method EmplaceReport(shape: Shape, fields: seq<Field>) returns (ok: bool)
      requires link.Valid() && Accounted() && held == None && WellFormed(shape, fields)
      modifies this`report, this`reportPayload, this`reportFrameBytes
      modifies this`shape, this`fields, this`cut, this`reach, this`before, this`failed, this`asker
      ensures HasCursor() && fresh(report) && cut == [] && reach == 0 && !failed
      ensures before == |link.sent| && Delivered() == [] && reportFrameBytes == 384
      ensures Chain(shape, fields, Room(reportPayload, reportFrameBytes), cut, reach)
      ensures this.shape == shape && this.fields == fields && reportPayload == link.payload
      ensures asker == Addressee() && Accounted()
      ensures ok == Fits(shape, fields, link.payload)
    {
      hide Fits, WellFormed, Chain, Room, FramesOf;
      var emplaced := new Report(shape, fields);
      report, reportPayload, reportFrameBytes := emplaced, link.payload, HELD_FRAME_BYTES;
      this.shape, this.fields, cut, reach, before, failed, asker := shape, fields, [], 0, |link.sent|, false, Addressee();
      NothingSent(link.sent);
      NothingCut(shape, fields, Room(reportPayload, reportFrameBytes));
      ok := emplaced.FitsPayload(reportPayload);
    }

    method AbandonReport()
      requires link.Valid() && Accounted() && held == None && before == |link.sent| && Delivered() == [] == cut
      requires reportFrameBytes <= HELD_FRAME_BYTES
      requires Chain(shape, fields, Room(reportPayload, reportFrameBytes), cut, reach)
      modifies this`held, this`heldSince, this`drops, this`offered, this`failed, this`report, link`script, link`sent, link`refused
      ensures Valid() && report == null && Delivered() == [] && old(link.sent) <= link.sent
      ensures |old(link.script)| == 0 ==> held == None && link.sent == old(link.sent) + [Single(Addressee(), TOO_WIDE)]
      ensures held.Some? ==> heldSince == now
    {
      hide FramesOf, Chain, Room, AllTo;
      NothingSent(link.sent);
      offered, drops := offered + 1, drops + 1;
      failed := true;
      report := null;
      RefuseTooWide();
      SinglesKeep(old(link.sent), link.sent, before, Single(Addressee(), TOO_WIDE));
    }

    // continue_report: frames go out until one has to wait, the report is done, or the link fails it.
    method ContinueReport()
      requires Running() && (Waiting() || report == null || held == None)
      modifies this`held, this`heldSince, this`report, this`drops, this`offered, this`cut, this`reach, this`failed
      modifies link`script, link`sent, link`refused, report
      ensures Valid() && report in {null, old(report)}
      ensures old(link.sent) <= link.sent && old(cut) <= cut
      ensures old(report) == null ==> held == old(held) && cut == old(cut) && link.sent == old(link.sent)
      ensures link.refused >= old(link.refused) && |link.script| <= |old(link.script)|
      ensures |old(link.script)| == 0 ==> link.refused == old(link.refused)
      ensures !old(failed) ==> IsExcused(old(link.refused))
      ensures old(held) == None && |old(link.script)| == 0 ==> held == None && report == null
      ensures heldSince == if held == old(held) then old(heldSince) else now
      ensures old(held) == None && old(report) != null && old(link.Blocks()) && old(IsSteady()) && fields != [] ==>
        Waiting() && !failed && link.sent == old(link.sent) && link.script == old(link.script)[1..]
    {
      hide FramesOf, Chain, Room, Fits;
      ghost var asked := report;
      ghost var first, begun := link.sent, cut;
      while report != null && held == None
        invariant Running() && report in {null, asked}
        invariant Waiting() || report == null || held == None
        invariant first <= link.sent && begun <= cut
        invariant asked == null ==> held == old(held) && cut == begun && link.sent == first
        invariant link.refused >= old(link.refused) && |link.script| <= |old(link.script)|
        invariant !old(failed) ==> IsExcused(old(link.refused))
        invariant old(held) == None && |old(link.script)| == 0 ==> held == None && |link.script| == 0
        invariant |old(link.script)| == 0 ==> link.refused == old(link.refused)
        invariant old(held).Some? ==> held == old(held)
        invariant heldSince == if held == old(held) then old(heldSince) else now
        invariant old(held) == None && asked != null && old(link.Blocks()) && old(IsSteady()) && fields != [] ==>
          if held == None then report == asked && link.sent == first && link.script == old(link.script)
          else Waiting() && !failed && link.sent == old(link.sent) && link.script == old(link.script)[1..]
        decreases if report != null then |fields| - reach + 1 else 0
      {
        SendNext();
      }
    }

    // One turn of continue_report's loop.
    method SendNext()
      requires Running() && report != null && held == None
      modifies this`held, this`heldSince, this`report, this`drops, this`offered, this`cut, this`reach, this`failed
      modifies link`script, link`sent, link`refused, report
      ensures Running() && report in {null, old(report)}
      ensures Waiting() || report == null || held == None
      ensures report != null ==> reach > old(reach)
      ensures old(link.sent) <= link.sent && old(cut) <= cut
      ensures link.refused >= old(link.refused) && |link.script| <= |old(link.script)|
      ensures |old(link.script)| == 0 ==> link.refused == old(link.refused)
      ensures IsExcused(old(link.refused))
      ensures |old(link.script)| == 0 ==> held == None
      ensures heldSince == if held == None then old(heldSince) else now
      ensures old(link.Blocks()) && old(IsSteady()) && fields != [] ==>
        Waiting() && !failed && link.sent == old(link.sent) && link.script == old(link.script)[1..]
    {
      hide FramesOf, Chain, Room, Fits, AllTo;
      var bytes, frame := TakeFrame();
      if bytes == 0 {
        GiveUp();
        return;
      }
      assert old(cut) <= cut && reach > old(reach);
      SendFrame(frame, bytes);
    }

    // A frame that cannot be written ends the report.
    method GiveUp()
      requires Running() && held == None
      modifies this`report, this`drops, this`offered, this`failed
      ensures Running() && report == null && failed && drops == old(drops) + 1
    {
      hide FramesOf, Chain, Room, AllTo;
      offered, drops := offered + 1, drops + 1;
      report := null;
      failed := true;
    }

    // next_frame, and what the onlooker makes of it.
    method TakeFrame() returns (bytes: nat, frame: Frame)
      requires link.Valid() && reportFrameBytes <= HELD_FRAME_BYTES && HasCursor()
      requires Chain(shape, fields, Room(reportPayload, reportFrameBytes), cut, reach)
      modifies report, this`cut, this`reach
      ensures HasCursor() && Chain(shape, fields, Room(reportPayload, reportFrameBytes), cut, reach)
      ensures bytes > 0 ==> cut == old(cut) + [frame] && reach > old(reach) && bytes <= HELD_FRAME_BYTES
      ensures bytes == 0 ==> cut == old(cut) && reach == old(reach)
      ensures bytes == 0 ==> old(reach) >= |fields| || !Fits(shape, fields, Room(reportPayload, reportFrameBytes))
      ensures bytes > 0 ==> bytes <= reportPayload
    {
      hide FramesOf, Chain, Fits, WellFormed, FrameBytes;
      bytes, frame := report.NextFrame(reportPayload, reportFrameBytes);
      if bytes > 0 {
        OneMoreFrame(shape, fields, Room(reportPayload, reportFrameBytes), cut, reach, frame);
        cut := cut + [frame];
        reach := report.at;
      }
    }

    method SendFrame(frame: Frame, bytes: nat)
      requires link.Valid() && Accounted() && before <= |link.sent| && 0 < bytes <= HELD_FRAME_BYTES && reportFrameBytes <= HELD_FRAME_BYTES
      requires Chain(shape, fields, Room(reportPayload, reportFrameBytes), cut, reach)
      requires HasCursor() && held == None && !failed && Delivered() + [frame] == cut
      requires |link.sent| - before == |Delivered()|
      requires asker == Addressee() && AllTo(asker, link.sent[before..])
      modifies this`held, this`heldSince, this`report, this`drops, this`offered, this`failed, link`script, link`sent, link`refused
      ensures Running() && report in {null, old(report)}
      ensures Waiting() || report == null || held == None
      ensures old(link.sent) <= link.sent
      ensures link.refused >= old(link.refused) && |link.script| <= |old(link.script)|
      ensures |old(link.script)| == 0 ==> link.refused == old(link.refused)
      ensures failed && bytes <= link.payload ==> link.refused > old(link.refused)
      ensures |old(link.script)| == 0 ==> held == None
      ensures heldSince == if held == None then old(heldSince) else now
      ensures old(link.Blocks()) && bytes <= link.payload ==>
        Waiting() && !failed && link.sent == old(link.sent) && link.script == old(link.script)[1..]
    {
      hide FramesOf, Chain, WellFormed, Room;
      var status := ReplyTo(OfReport(Addressee(), frame), bytes);
      SentOn(old(link.sent), link.sent, before, OfReport(asker, frame), status);
      if report.Exhausted() || (status != Ok && status != WouldBlock) {
        failed := status != Ok && status != WouldBlock;
        report := null;
      }
    }

    // drop_replies; the frame that waited, if it is not counted as a drop, went with its session.
    method DropReplies(ghost counted: bool)
      requires Stands() && (report != null ==> Waiting())
      requires offered + sentBefore == |link.sent| + drops + forgotten + if held.Some? && !counted then 1 else 0
      modifies this`held, this`report, this`failed, this`forgotten
      ensures Valid() && held == None && report == null && cut == old(cut)
      ensures forgotten == old(forgotten) + if old(held).Some? && !counted then 1 else 0
    {
      hide FramesOf, Chain, Room;
      forgotten := forgotten + if held.Some? && !counted then 1 else 0;
      failed := failed || Waiting();
      held := None;
      report := null;
    }

    // resume_replies: the frame that waited goes out; or it waits on, it and the report behind it, if
    // it first had to wait less than two seconds ago; or both are given up.
    method ResumeReplies(nowMs: nat)
      requires Valid()
      modifies this`held, this`heldSince, this`report, this`drops, this`offered, this`forgotten, this`cut, this`reach, this`failed, this`now
      modifies link`script, link`sent, link`refused, report
      ensures Valid() && report in {null, old(report)} && now == nowMs
      ensures old(link.sent) <= link.sent && old(cut) <= cut
      ensures !old(failed) ==>
        IsExcused(old(link.refused)) || (old(held).Some? && (nowMs - old(heldSince)) % 0x1_0000_0000 >= 2000)
      ensures |old(link.script)| == 0 ==> !Replying()
      ensures old(held).Some? && old(link.Blocks()) ==>
        && link.sent == old(link.sent) && cut == old(cut) && link.script == old(link.script)[1..]
        && if (nowMs - old(heldSince)) % 0x1_0000_0000 < 2000
           then held == old(held) && heldSince == old(heldSince) && report == old(report) && failed == old(failed)
           else !Replying()
      ensures old(held).Some? && !old(link.Blocks()) && link.refused == old(link.refused) ==>
        old(link.sent) + [old(held).value.out] <= link.sent
      ensures !(old(held).Some? && old(link.Blocks())) && held.Some? ==> heldSince == nowMs
      ensures !old(Replying()) ==> !Replying() && link.sent == old(link.sent) && cut == old(cut)
      ensures forgotten == old(forgotten)
      ensures old(held).Some? && old(link.Blocks()) ==>
        drops == old(drops) + if (nowMs - old(heldSince)) % 0x1_0000_0000 < 2000 then 0 else 1
    {
      hide FramesOf, Chain, Room;
      now := nowMs;
      var go := true;
      if held.Some? {
        go := ReleaseHeld();
      }
      if go {
        ContinueReport();
      }
    }

    // The waiting frame: taken, still waiting, or given up with everything behind it.
    method ReleaseHeld() returns (go: bool)
      requires Valid() && held.Some?
      modifies this`held, this`report, this`drops, this`offered, this`forgotten, this`failed, link`script, link`sent, link`refused
      ensures Running() && report in {null, old(report)}
      ensures if go then held == None else Valid()
      ensures link.sent == if go then old(link.sent) + [old(held).value.out] else old(link.sent)
      ensures link.refused >= old(link.refused) && forgotten == old(forgotten)
      ensures drops == if go || (held.Some? && report == old(report)) then old(drops) else old(drops) + 1
      ensures link.script == if |old(link.script)| > 0 then old(link.script)[1..] else []
      ensures failed ==> old(failed) || link.refused > old(link.refused) || (now - old(heldSince)) % 0x1_0000_0000 >= 2000
      ensures |old(link.script)| == 0 ==> go
      ensures old(link.Blocks()) ==> !go
      ensures old(link.Blocks()) ==>
        if (now - heldSince) % 0x1_0000_0000 < 2000
        then held == old(held) && report == old(report) && failed == old(failed)
        else held == None && report == null
      ensures !old(link.Blocks()) && !go ==> link.refused > old(link.refused) && held == None && report == null
    {
      hide FramesOf, Chain, Room;
      var status := link.SendTo(held.value.out);
      if status == WouldBlock && (now - heldSince) % WRAP < REPLY_WAIT_MS {
        return false;
      }
      if status == Ok {
        FramesOn(old(link.sent), before, held.value.out);
        held := None;
        return true;
      }
      drops := drops + 1;
      DropReplies(true);
      go := false;
    }

    // Passes at these moments, the link blocking at every one, since a frame first had to wait: it and
    // its report wait on exactly if every pass came less than two seconds after that.
    method Outwait(times: seq<nat>, ghost first: nat)
      requires Valid() && held.Some? && heldSince == first % 0x1_0000_0000
      requires IsBlockedFor(link, |times|) && ArePasses(first, times)
      modifies this`held, this`heldSince, this`report, this`drops, this`offered, this`forgotten, this`cut, this`reach, this`failed, this`now
      modifies link`script, link`sent, link`refused, report
      ensures Valid() && link.sent == old(link.sent) && cut == old(cut)
      ensures if forall i :: 0 <= i < |times| ==> times[i] < first + 2000
        then held == old(held) && report == old(report) && failed == old(failed) else !Replying()
    {
      hide ReplyService.Valid, FramesOf, Chain, Room;
      for i := 0 to |times|
        invariant Valid() && link.sent == old(link.sent) && cut == old(cut) && report in {null, old(report)}
        invariant i > 0 ==> first <= times[i - 1]
        invariant if forall j :: 0 <= j < i ==> times[j] < first + 2000
          then held == old(held) && heldSince == old(heldSince) && report == old(report) && failed == old(failed)
            && link.script == old(link.script)[i..]
          else !Replying()
      {
        if forall j :: 0 <= j < i ==> times[j] < first + 2000 {
          ElapsedIsReal(times[i], first);
          assert link.script[0] == WouldBlock;
        }
        ResumeReplies(times[i] % WRAP);
      }
    }

    // A report asked for while the link blocks: its first frame waits, and with it the report, as
    // long as the passes come less than two seconds after the call, and no longer.
    method AskBlocked(shape: Shape, fields: seq<Field>, times: seq<nat>, ghost first: nat)
      requires Valid() && !Replying() && now == first % 0x1_0000_0000
      requires WellFormed(shape, fields) && fields != [] && Fits(shape, fields, link.payload)
      requires Fits(shape, fields, Room(link.payload, 384))
      requires IsBlockedFor(link, 1 + |times|) && ArePasses(first, times)
      modifies this, link`script, link`sent, link`refused
      ensures Valid() && link.sent == old(link.sent)
      ensures if forall i :: 0 <= i < |times| ==> times[i] < first + 2000
        then Waiting() && !failed && this.fields == fields else !Replying()
    {
      hide FramesOf, Chain, Fits, WellFormed;
      var ok := StartReport(shape, fields);
      Outwait(times, first);
    }

    // on_link_down, for the holder.
    method OnHolderDown()
      requires Valid()
      modifies this`held, this`report, this`failed, this`forgotten, this`holder
      ensures Valid() && !Replying() && holder == None
      ensures forgotten == old(forgotten) + if old(held).Some? then 1 else 0
    {
      holder := None;
      DropReplies(false);
    }
  }

  // The next n frames given to the link would block.
  ghost predicate IsBlockedFor(link: Link, n: nat)
    reads link
  {
    n <= |link.script| && forall i :: 0 <= i < n ==> link.script[i] == WouldBlock
  }

  // In order, and never so far apart that the millisecond counter comes round between two.
  ghost predicate ArePasses(first: nat, times: seq<nat>) {
    forall i :: 0 <= i < |times| ==>
      var last := if i == 0 then first else times[i - 1]; last <= times[i] < last + 0x1_0000_0000 - 2000
  }

  lemma ElapsedIsReal(t: nat, t0: nat)
    ensures t0 <= t < t0 + 0x1_0000_0000 ==> (t % 0x1_0000_0000 - t0 % 0x1_0000_0000) % 0x1_0000_0000 == t - t0
  {}

  lemma FramesOn(was: seq<Out>, before: nat, out: Out)
    requires before <= |was|
    ensures FramesOf((was + [out])[before..]) == FramesOf(was[before..]) + (if out.OfReport? then [out.frame] else [])
  {
    assert (was + [out])[before..] == was[before..] + [out];
    FramesJoin(was[before..], out);
  }

  // What the service has shown of the last report, at any moment between calls: what the link has
  // taken is an in-order beginning of it, frame by frame, and once nothing is left to say and the
  // link failed nothing it is all of it, every field once.
  lemma DeliveredIsThePrefix(s: ReplyService)
    requires s.Valid()
    ensures s.Delivered() <= s.cut && Together(s.cut) == s.fields[..s.reach]
    ensures !s.Replying() && !s.failed ==> Together(s.Delivered()) == s.fields
  {
    ChainIsTheReport(s.shape, s.fields, Room(s.reportPayload, s.reportFrameBytes), s.cut, s.reach);
  }

  lemma NothingSent(sent: seq<Out>)
    ensures FramesOf(sent[|sent|..]) == [] && forall asker :: AllTo(asker, sent[|sent|..])
  {}

  lemma NothingCut(shape: Shape, fields: seq<Field>, room: int)
    ensures Chain(shape, fields, room, [], 0)
  {}

  lemma OneMoreFrame(shape: Shape, fields: seq<Field>, room: int, cut: seq<Frame>, at: nat, frame: Frame)
    requires Chain(shape, fields, room, cut, at) && IsNext(shape, fields, at, |cut|, room, frame)
    ensures Chain(shape, fields, room, cut + [frame], at + |frame.fields|)
  {
    assert (cut + [frame])[..|cut|] == cut;
  }

  lemma SentOn(was: seq<Out>, sent: seq<Out>, before: nat, out: Out, status: Status)
    requires out.OfReport? && before <= |was|
    requires status == Ok || status == WouldBlock ==> sent == if status == Ok then was + [out] else was
    requires status != Ok && status != WouldBlock ==> was <= sent && FramesOf(sent[|was|..]) == []
    ensures was <= sent
    ensures FramesOf(sent[before..]) == FramesOf(was[before..]) + (if status == Ok then [out.frame] else [])
    ensures AllTo(out.to, was[before..]) ==> AllTo(out.to, sent[before..])
  {
    if status == Ok {
      assert sent[before..] == was[before..] + [out];
      FramesJoin(was[before..], out);
    } else if status != WouldBlock {
      SinglesKeep(was, sent, before, Single(0, TOO_WIDE));
    }
  }

  lemma OnlySingles(was: seq<Out>, sent: seq<Out>, out: Out)
    requires out.Single? && (sent == was || sent == was + [out] || (was <= sent && FramesOf(sent[|was|..]) == []))
    ensures was <= sent && FramesOf(sent[|was|..]) == []
  {
    if sent == was { assert sent[|was|..] == []; }
    else if sent == was + [out] { assert sent[|was|..] == [] + [out]; FramesJoin([], out); }
  }

  lemma SinglesKeep(was: seq<Out>, sent: seq<Out>, before: nat, out: Out)
    requires out.Single? && before <= |was|
    requires sent == was || sent == was + [out] || (was <= sent && FramesOf(sent[|was|..]) == [])
    ensures was <= sent && FramesOf(sent[before..]) == FramesOf(was[before..])
    ensures forall asker :: AllTo(asker, was[before..]) ==> AllTo(asker, sent[before..])
  {
    if sent != was && sent != was + [out] { NoFrames(sent[|was|..]); }
    OnlySingles(was, sent, out);
    FramesConcat(was[before..], sent[|was|..]);
    assert sent[before..] == was[before..] + sent[|was|..];
  }

  lemma {:induction false} NoFrames(sent: seq<Out>)
    requires FramesOf(sent) == []
    ensures forall i :: 0 <= i < |sent| ==> sent[i].Single?
  {
    if |sent| > 0 { NoFrames(sent[..|sent| - 1]); }
  }

  lemma {:induction false} FramesConcat(a: seq<Out>, b: seq<Out>)
    ensures FramesOf(a + b) == FramesOf(a) + FramesOf(b)
  {
    if |b| == 0 {
      assert a + b == a;
    } else {
      var front := b[..|b| - 1];
      FramesConcat(a, front);
      assert (a + b)[..|a + b| - 1] == a + front;
    }
  }
}
