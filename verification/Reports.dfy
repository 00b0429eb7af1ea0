/**
 The multi-frame reports of firmware/core/comms: DiagnosticsReport and TimingReport cut a list of
 fields into frames that fit a payload, asking MapBudget of core/util/cbor first and writing with
 its Writer after.
 */
module Reports {

  // A field is known by its key; bytes is what its map entry takes.
  datatype Field = Field(key: nat, group: nat, bytes: nat)

  datatype Frame = Frame(group: nat, part: nat, more: bool, fields: seq<Field>)

  const MAX_FIELDS: nat := 47
  const MAX_ENTRIES: nat := 255
  const GROUP_COUNT: nat := 5
  const COMMAND_KEY: nat := 0

  // head_bytes.
  function HeadBytes(argument: nat): nat {
    if argument < 24 then 1
    else if argument <= 0xFF then 2
    else if argument <= 0xFFFF then 3
    else if argument <= 0xFFFF_FFFF then 5
    else 9
  }

  // The head of a map of so many entries, as MapBudget and Writer count it.
  function MapHead(entries: nat): nat {
    if entries < 24 then 1 else 2
  }

  // MapBudget.
  class Budget {
    const payload: int
    var used: nat
    var entries: nat

    constructor (payload: int)
      ensures this.payload == payload && used == 0 && entries == 0
    {
      this.payload := payload;
      used, entries := 0, 0;
    }

    method Take(bytes: nat) returns (ok: bool)
      modifies this
      ensures ok == (old(used) + bytes + MapHead(old(entries) + 1) <= payload)
      ensures used == (if ok then old(used) + bytes else old(used))
      ensures entries == (if ok then old(entries) + 1 else old(entries))
    {
      if used + bytes + MapHead(entries + 1) > payload {
        return false;
      }
      used := used + bytes;
      entries := entries + 1;
      ok := true;
    }
  }

  // Writer, by the length of what it has written.
  class Writer {
    const capacity: int
    var length: nat
    var entries: nat
    var lastKey: int
    var refused: bool
    ghost var used: nat

    ghost predicate Valid()
      reads this
    {
      !refused ==> length == used + MapHead(entries)
    }

    constructor (capacity: int)
      ensures Valid() && this.capacity == capacity && used == 0 && entries == 0 && lastKey == -1
      ensures refused == (capacity < 1)
    {
      this.capacity := capacity;
      length, entries, lastKey, refused, used := 1, 0, -1, capacity < 1, 0;
    }

    method Add(key: nat, bytes: nat)
      requires Valid()
      modifies this
      ensures Valid()
      ensures refused == (old(refused) || key <= old(lastKey) || old(entries) >= 255
        || old(used) + bytes + MapHead(old(entries) + 1) > capacity)
      ensures !refused ==> used == old(used) + bytes && entries == old(entries) + 1 && lastKey == key
    {
      if refused {
        return;
      }
      var grows := entries + 1 == 24;
      var needed := bytes + if grows then 1 else 0;
      if key <= lastKey || entries >= MAX_ENTRIES || needed > capacity - length {
        refused := true;
        return;
      }
      if grows {
        length := length + 1;
      }
      lastKey := key;
      entries := entries + 1;
      length := length + bytes;
      used := used + bytes;
    }

    method Finish() returns (bytes: nat)
      requires Valid()
      ensures bytes == if refused then 0 else used + MapHead(entries)
    {
      bytes := if refused then 0 else length;
    }
  }

  // ----- cutting

  function Sum(fields: seq<Field>): nat {
    if |fields| == 0 then 0 else Sum(fields[..|fields| - 1]) + fields[|fields| - 1].bytes
  }

  // What a report says before its fields: its command, its group if it has groups, part and more.
  datatype Shape = Shape(command: nat, grouped: bool)

  function HeaderCount(shape: Shape): nat {
    if shape.grouped then 4 else 3
  }

  // The first key a field may have.
  function FirstKey(shape: Shape): nat {
    HeaderCount(shape)
  }

  function CommandBytes(shape: Shape): nat {
    HeadBytes(COMMAND_KEY) + HeadBytes(shape.command)
  }

  function GroupBytes(shape: Shape, group: nat): nat {
    if shape.grouped then 1 + HeadBytes(group) else 0
  }

  function HeaderBytes(shape: Shape, group: nat, part: nat): nat {
    CommandBytes(shape) + GroupBytes(shape, group) + (1 + HeadBytes(part)) + 2
  }

  function FrameBytes(shape: Shape, frame: Frame): nat {
    MapHead(HeaderCount(shape) + |frame.fields|) + HeaderBytes(shape, frame.group, frame.part) + Sum(frame.fields)
  }

  function Widest(fields: seq<Field>): (w: nat)
    ensures forall f :: f in fields ==> f.bytes <= w
  {
    if |fields| == 0 then 0 else
      var w := Widest(fields[..|fields| - 1]);
      if fields[|fields| - 1].bytes > w then fields[|fields| - 1].bytes else w
  }

  // Every field has a place in some frame of this payload.
  predicate Fits(shape: Shape, fields: seq<Field>, payload: int) {
    1 + HeaderBytes(shape, GROUP_COUNT - 1, |fields|) + Widest(fields) <= payload
  }

  // The registry's keys: numbered upwards in the order the report lists them.
  ghost predicate WellFormed(shape: Shape, fields: seq<Field>) {
    && |fields| <= MAX_FIELDS
    && (forall i :: 0 <= i < |fields| ==> fields[i].key >= FirstKey(shape) && fields[i].group < GROUP_COUNT && fields[i].bytes >= 2)
    && (forall i, j :: 0 <= i < j < |fields| ==> fields[i].key < fields[j].key)
    && (!shape.grouped ==> forall i, j :: 0 <= i < j < |fields| ==> fields[i].group == fields[j].group)
  }

  // The frame that starts at one field and takes the next count.
  function FrameAt(fields: seq<Field>, at: nat, part: nat, count: nat): Frame
    requires at + count <= |fields| && at < |fields|
  {
    Frame(fields[at].group, part, at + count < |fields|, fields[at..at + count])
  }

  // A frame of as many of the fields in line as are of one group and fit.
  ghost predicate IsNext(shape: Shape, fields: seq<Field>, at: nat, part: nat, room: int, frame: Frame) {
    var n := |frame.fields|;
    && 0 < n && at + n <= |fields| && frame == FrameAt(fields, at, part, n)
    && (forall f :: f in frame.fields ==> f.group == frame.group)
    && FrameBytes(shape, frame) <= room
    && (at + n < |fields| && fields[at + n].group == frame.group ==>
          FrameBytes(shape, FrameAt(fields, at, part, n + 1)) > room)
  }

  class Report {
    const shape: Shape
    const fields: seq<Field>
    var at: nat
    var part: nat

    ghost predicate Valid()
      reads this
    {
      WellFormed(shape, fields) && part <= at <= |fields|
    }

    constructor (shape: Shape, fields: seq<Field>)
      requires WellFormed(shape, fields)
      ensures Valid() && this.shape == shape && this.fields == fields && at == 0 && part == 0
    {
      this.shape := shape;
      this.fields := fields;
      at, part := 0, 0;
    }

    predicate Exhausted()
      reads this
    {
      at >= |fields|
    }

    // fits, all or nothing before the first frame.
    method FitsPayload(payload: int) returns (ok: bool)
      requires Valid()
      ensures ok == Fits(shape, fields, payload)
    {
      var widest := 0;
      for i := 0 to |fields|
        invariant widest == Widest(fields[..i])
      {
        assert fields[..i + 1][..i] == fields[..i];
        widest := if fields[i].bytes > widest then fields[i].bytes else widest;
      }
      assert fields[..|fields|] == fields;
      var budget := new Budget(payload);
      ok := budget.Take(CommandBytes(shape));
      if ok && shape.grouped {
        ok := budget.Take(GroupBytes(shape, GROUP_COUNT - 1));
      }
      if ok {
        ok := budget.Take(1 + HeadBytes(|fields|));
      }
      if ok {
        ok := budget.Take(2);
      }
      if ok {
        ok := budget.Take(widest);
      }
    }

    method NextFrame(payload: int, capacity: int) returns (bytes: nat, frame: Frame)
      requires Valid()
      modifies this
      ensures Valid()
      ensures bytes > 0 ==>
        && old(at) < |fields| && IsNext(shape, fields, old(at), old(part), Room(payload, capacity), frame)
        && bytes == FrameBytes(shape, frame) && at == old(at) + |frame.fields| && part == old(part) + 1
      ensures bytes == 0 ==> at == old(at) && part == old(part)
      ensures old(at) < |fields| && Fits(shape, fields, Room(payload, capacity)) ==> bytes > 0
    {
      hide Fits, FrameBytes, IsNext, FrameAt, WellFormed;
      frame := Frame(0, 0, false, []);
      if Exhausted() {
        return 0, frame;
      }
      var packed;
      packed, bytes := Cut(Room(payload, capacity));
      if bytes == 0 {
        return bytes, frame;
      }
      frame := FrameAt(fields, at, part, packed);
      FrameAtSize(fields, at, part, packed);
      at := at + packed;
      part := part + 1;
    }

    // How many fields the next frame takes and how long it is, or nothing.
    method Cut(room: int) returns (packed: nat, bytes: nat)
      requires Valid() && at < |fields|
      ensures at + packed <= |fields|
      ensures bytes > 0 ==>
        && packed > 0 && bytes == FrameBytes(shape, FrameAt(fields, at, part, packed))
        && IsNext(shape, fields, at, part, room, FrameAt(fields, at, part, packed))
      ensures Fits(shape, fields, room) ==> bytes > 0
    {
      hide Fits, FrameBytes, IsNext, HeaderFits, WellFormed;
      if Fits(shape, fields, room) { FirstFits(shape, fields, at, part, room); }
      packed := Pack(room);
      bytes := 0;
      if packed == 0 {
        return;
      }
      bytes := Write(room, packed);
      if bytes > 0 {
        HeaderWithin(shape, fields, at, part, packed, room);
        NextIsNext(shape, fields, at, part, room, packed);
      } else {
        SomeBytes(shape, FrameAt(fields, at, part, packed));
      }
    }

    // The budget's half: how many fields the frame takes.
    method Pack(room: int) returns (packed: nat)
      requires Valid() && at < |fields|
      ensures at + packed <= |fields|
      ensures forall i :: at <= i < at + packed ==> fields[i].group == fields[at].group
      ensures HeaderFits(shape, fields[at].group, part, room) ==>
        && SizeAt(shape, fields, at, part, packed) <= room
        && (at + packed < |fields| && fields[at + packed].group == fields[at].group ==>
              SizeAt(shape, fields, at, part, packed + 1) > room)
    {
      hide HeaderBytes, FrameBytes, WellFormed, Sum;
      var group := fields[at].group;
      var budget := BudgetHeader(room, group);
      packed := 0;
      var more := true;
      while more
        invariant at + packed <= |fields| && fresh(budget) && budget.payload == room
        invariant forall i :: at <= i < at + packed ==> fields[i].group == group
        invariant HeaderFits(shape, group, part, room) ==>
          && budget.entries == HeaderCount(shape) + packed
          && budget.used + MapHead(budget.entries) == SizeAt(shape, fields, at, part, packed) <= room
        invariant !more && HeaderFits(shape, group, part, room) && at + packed < |fields| && fields[at + packed].group == group ==>
          SizeAt(shape, fields, at, part, packed + 1) > room
        decreases more, |fields| - at - packed
      {
        more := at + packed < |fields| && fields[at + packed].group == group;
        if more {
          OneMoreSize(shape, fields, at, part, packed);
          more := budget.Take(fields[at + packed].bytes);
          if more {
            packed := packed + 1;
          }
        }
      }
    }

    method BudgetHeader(room: int, group: nat) returns (budget: Budget)
      requires Valid() && at < |fields| && group == fields[at].group
      ensures fresh(budget) && budget.payload == room
      ensures HeaderFits(shape, group, part, room) ==>
        budget.entries == HeaderCount(shape) && budget.used + MapHead(budget.entries) == SizeAt(shape, fields, at, part, 0) <= room
    {
      budget := new Budget(room);
      var _ := budget.Take(CommandBytes(shape));
      if shape.grouped {
        var _ := budget.Take(GroupBytes(shape, group));
      }
      var _ := budget.Take(1 + HeadBytes(part));
      var _ := budget.Take(2);
    }

    // The writer's half: the frame's length, or 0 when it would not all go in.
    method Write(room: int, packed: nat) returns (bytes: nat)
      requires Valid() && 0 < packed && at + packed <= |fields|
      ensures bytes == (if SizeAt(shape, fields, at, part, packed) <= room
        then SizeAt(shape, fields, at, part, packed) else 0)
    {
      hide HeaderBytes, FrameBytes, Sum;
      var writer := WriteHeader(room, fields[at].group);
      for i := 0 to packed
        invariant fresh(writer) && writer.Valid() && writer.capacity == room
        invariant writer.refused <==> SizeAt(shape, fields, at, part, i) > room
        invariant !writer.refused ==>
          && writer.entries == HeaderCount(shape) + i
          && writer.used + MapHead(writer.entries) == SizeAt(shape, fields, at, part, i)
          && writer.lastKey == if i == 0 then HeaderCount(shape) - 1 else fields[at + i - 1].key
      {
        OneMoreSize(shape, fields, at, part, i);
        KeysRise(shape, fields, at + i);
        writer.Add(fields[at + i].key, fields[at + i].bytes);
      }
      bytes := writer.Finish();
    }

    method WriteHeader(room: int, group: nat) returns (writer: Writer)
      requires Valid() && at < |fields| && group == fields[at].group
      ensures fresh(writer) && writer.Valid() && writer.capacity == room
      ensures writer.refused <==> SizeAt(shape, fields, at, part, 0) > room
      ensures !writer.refused ==>
        && writer.entries == HeaderCount(shape) && writer.lastKey == HeaderCount(shape) - 1
        && writer.used + MapHead(writer.entries) == SizeAt(shape, fields, at, part, 0)
    {
      writer := new Writer(room);
      writer.Add(COMMAND_KEY, CommandBytes(shape));
      if shape.grouped {
        writer.Add(1, GroupBytes(shape, group));
      }
      writer.Add(HeaderCount(shape) - 2, 1 + HeadBytes(part));
      writer.Add(HeaderCount(shape) - 1, 2);
    }
  }

  lemma FrameAtSize(fields: seq<Field>, at: nat, part: nat, n: nat)
    requires at < |fields| && at + n <= |fields|
    ensures |FrameAt(fields, at, part, n).fields| == n
  {}

  lemma SomeBytes(shape: Shape, frame: Frame)
    ensures FrameBytes(shape, frame) > 0
  {}

  function Room(payload: int, capacity: int): int {
    if payload < capacity then payload else capacity
  }

  // The size of a frame of the next n fields.
  function SizeAt(shape: Shape, fields: seq<Field>, at: nat, part: nat, n: nat): nat
    requires at < |fields| && at + n <= |fields|
  {
    FrameBytes(shape, FrameAt(fields, at, part, n))
  }

  predicate HeaderFits(shape: Shape, group: nat, part: nat, room: int) {
    1 + HeaderBytes(shape, group, part) <= room
  }

  lemma OneMoreSize(shape: Shape, fields: seq<Field>, at: nat, part: nat, n: nat)
    requires at + n < |fields|
    ensures SizeAt(shape, fields, at, part, n + 1) - MapHead(HeaderCount(shape) + n + 1)
         == SizeAt(shape, fields, at, part, n) - MapHead(HeaderCount(shape) + n) + fields[at + n].bytes
  {
    hide HeaderBytes, MapHead;
    var a, b := fields[at..at + n], fields[at..at + n + 1];
    assert b[..|b| - 1] == a && b[|b| - 1] == fields[at + n];
    assert Sum(b) == Sum(a) + fields[at + n].bytes;
    assert FrameAt(fields, at, part, n).fields == a && FrameAt(fields, at, part, n + 1).fields == b;
  }

  lemma KeysRise(shape: Shape, fields: seq<Field>, i: nat)
    requires WellFormed(shape, fields) && i < |fields| 
    ensures fields[i].key >= HeaderCount(shape) && (i > 0 ==> fields[i - 1].key < fields[i].key)
  {}

  lemma HeadGrows(a: nat, b: nat)
    requires a <= b
    ensures HeadBytes(a) <= HeadBytes(b)
  {}

  // Where every field fits, the next one always does: the header is never longer than was allowed for.
  lemma FirstFits(shape: Shape, fields: seq<Field>, at: nat, part: nat, room: int)
    requires WellFormed(shape, fields) && part <= at < |fields| && Fits(shape, fields, room)
    ensures HeaderFits(shape, fields[at].group, part, room) && SizeAt(shape, fields, at, part, 1) <= room
  {
    HeadGrows(part, |fields|);
    HeadGrows(fields[at].group, GROUP_COUNT - 1);
    assert fields[at] in fields;
    assert fields[at..at + 1] == [fields[at]];
    assert Sum([fields[at]]) == fields[at].bytes;
  }

  lemma NextIsNext(shape: Shape, fields: seq<Field>, at: nat, part: nat, room: int, n: nat)
    requires 0 < n && at + n <= |fields| && SizeAt(shape, fields, at, part, n) <= room
    requires forall i :: at <= i < at + n ==> fields[i].group == fields[at].group
    requires at + n < |fields| && fields[at + n].group == fields[at].group ==> SizeAt(shape, fields, at, part, n + 1) > room
    ensures IsNext(shape, fields, at, part, room, FrameAt(fields, at, part, n))
  {
    hide FrameBytes;
  }

  // A frame is at least its header.
  lemma HeaderWithin(shape: Shape, fields: seq<Field>, at: nat, part: nat, n: nat, room: int)
    requires at < |fields| && at + n <= |fields| && SizeAt(shape, fields, at, part, n) <= room
    ensures HeaderFits(shape, fields[at].group, part, room)
  {}

  // ----- the whole report

  // These are the first frames of a report, and the cursor stands here after them.
  ghost predicate Chain(shape: Shape, fields: seq<Field>, room: int, frames: seq<Frame>, at: nat) {
    if |frames| == 0 then at == 0 else
      var k := |frames| - 1;
      var n := |frames[k].fields|;
      n <= at && Chain(shape, fields, room, frames[..k], at - n) && IsNext(shape, fields, at - n, k, room, frames[k])
  }

  ghost function Together(frames: seq<Frame>): seq<Field> {
    if |frames| == 0 then [] else Together(frames[..|frames| - 1]) + frames[|frames| - 1].fields
  }

  // One group to a frame, within the room, numbered from zero.
  ghost predicate IsProper(shape: Shape, room: int, frames: seq<Frame>, k: nat)
    requires k < |frames|
  {
    && frames[k].part == k && |frames[k].fields| > 0 && FrameBytes(shape, frames[k]) <= room
    && forall f :: f in frames[k].fields ==> f.group == frames[k].group
  }

  lemma {:induction false} FramesTogether(shape: Shape, fields: seq<Field>, room: int, frames: seq<Frame>, at: nat)
    requires Chain(shape, fields, room, frames, at)
    ensures |frames| <= at <= |fields| && Together(frames) == fields[..at]
  {
    if |frames| > 0 {
      hide *;
      var front, last := frames[..|frames| - 1], frames[|frames| - 1];
      var from := ChainStep(shape, fields, room, frames, at);
      FramesTogether(shape, fields, room, front, from);
      LastFrame(shape, fields, room, from, frames);
      JoinFields(fields, from, at);
      TogetherStep(frames);
    } else {
      assert fields[..0] == [];
    }
  }

  lemma ChainStep(shape: Shape, fields: seq<Field>, room: int, frames: seq<Frame>, at: nat) returns (from: nat)
    requires |frames| > 0 && Chain(shape, fields, room, frames, at)
    ensures var k := |frames| - 1;
      && at == from + |frames[k].fields| && Chain(shape, fields, room, frames[..k], from)
      && IsNext(shape, fields, from, k, room, frames[k])
  {
    hide IsNext;
    from := at - |frames[|frames| - 1].fields|;
  }

  lemma TogetherStep(frames: seq<Frame>)
    requires |frames| > 0
    ensures Together(frames) == Together(frames[..|frames| - 1]) + frames[|frames| - 1].fields
  {}

  lemma JoinFields(fields: seq<Field>, from: nat, to: nat)
    requires from <= to <= |fields|
    ensures fields[..from] + fields[from..to] == fields[..to]
  {}

  lemma {:induction false} FrameIsProper(shape: Shape, fields: seq<Field>, room: int, frames: seq<Frame>, at: nat, i: nat)
    requires Chain(shape, fields, room, frames, at) && i < |frames|
    ensures IsProper(shape, room, frames, i) && (frames[i].more <==> i < |frames| - 1 || at < |fields|)
  {
    hide FrameBytes, IsProper, IsNext;
    var k := |frames| - 1;
    var n := |frames[k].fields|;
    LastFrame(shape, fields, room, at - n, frames);
    if i < k {
      FrameIsProper(shape, fields, room, frames[..k], at - n, i);
      SameFrame(shape, room, frames, i);
    }
  }

  // Every field before the cursor is in exactly one of the frames, in order, and every frame says
  // more follows but the one that ends the report.
  lemma ChainIsTheReport(shape: Shape, fields: seq<Field>, room: int, frames: seq<Frame>, at: nat)
    requires Chain(shape, fields, room, frames, at)
    ensures at <= |fields| && |frames| <= at
    ensures Together(frames) == fields[..at]
    ensures forall k: nat :: k < |frames| ==> IsProper(shape, room, frames, k)
    ensures forall k: nat :: k < |frames| ==> (frames[k].more <==> k < |frames| - 1 || at < |fields|)
  {
    hide IsProper, Chain, Together;
    FramesTogether(shape, fields, room, frames, at);
    forall k: nat | k < |frames|
      ensures IsProper(shape, room, frames, k) && (frames[k].more <==> k < |frames| - 1 || at < |fields|)
    {
      FrameIsProper(shape, fields, room, frames, at, k);
    }
  }

  lemma LastFrame(shape: Shape, fields: seq<Field>, room: int, at: nat, frames: seq<Frame>)
    requires |frames| > 0 && IsNext(shape, fields, at, |frames| - 1, room, frames[|frames| - 1])
    ensures var k := |frames| - 1; var n := |frames[k].fields|;
      && IsProper(shape, room, frames, k) && 0 < n && at + n <= |fields|
      && frames[k].fields == fields[at..at + n] && (frames[k].more <==> at + n < |fields|)
  {
    hide FrameBytes;
  }

  lemma SameFrame(shape: Shape, room: int, frames: seq<Frame>, i: nat)
    requires i < |frames| - 1 && IsProper(shape, room, frames[..|frames| - 1], i)
    ensures IsProper(shape, room, frames, i) && frames[..|frames| - 1][i] == frames[i]
  {
    hide FrameBytes;
  }
}
