/**
 A report's frame as the map it is on the link: the length the cutter counts is the length of its
 CBOR encoding, so a frame cut to a payload goes into it.
 */
module ReportBytes {
  import opened SortedKeys
  import opened CborValues
  import Reports

  // The map of a frame: the command under key 0; the group, of a report that has groups, under 1;
  // then the part's number and whether more follows; and the fields under their own keys, each as
  // long as the report has it down for.
  ghost predicate IsFrameMap(v: Value, shape: Reports.Shape, frame: Reports.Frame) {
    var h := if shape.grouped then 4 else 3;
    && v.Dict?
    && (forall k :: k in v.entries <==> 0 <= k < h || exists f :: f in frame.fields && f.key == k)
    && 0 in v.entries && h - 2 in v.entries && h - 1 in v.entries
    && v.entries[0] == Int(shape.command)
    && (shape.grouped ==> 1 in v.entries && v.entries[1] == Int(frame.group))
    && v.entries[h - 2] == Int(frame.part)
    && v.entries[h - 1] == Bool(frame.more)
    && forall f :: f in frame.fields ==> f.key in v.entries && EntryLength(v, f.key) == f.bytes
  }

  ghost function EntryLength(v: Value, key: int): nat
    requires v.Dict? && key in v.entries
  {
    |IntBytes(key)| + |Coded(v.entries[key])|
  }

  // Its fields' keys rise from behind the header's, and everything in it is within its range.
  ghost predicate IsOrderly(shape: Reports.Shape, frame: Reports.Frame) {
    && |frame.fields| < 252
    && shape.command <= ARGUMENT_CEILING && frame.group <= ARGUMENT_CEILING && frame.part <= ARGUMENT_CEILING
    && (forall f :: f in frame.fields ==> f.key >= if shape.grouped then 4 else 3)
    && forall i, j :: 0 <= i < j < |frame.fields| ==> frame.fields[i].key < frame.fields[j].key
  }

  lemma NumberLength(n: nat)
    requires n <= ARGUMENT_CEILING
    ensures |IntBytes(n)| == |Coded(Int(n))| == Reports.HeadBytes(n)
  {}

  lemma MapLength(n: nat)
    requires n < 256
    ensures |HeadBytes(MAP, n)| == Reports.MapHead(n)
  {}

  ghost function Keys(h: nat, fields: seq<Reports.Field>): (keys: seq<int>)
    ensures |keys| == h + |fields|
  {
    seq(h, i => i) + seq(|fields|, i requires 0 <= i < |fields| => fields[i].key)
  }

  lemma KeyAt(h: nat, fields: seq<Reports.Field>, i: nat)
    requires i < h + |fields|
    ensures Keys(h, fields)[i] == if i < h then i else fields[i - h].key
  {}

  lemma KeysAscend(shape: Reports.Shape, frame: Reports.Frame)
    requires IsOrderly(shape, frame)
    ensures Ascending(Keys(if shape.grouped then 4 else 3, frame.fields))
  {
    hide Keys;
    var h := if shape.grouped then 4 else 3;
    var keys := Keys(h, frame.fields);
    forall i, j | 0 <= i < j < |keys| ensures keys[i] < keys[j] {
      KeyAt(h, frame.fields, i);
      KeyAt(h, frame.fields, j);
      if j >= h { assert frame.fields[j - h] in frame.fields; }
    }
  }

  lemma KeyHeld(v: Value, shape: Reports.Shape, frame: Reports.Frame, k: int)
    requires IsFrameMap(v, shape, frame)
    ensures k in Keys(if shape.grouped then 4 else 3, frame.fields) <==> k in v.entries
  {
    hide Keys, Coded, EntryLength;
    var h := if shape.grouped then 4 else 3;
    var keys := Keys(h, frame.fields);
    if k in v.entries {
      if 0 <= k < h {
        KeyAt(h, frame.fields, k);
        assert keys[k] == k;
      } else {
        var f :| f in frame.fields && f.key == k;
        var i :| 0 <= i < |frame.fields| && frame.fields[i] == f;
        KeyAt(h, frame.fields, h + i);
        assert keys[h + i] == k;
      }
    }
    if k in keys {
      var i :| 0 <= i < |keys| && keys[i] == k;
      KeyAt(h, frame.fields, i);
      if i >= h { assert frame.fields[i - h] in frame.fields; }
    }
  }

  lemma KeysAreSorted(v: Value, shape: Reports.Shape, frame: Reports.Frame)
    requires IsFrameMap(v, shape, frame) && IsOrderly(shape, frame)
    ensures v.Dict? && Sorted(v.entries.Keys) == Keys(if shape.grouped then 4 else 3, frame.fields)
    ensures |v.entries| == (if shape.grouped then 4 else 3) + |frame.fields| < 256
  {
    var keys := Keys(if shape.grouped then 4 else 3, frame.fields);
    KeysAscend(shape, frame);
    forall k ensures k in keys <==> k in v.entries {
      KeyHeld(v, shape, frame, k);
    }
    KeysOfDict(v, keys);
    hide Coded, EntryLength, Keys, Sorted;
  }

  lemma KeysOfDict(v: Value, keys: seq<int>)
    requires v.Dict? && Ascending(keys) && forall k :: k in keys <==> k in v.entries
    ensures Sorted(v.entries.Keys) == keys && |v.entries| == |keys|
  {
    hide Sorted;
    SortedIsTheOnlyOne(v.entries.Keys, keys);
    assert |v.entries| == |v.entries.Keys|;
  }

  lemma DictLength(v: Value, keys: seq<int>)
    requires v.Dict? && keys == Sorted(v.entries.Keys)
    ensures HasKeys(v, keys) && |Coded(v)| == |HeadBytes(MAP, |v.entries|)| + |EntriesCoded(v, keys)|
  {
    hide HeadBytes, EntriesCoded;
  }

  // The entries of the first keys, added up.
  ghost function LengthTo(v: Value, keys: seq<int>, n: nat): nat
    requires HasKeys(v, keys) && n <= |keys|
  {
    if n == 0 then 0 else LengthTo(v, keys, n - 1) + EntryLength(v, keys[n - 1])
  }

  lemma {:induction false} EntriesLength(v: Value, keys: seq<int>, n: nat)
    requires HasKeys(v, keys) && n <= |keys|
    ensures |EntriesCoded(v, keys[..n])| == LengthTo(v, keys, n)
  {
    hide Coded, IntBytes;
    if n > 0 {
      EntriesLength(v, keys, n - 1);
      assert keys[..n][..n - 1] == keys[..n - 1];
    }
  }

  lemma HeaderLength(v: Value, shape: Reports.Shape, frame: Reports.Frame, keys: seq<int>, h: nat)
    requires IsFrameMap(v, shape, frame) && IsOrderly(shape, frame) && HasKeys(v, keys)
    requires h == (if shape.grouped then 4 else 3) && keys == Keys(h, frame.fields)
    ensures LengthTo(v, keys, h) == Reports.HeaderBytes(shape, frame.group, frame.part)
  {
    hide Coded, IntBytes;
    NumberLength(0);
    NumberLength(1);
    NumberLength(2);
    NumberLength(3);
    NumberLength(shape.command);
    NumberLength(frame.group);
    NumberLength(frame.part);
    FlagLength(frame.more);
    assert LengthTo(v, keys, 1) == EntryLength(v, 0);
    assert LengthTo(v, keys, 2) == EntryLength(v, 0) + EntryLength(v, 1);
    assert LengthTo(v, keys, 3) == EntryLength(v, 0) + EntryLength(v, 1) + EntryLength(v, 2);
  }

  lemma FlagLength(flag: bool)
    ensures |Coded(Bool(flag))| == 1
  {}

  lemma {:induction false} FieldsLength(v: Value, shape: Reports.Shape, frame: Reports.Frame, keys: seq<int>, h: nat, n: nat)
    requires IsFrameMap(v, shape, frame) && HasKeys(v, keys) && n <= |frame.fields|
    requires h == (if shape.grouped then 4 else 3) && keys == Keys(h, frame.fields)
    ensures LengthTo(v, keys, h + n) == LengthTo(v, keys, h) + Reports.Sum(frame.fields[..n])
  {
    hide Coded, IntBytes;
    if n > 0 {
      FieldsLength(v, shape, frame, keys, h, n - 1);
      assert keys[h + n - 1] == frame.fields[n - 1].key && frame.fields[n - 1] in frame.fields;
      assert frame.fields[..n][..n - 1] == frame.fields[..n - 1];
    }
  }

  // A frame's length as the cutter counts it is that of its map.
  lemma FrameLength(v: Value, shape: Reports.Shape, frame: Reports.Frame)
    requires IsFrameMap(v, shape, frame) && IsOrderly(shape, frame)
    ensures |Coded(v)| == Reports.FrameBytes(shape, frame)
  {
    hide HeadBytes, IntBytes, IsOrderly, IsFrameMap, Sorted, EntriesCoded, Keys, Coded, LengthTo, HasKeys;
    hide Reports.HeaderBytes, Reports.Sum, Reports.MapHead;
    var h, n := if shape.grouped then 4 else 3, |frame.fields|;
    var keys := Keys(h, frame.fields);
    KeysAreSorted(v, shape, frame);
    DictLength(v, keys);
    MapLength(h + n);
    EntriesLength(v, keys, h + n);
    HeaderLength(v, shape, frame, keys, h);
    FieldsLength(v, shape, frame, keys, h, n);
    assert keys[..h + n] == keys && frame.fields[..n] == frame.fields;
  }

  // The fields of a frame are some of the report's, in line.
  lemma {:induction false} FieldsOfFrame(shape: Reports.Shape, fields: seq<Reports.Field>, room: int,
                                         frames: seq<Reports.Frame>, at: nat, k: nat) returns (a: nat)
    requires Reports.Chain(shape, fields, room, frames, at) && k < |frames|
    ensures a + |frames[k].fields| <= |fields| && frames[k].fields == fields[a..a + |frames[k].fields|]
    decreases |frames|
  {
    hide Reports.FrameBytes;
    var last := |frames| - 1;
    var from := Reports.ChainStep(shape, fields, room, frames, at);
    if k == last { a := from; } else { a := FieldsOfFrame(shape, fields, room, frames[..last], from, k); }
  }

  lemma FramesAreOrderly(shape: Reports.Shape, fields: seq<Reports.Field>, room: int, frames: seq<Reports.Frame>,
                         at: nat, k: nat)
    requires Reports.Chain(shape, fields, room, frames, at) && k < |frames|
    requires Reports.WellFormed(shape, fields) && shape.command <= ARGUMENT_CEILING
    ensures IsOrderly(shape, frames[k])
  {
    hide Reports.Chain, Reports.FrameBytes, Reports.WellFormed, IsOrderly;
    Reports.ChainIsTheReport(shape, fields, room, frames, at);
    assert Reports.IsProper(shape, room, frames, k);
    var a := FieldsOfFrame(shape, fields, room, frames, at, k);
    AtMostFields(shape, fields);
    assert frames[k].fields[0] in frames[k].fields;
    SliceIsOrderly(shape, fields, frames[k], a);
  }

  lemma AtMostFields(shape: Reports.Shape, fields: seq<Reports.Field>)
    requires Reports.WellFormed(shape, fields)
    ensures |fields| <= 47
  {}

  lemma SliceIsOrderly(shape: Reports.Shape, fields: seq<Reports.Field>, frame: Reports.Frame, a: nat)
    requires Reports.WellFormed(shape, fields) && shape.command <= ARGUMENT_CEILING
    requires 0 < |frame.fields| && a + |frame.fields| <= |fields| && frame.fields == fields[a..a + |frame.fields|]
    requires frame.part <= |fields| && frame.fields[0].group == frame.group
    ensures IsOrderly(shape, frame)
  {
    forall i | 0 <= i < |frame.fields| ensures frame.fields[i] == fields[a + i] {}
  }

  // Every frame of a report, as it stands on the link, is within the room it was cut for.
  lemma FramesFit(shape: Reports.Shape, fields: seq<Reports.Field>, room: int, frames: seq<Reports.Frame>, at: nat,
                  k: nat, v: Value)
    requires Reports.Chain(shape, fields, room, frames, at) && k < |frames|
    requires Reports.WellFormed(shape, fields) && shape.command <= ARGUMENT_CEILING
    requires IsFrameMap(v, shape, frames[k])
    ensures |Coded(v)| == Reports.FrameBytes(shape, frames[k]) <= room
  {
    hide Reports.Chain, Reports.FrameBytes, Reports.WellFormed, IsFrameMap, IsOrderly, Coded;
    FramesAreOrderly(shape, fields, room, frames, at, k);
    Reports.ChainIsTheReport(shape, fields, room, frames, at);
    assert Reports.IsProper(shape, room, frames, k);
    FrameLength(v, shape, frames[k]);
  }
}
