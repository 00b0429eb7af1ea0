/** Reader and decode of scripts/blip_frames.py. */
module BlipReader {
  import opened SortedKeys
  import opened CborValues
  import opened CborFormat
  import opened BlipWriter

  // These bytes stand at one place in the data and end at the other.
  ghost predicate Read(data: seq<Byte>, from: nat, to: nat, bytes: seq<Byte>) {
    from <= to <= |data| && bytes <= data[from..] && to == from + |bytes|
  }

  lemma ReadOn(data: seq<Byte>, from: nat, middle: nat, to: nat, a: seq<Byte>, b: seq<Byte>)
    requires Read(data, from, middle, a) && Read(data, middle, to, b)
    ensures Read(data, from, to, a + b)
  {
    assert data[from..][|a|..] == data[middle..];
    PrefixJoin(a, b, data[from..]);
  }

  lemma RestOf(data: seq<Byte>, from: nat, to: nat, a: seq<Byte>)
    requires Read(data, from, to, a)
    ensures data[from..][|a|..] == data[to..]
  {}

  // ----- heads

  ghost predicate NoHead(s: seq<Byte>) {
    forall m: nat, a: nat | m < 8 && a <= ARGUMENT_CEILING :: !(HeadBytes(m, a) <= s)
  }

  // The least argument a form of head is for.
  function Minimum(info: nat): nat {
    if info == 24 then 24 else if info == 25 then 256 else 65536
  }

  lemma HeadStands(m: nat, a: nat, s: seq<Byte>)
    requires m < 8 && a <= ARGUMENT_CEILING && HeadBytes(m, a) <= s
    ensures var w := Width(Info(a));
      && |s| >= 1 + w && s[0] / 32 == m && s[0] % 32 == Info(a)
      && (a >= 24 ==> Number(s[1..1 + w]) == a)
  {
    hide HeadBytes, Number;
    HeadReturns(m, a);
    assert HeadBytes(m, a)[1..] == s[1..1 + Width(Info(a))];
  }

  lemma HeadRead(initial: Byte, piece: seq<Byte>)
    requires initial % 32 <= 26 && |piece| == Width(initial % 32)
    requires initial % 32 >= 24 ==> Number(piece) >= Minimum(initial % 32)
    ensures var a := if initial % 32 < 24 then initial % 32 else Number(piece);
      a <= ARGUMENT_CEILING && Info(a) == initial % 32 && HeadBytes(initial / 32, a) == [initial] + piece
  {
    Ceilings();
    BigEndianReturns(piece);
  }

  class Reader {
    const data: seq<Byte>
    var at: nat

    constructor (data: seq<Byte>)
      ensures this.data == data && at == 0
    {
      this.data := data;
      at := 0;
    }

    method Take(count: nat) returns (ok: bool, piece: seq<Byte>)
      requires at <= |data|
      modifies this`at
      ensures ok <==> old(at) + count <= |data|
      ensures ok ==> Read(data, old(at), at, piece) && |piece| == count
      ensures !ok ==> at == old(at)
    {
      if at + count > |data| {
        return false, [];
      }
      ok, piece := true, data[at..at + count];
      at := at + count;
    }

    method Head() returns (ok: bool, major: nat, info: nat, argument: nat)
      requires at <= |data|
      modifies this`at
      ensures at <= |data|
      ensures ok ==> major < 8 && argument <= ARGUMENT_CEILING && info == Info(argument)
      ensures ok ==> Read(data, old(at), at, HeadBytes(major, argument))
      ensures !ok ==> NoHead(data[old(at)..])
    {
      hide HeadBytes, Number, Ceiling, Read;
      ghost var s := data[at..];
      forall m: nat, a: nat | m < 8 && a <= ARGUMENT_CEILING && HeadBytes(m, a) <= s
        ensures |s| >= 1 + Width(Info(a)) && s[0] % 32 == Info(a)
        ensures a >= 24 ==> Number(s[1..1 + Width(Info(a))]) == a
      {
        HeadStands(m, a, s);
      }
      var first;
      ok, first := Take(1);
      if !ok { return false, 0, 0, 0; }
      assert first == s[..1] by { ReadSlice(data, old(at), at, first); }
      var initial := first[0];
      major, info := initial / 32, initial % 32;
      if info < 24 {
        HeadRead(initial, []);
        assert first == [initial] + [];
        return true, major, info, info;
      }
      if info > 26 { return false, 0, 0, 0; }
      var piece;
      ghost var middle := at;
      ok, piece := Take(Width(info));
      if !ok { return false, 0, 0, 0; }
      assert piece == s[1..1 + Width(info)] by { ReadSlice(data, old(at), middle, first); ReadSlice(data, middle, at, piece); }
      argument := Number(piece);
      if argument < Minimum(info) { return false, 0, 0, 0; }
      HeadRead(initial, piece);
      ReadOn(data, old(at), middle, at, first, piece);
      assert first + piece == [initial] + piece;
    }

    method UnsignedItem() returns (ok: bool, argument: nat)
      requires at <= |data|
      modifies this`at
      ensures at <= |data|
      ensures ok ==> argument <= ARGUMENT_CEILING && Read(data, old(at), at, HeadBytes(UNSIGNED, argument))
      ensures !ok ==> NoUnsigned(data[old(at)..])
    {
      hide HeadBytes;
      var major, info;
      ok, major, info, argument := Head();
      if ok && major != UNSIGNED {
        OtherHead(major, argument, data[old(at)..]);
        ok := false;
      }
    }

    // [self.unsigned_item() for _ in range(count)]
    method Items(count: nat) returns (ok: bool, items: seq<Value>)
      requires at <= |data|
      modifies this`at
      ensures at <= |data|
      ensures ok ==> |items| == count && AreUnsigned(items) && Read(data, old(at), at, ItemsCoded(List(items), count))
      ensures !ok ==> forall v | IsList(v, count) :: !(ItemsCoded(v, count) <= data[old(at)..])
    {
      hide HeadBytes, Read, ItemsCoded, NoUnsigned;
      ghost var start, s := at, data[at..];
      items := [];
      NoItems(List(items));
      ReadNothing(data, at);
      for i := 0 to count
        invariant |items| == i && AreUnsigned(items) && at <= |data|
        invariant Read(data, start, at, ItemsCoded(List(items), i))
      {
        ghost var middle := at;
        var argument;
        ok, argument := UnsignedItem();
        if !ok {
          RestOf(data, start, middle, ItemsCoded(List(items), i));
          ReadStands(data, start, middle, ItemsCoded(List(items), i));
          forall v | IsList(v, count) ensures !(ItemsCoded(v, count) <= s) {
            ItemMissing(v, List(items), count, i, s);
          }
          return;
        }
        ReadOn(data, start, middle, at, ItemsCoded(List(items), i), HeadBytes(UNSIGNED, argument));
        ItemAdded(items, argument);
        items := items + [Int(argument)];
      }
      ok := true;
    }

    method ReadValue() returns (ok: bool, value: Value)
      requires at <= |data|
      modifies this`at
      ensures at <= |data|
      ensures ok ==> IsFrameValue(value) && Read(data, old(at), at, Coded(value))
      ensures !ok ==> NoValue(data[old(at)..])
    {
      hide HeadBytes, Coded, ItemsCoded, Behind, Argument, Major, IsFrameValue, Read, NoValue, NoHead, AreUnsigned, Fits;
      ghost var start, s := at, data[at..];
      var major, info, argument;
      value := Bool(false);
      ok, major, info, argument := Head();
      if !ok { NoHeadNoValue(s); return; }
      ghost var middle := at;
      ReadStands(data, start, middle, HeadBytes(major, argument));
      RestOf(data, start, middle, HeadBytes(major, argument));
      if major == UNSIGNED {
        value := Int(argument);
        IntIsHead(value, argument);
      } else if major == NEGATIVE {
        value := Int(-1 - (argument as int));
        IntIsHead(value, argument);
      } else if major == BYTES {
        var piece;
        ok, piece := Take(argument);
        if !ok { NoBytesThere(s, argument); return; }
        value := Bytes(piece);
        ReadOn(data, start, middle, at, HeadBytes(BYTES, argument), piece);
        StringCoded(value);
      } else if major == TEXT {
        var text;
        ok, text := ReadText(argument);
        if !ok { NoTextThere(s, argument); return; }
        value := Text(text);
        ReadOn(data, start, middle, at, HeadBytes(TEXT, argument), text);
        StringCoded(value);
      } else if major == ARRAY {
        var items;
        ok, items := Items(argument);
        if !ok { NoListThere(s, argument); return; }
        value := List(items);
        ReadOn(data, start, middle, at, HeadBytes(ARRAY, argument), ItemsCoded(value, argument));
        ListCoded(value);
      } else if major == SIMPLE && (info == 20 || info == 21) {
        value := Bool(info == 21);
        BoolCoded(info == 21, argument);
      } else {
        NothingElse(s, major, argument);
        ok := false;
      }
    }

    method ReadText(count: nat) returns (ok: bool, text: Utf8)
      requires at <= |data|
      modifies this`at
      ensures at <= |data|
      ensures ok <==> old(at) + count <= |data| && IsUtf8(data[old(at)..][..count])
      ensures ok ==> |text| == count && Read(data, old(at), at, text)
    {
      var piece;
      ok, piece := Take(count);
      text := [];
      if ok {
        assert piece == data[old(at)..][..count];
        ok := IsUtf8(piece);
        if ok { text := piece; }
      }
    }

    method Frame() returns (ok: bool, frame: Value)
      requires at <= |data|
      modifies this`at
      ensures at <= |data|
      ensures ok ==> IsFrame(frame) && Read(data, old(at), at, Coded(frame))
      ensures !ok ==> NoFrame(data[old(at)..])
    {
      hide HeadBytes, Coded, EntriesCoded, IsFrameValue, Read, NoValue, NoHead, NoFrame, Fits, Sorted;
      ghost var start, s := at, data[at..];
      frame := Dict(map[]);
      var major, info, count;
      ok, major, info, count := Head();
      if !ok { NoHeadNoFrame(s); return; }
      ghost var first := at;
      ReadStands(data, start, first, HeadBytes(major, count));
      RestOf(data, start, first, HeadBytes(major, count));
      if major != MAP {
        NotAMap(s, major, count);
        return false, frame;
      }
      if count > |data| - at {
        TooFewBytes(s, count);
        return false, frame;
      }
      ghost var rest, keys := data[at..], [];
      var last: int := -1;
      EmptyDict();
      ReadNothing(data, at);
      for i := 0 to count
        invariant |keys| == i && first <= at <= |data| && IsDictOf(frame, keys, last)
        invariant Read(data, first, at, EntriesCoded(frame, keys))
      {
        ghost var before := at;
        var key, value;
        ok, major, info, key := Head();
        RestOf(data, first, before, EntriesCoded(frame, keys));
        if !ok || major != UNSIGNED || key <= last {
          ReadStands(data, first, before, EntriesCoded(frame, keys));
          if ok { ReadStands(data, before, at, HeadBytes(major, key)); }
          forall f | IsFrame(f) && |f.entries| == count ensures !(EntriesCoded(f, Sorted(f.entries.Keys)) <= rest) {
            KeyMissing(f, frame, keys, last, rest, ok, major, key);
          }
          NoEntriesThere(s, count);
          return false, frame;
        }
        ghost var middle := at;
        ReadStands(data, before, middle, HeadBytes(UNSIGNED, key));
        ok, value := ReadValue();
        RestOf(data, before, middle, HeadBytes(UNSIGNED, key));
        if !ok {
          ReadStands(data, first, before, EntriesCoded(frame, keys));
          forall f | IsFrame(f) && |f.entries| == count ensures !(EntriesCoded(f, Sorted(f.entries.Keys)) <= rest) {
            ValueMissing(f, frame, keys, last, rest, key);
          }
          NoEntriesThere(s, count);
          return false, frame;
        }
        ReadOn(data, before, middle, at, HeadBytes(UNSIGNED, key), Coded(value));
        ReadOn(data, first, before, at, EntriesCoded(frame, keys), HeadBytes(UNSIGNED, key) + Coded(value));
        OneMoreKey(frame, keys, last, key, value);
        frame, keys, last := Dict(frame.entries[key := value]), keys + [key], key;
      }
      ok := true;
      DictDone(frame, keys, last);
      ReadOn(data, start, first, at, HeadBytes(MAP, count), EntriesCoded(frame, keys));
    }
  }

  lemma ReadSlice(data: seq<Byte>, from: nat, to: nat, bytes: seq<Byte>)
    requires Read(data, from, to, bytes)
    ensures from <= to <= |data| && bytes == data[from..to]
  {}

  lemma ReadStands(data: seq<Byte>, from: nat, to: nat, bytes: seq<Byte>)
    requires Read(data, from, to, bytes)
    ensures from <= to <= |data| && bytes <= data[from..]
  {}

  lemma ReadNothing(data: seq<Byte>, at: nat)
    requires at <= |data|
    ensures Read(data, at, at, [])
  {}

  // ----- an array's items

  ghost predicate NoUnsigned(s: seq<Byte>) {
    forall a: nat | a <= ARGUMENT_CEILING :: !(HeadBytes(UNSIGNED, a) <= s)
  }

  lemma OtherHead(major: nat, argument: nat, s: seq<Byte>)
    requires UNSIGNED < major < 8 && argument <= ARGUMENT_CEILING && HeadBytes(major, argument) <= s
    ensures NoUnsigned(s)
  {
    hide HeadBytes;
    forall a: nat | a <= ARGUMENT_CEILING && HeadBytes(UNSIGNED, a) <= s ensures false {
      HeadsArePrefixFree(UNSIGNED, a, major, argument, s);
    }
  }

  ghost predicate AreUnsigned(items: seq<Value>) {
    forall x :: x in items ==> IsUnsigned(x)
  }

  ghost predicate IsList(v: Value, count: nat) {
    v.List? && |v.items| == count <= ARGUMENT_CEILING && AreUnsigned(v.items)
  }

  lemma NoItems(v: Value)
    requires v.List?
    ensures ItemsCoded(v, 0) == []
  {}

  lemma ItemAdded(items: seq<Value>, argument: nat)
    ensures var more := items + [Int(argument)];
      ItemsCoded(List(more), |more|) == ItemsCoded(List(items), |items|) + HeadBytes(UNSIGNED, argument)
  {
    hide HeadBytes;
    var v, w := List(items), List(items + [Int(argument)]);
    ItemsAgree(v, w, |items|);
  }

  lemma {:induction false} ItemsBegin(v: Value, n: nat, i: nat, s: seq<Byte>)
    requires v.List? && i <= n <= |v.items| && ItemsCoded(v, n) <= s
    ensures ItemsCoded(v, i) <= s
    decreases n - i
  {
    hide Coded;
    if i < n {
      PrefixFront(ItemsCoded(v, n - 1), Coded(v.items[n - 1]), s);
      ItemsBegin(v, n - 1, i, s);
    }
  }

  lemma ItemMissing(v: Value, w: Value, count: nat, i: nat, s: seq<Byte>)
    requires IsList(v, count) && w.List? && i == |w.items| < count && AreUnsigned(w.items)
    requires ItemsCoded(w, i) <= s && NoUnsigned(s[|ItemsCoded(w, i)|..])
    ensures !(ItemsCoded(v, count) <= s)
  {
    hide HeadBytes, ItemsCoded;
    if ItemsCoded(v, count) <= s {
      ItemsBegin(v, count, i, s);
      ItemsBegin(v, count, i + 1, s);
      ItemsArePrefixFree(v, w, i, s);
      ItemsAgree(v, w, i);
      LastUnsigned(v, i, s);
    }
  }

  lemma LastUnsigned(v: Value, i: nat, s: seq<Byte>)
    requires v.List? && i < |v.items| && IsUnsigned(v.items[i]) && ItemsCoded(v, i + 1) <= s
    ensures ItemsCoded(v, i) <= s && HeadBytes(UNSIGNED, v.items[i].number) <= s[|ItemsCoded(v, i)|..]
  {
    hide HeadBytes;
    PrefixFront(ItemsCoded(v, i), Coded(v.items[i]), s);
  }

  // ----- one value

  ghost predicate NoValue(s: seq<Byte>) {
    forall v | IsFrameValue(v) :: !(Coded(v) <= s)
  }

  lemma FrameValueFits(v: Value)
    requires IsFrameValue(v)
    ensures Fits(v)
  {}

  ghost function Argument(v: Value): nat {
    match v
    case Bool(flag) => if flag then 21 else 20
    case Int(n) => if n >= 0 then n else -1 - n
    case Text(t) => |t|
    case Bytes(b) => |b|
    case List(s) => |s|
    case Dict(m) => |m|
  }

  ghost function Behind(v: Value): seq<Byte> {
    match v
    case Bool(_) => []
    case Int(_) => []
    case Text(t) => t
    case Bytes(b) => b
    case List(s) => ItemsCoded(v, |s|)
    case Dict(m) => EntriesCoded(v, Sorted(m.Keys))
  }

  lemma HeadAndBehind(v: Value)
    requires Fits(v)
    ensures Argument(v) <= ARGUMENT_CEILING && Coded(v) == HeadBytes(Major(v), Argument(v)) + Behind(v)
  {
    hide BigEndian, ItemsCoded, EntriesCoded, Sorted;
    match v
    case Bool(flag) => assert HeadBytes(SIMPLE, Argument(v)) == Coded(v) by { NoBytes(Argument(v)); }
    case Int(n) => assert HeadBytes(Major(v), Argument(v)) + [] == Coded(v);
    case Text(t) =>
    case Bytes(b) =>
    case List(s) =>
    case Dict(m) =>
  }

  lemma BehindStands(v: Value, s: seq<Byte>)
    requires Fits(v) && Coded(v) <= s
    ensures Argument(v) <= ARGUMENT_CEILING && HeadBytes(Major(v), Argument(v)) <= s
    ensures Behind(v) <= s[|HeadBytes(Major(v), Argument(v))|..]
  {
    hide HeadBytes, Coded, Behind, Argument, Fits;
    HeadAndBehind(v);
    PrefixFront(HeadBytes(Major(v), Argument(v)), Behind(v), s);
  }

  lemma NoHeadNoValue(s: seq<Byte>)
    requires NoHead(s)
    ensures NoValue(s)
  {
    hide HeadBytes, Coded, Argument, Fits, IsFrameValue;
    forall v | IsFrameValue(v) && Coded(v) <= s ensures false {
      FrameValueFits(v);
      BehindStands(v, s);
    }
  }

  // A value standing where this head stands has this head.
  lemma SameHead(v: Value, s: seq<Byte>, major: nat, argument: nat)
    requires Fits(v) && Coded(v) <= s
    requires major < 8 && argument <= ARGUMENT_CEILING && HeadBytes(major, argument) <= s
    ensures Major(v) == major && Argument(v) == argument
    ensures Behind(v) <= s[|HeadBytes(major, argument)|..]
  {
    hide HeadBytes, Coded, Argument, Behind, Fits;
    BehindStands(v, s);
    HeadsArePrefixFree(Major(v), Argument(v), major, argument, s);
  }

  lemma IntIsHead(v: Value, argument: nat)
    requires argument <= ARGUMENT_CEILING && (v == Int(argument) || v == Int(-1 - argument))
    ensures IsFrameValue(v) && Coded(v) == HeadBytes(Major(v), argument)
    ensures v == Int(argument) ==> Major(v) == UNSIGNED
    ensures v == Int(-1 - argument) ==> Major(v) == NEGATIVE
  {
    hide HeadBytes;
  }

  lemma StringCoded(v: Value)
    requires if v.Text? then |v.text| <= ARGUMENT_CEILING else v.Bytes? && |v.bytes| <= ARGUMENT_CEILING
    ensures IsFrameValue(v) && Coded(v) == HeadBytes(Major(v), Argument(v)) + Behind(v)
    ensures v.Text? ==> Major(v) == TEXT && Argument(v) == |v.text| && Behind(v) == v.text
    ensures v.Bytes? ==> Major(v) == BYTES && Argument(v) == |v.bytes| && Behind(v) == v.bytes
  {
    hide HeadBytes;
  }

  lemma ListCoded(v: Value)
    requires v.List? && |v.items| <= ARGUMENT_CEILING && AreUnsigned(v.items)
    ensures IsFrameValue(v) && Coded(v) == HeadBytes(ARRAY, |v.items|) + ItemsCoded(v, |v.items|)
  {
    hide HeadBytes, ItemsCoded;
  }

  lemma BoolCoded(flag: bool, argument: nat)
    requires Info(argument) == if flag then 21 else 20
    ensures IsFrameValue(Bool(flag)) && Coded(Bool(flag)) == HeadBytes(SIMPLE, argument)
  {
    NoBytes(argument);
  }

  lemma NoBytesThere(s: seq<Byte>, argument: nat)
    requires argument <= ARGUMENT_CEILING && HeadBytes(BYTES, argument) <= s
    requires |s[|HeadBytes(BYTES, argument)|..]| < argument
    ensures NoValue(s)
  {
    hide HeadBytes, Coded;
    forall v | IsFrameValue(v) && Coded(v) <= s ensures false {
      FrameValueFits(v);
      SameHead(v, s, BYTES, argument);
    }
  }

  lemma TextStands(v: Value, s: seq<Byte>)
    requires v.Text? && v.text <= s
    ensures IsUtf8(s[..|v.text|])
  {
    assert s[..|v.text|] == v.text;
  }

  lemma NoTextThere(s: seq<Byte>, argument: nat)
    requires argument <= ARGUMENT_CEILING && HeadBytes(TEXT, argument) <= s
    requires var rest := s[|HeadBytes(TEXT, argument)|..]; !(argument <= |rest| && IsUtf8(rest[..argument]))
    ensures NoValue(s)
  {
    hide HeadBytes, Coded, IsUtf8;
    var rest := s[|HeadBytes(TEXT, argument)|..];
    forall v | IsFrameValue(v) && Coded(v) <= s ensures false {
      FrameValueFits(v);
      SameHead(v, s, TEXT, argument);
      TextStands(v, rest);
    }
  }

  lemma NoListThere(s: seq<Byte>, argument: nat)
    requires argument <= ARGUMENT_CEILING && HeadBytes(ARRAY, argument) <= s
    requires forall v | IsList(v, argument) :: !(ItemsCoded(v, argument) <= s[|HeadBytes(ARRAY, argument)|..])
    ensures NoValue(s)
  {
    hide HeadBytes, Coded, ItemsCoded;
    forall v | IsFrameValue(v) && Coded(v) <= s ensures false {
      FrameValueFits(v);
      SameHead(v, s, ARRAY, argument);
    }
  }

  lemma NothingElse(s: seq<Byte>, major: nat, argument: nat)
    requires major < 8 && argument <= ARGUMENT_CEILING && HeadBytes(major, argument) <= s
    requires major > ARRAY && !(major == SIMPLE && (Info(argument) == 20 || Info(argument) == 21))
    ensures NoValue(s)
  {
    hide HeadBytes, Coded;
    forall v | IsFrameValue(v) && Coded(v) <= s ensures false {
      FrameValueFits(v);
      SameHead(v, s, major, argument);
    }
  }

  // ----- a frame

  ghost predicate NoFrame(s: seq<Byte>) {
    forall v | IsFrame(v) :: !(Coded(v) <= s)
  }

  lemma FrameFits(v: Value)
    requires IsFrame(v)
    ensures Fits(v) && v.Dict?
  {
    forall k | k in v.entries ensures Fits(v.entries[k]) {
      FrameValueFits(v.entries[k]);
    }
  }

  lemma NoHeadNoFrame(s: seq<Byte>)
    requires NoHead(s)
    ensures NoFrame(s)
  {
    hide HeadBytes, Coded, Argument, Fits, IsFrame;
    forall v | IsFrame(v) && Coded(v) <= s ensures false {
      FrameFits(v);
      BehindStands(v, s);
    }
  }

  lemma NotAMap(s: seq<Byte>, major: nat, count: nat)
    requires major < 8 && major != MAP && count <= ARGUMENT_CEILING && HeadBytes(major, count) <= s
    ensures NoFrame(s)
  {
    hide HeadBytes, Coded, Fits, IsFrame;
    forall v | IsFrame(v) && Coded(v) <= s ensures false {
      FrameFits(v);
      SameHead(v, s, major, count);
    }
  }

  lemma FrameThere(v: Value, s: seq<Byte>, count: nat)
    requires IsFrame(v) && Coded(v) <= s && count <= ARGUMENT_CEILING && HeadBytes(MAP, count) <= s
    ensures |v.entries| == count && EntriesCoded(v, Sorted(v.entries.Keys)) <= s[|HeadBytes(MAP, count)|..]
  {
    hide HeadBytes, Coded, Fits, IsFrame, EntriesCoded, Sorted;
    FrameFits(v);
    SameHead(v, s, MAP, count);
  }

  lemma TooFewBytes(s: seq<Byte>, count: nat)
    requires count <= ARGUMENT_CEILING && HeadBytes(MAP, count) <= s && |s[|HeadBytes(MAP, count)|..]| < count
    ensures NoFrame(s)
  {
    hide HeadBytes, Coded, IsFrame;
    forall v | IsFrame(v) && Coded(v) <= s ensures false {
      FrameThere(v, s, count);
    }
  }

  lemma NoEntriesThere(s: seq<Byte>, count: nat)
    requires count <= ARGUMENT_CEILING && HeadBytes(MAP, count) <= s
    requires forall f | IsFrame(f) && |f.entries| == count ::
      !(EntriesCoded(f, Sorted(f.entries.Keys)) <= s[|HeadBytes(MAP, count)|..])
    ensures NoFrame(s)
  {
    hide HeadBytes, Coded, IsFrame, EntriesCoded, Sorted;
    forall v | IsFrame(v) && Coded(v) <= s ensures false {
      FrameThere(v, s, count);
    }
  }

  // The dictionary read so far, its keys in the order they came.
  ghost predicate IsDictOf(v: Value, keys: seq<int>, last: int) {
    && HasKeys(v, keys) && Ascending(keys) && (forall k :: k in v.entries ==> k in keys)
    && last == (if |keys| == 0 then -1 else keys[|keys| - 1])
    && forall k :: k in v.entries ==> 0 <= k <= last <= ARGUMENT_CEILING && IsFrameValue(v.entries[k])
  }

  lemma EmptyDict()
    ensures IsDictOf(Dict(map[]), [], -1) && EntriesCoded(Dict(map[]), []) == []
  {}

  lemma OneMoreKey(v: Value, keys: seq<int>, last: int, key: nat, value: Value)
    requires IsDictOf(v, keys, last) && last < key <= ARGUMENT_CEILING && IsFrameValue(value)
    ensures var w := Dict(v.entries[key := value]);
      && IsDictOf(w, keys + [key], key)
      && EntriesCoded(w, keys + [key]) == EntriesCoded(v, keys) + (HeadBytes(UNSIGNED, key) + Coded(value))
  {
    hide HeadBytes, Coded, IsFrameValue;
    var w := Dict(v.entries[key := value]);
    assert key !in keys;
    assert SameEntries(v, w, keys);
    EntriesAgree(v, w, keys);
    assert (keys + [key])[..|keys|] == keys;
  }

  lemma DictDone(v: Value, keys: seq<int>, last: int)
    requires IsDictOf(v, keys, last) && |keys| <= ARGUMENT_CEILING
    ensures IsFrame(v) && |v.entries| == |keys|
    ensures Coded(v) == HeadBytes(MAP, |keys|) + EntriesCoded(v, keys)
  {
    hide HeadBytes, EntriesCoded, IsFrameValue, Sorted;
    SortedIsTheOnlyOne(v.entries.Keys, keys);
    assert |v.entries| == |v.entries.Keys|;
  }

  lemma {:induction false} EntriesBegin(v: Value, keys: seq<int>, i: nat, s: seq<Byte>)
    requires HasKeys(v, keys) && i <= |keys| && EntriesCoded(v, keys) <= s
    ensures HasKeys(v, keys[..i]) && EntriesCoded(v, keys[..i]) <= s
    decreases |keys|
  {
    hide EntryCoded;
    if i < |keys| {
      var n := |keys| - 1;
      PrefixFront(EntriesCoded(v, keys[..n]), EntryCoded(keys[n], Coded(v.entries[keys[n]])), s);
      EntriesBegin(v, keys[..n], i, s);
      assert keys[..n][..i] == keys[..i];
    } else {
      assert keys[..i] == keys;
    }
  }

  // A frame standing here begins with the entries already read, and has another after them.
  lemma NextEntry(f: Value, v: Value, keys: seq<int>, last: int, s: seq<Byte>) returns (key: int)
    requires IsFrame(f) && IsDictOf(v, keys, last) && |keys| < |f.entries|
    requires EntriesCoded(v, keys) <= s && EntriesCoded(f, Sorted(f.entries.Keys)) <= s
    ensures last < key <= ARGUMENT_CEILING && key >= 0 && key in f.entries && IsFrameValue(f.entries[key])
    ensures EntryCoded(key, Coded(f.entries[key])) <= s[|EntriesCoded(v, keys)|..]
  {
    hide Coded, EntriesCoded, EntryCoded, Sorted, IsFrameValue, Fits;
    var q, i := Sorted(f.entries.Keys), |keys|;
    key := q[i];
    FrameFits(f);
    DictFitsSoFar(v, keys, last);
    EntriesBegin(f, q, i, s);
    EntriesBegin(f, q, i + 1, s);
    EntriesArePrefixFree(v, f, keys, q[..i], s);
    EntriesAgree(v, f, keys);
    var a := LastEntry(f, q[..i + 1], s);
    assert q[..i + 1][..i] == q[..i];
    if i > 0 { assert keys[i - 1] == q[i - 1]; }
  }

  lemma DictFitsSoFar(v: Value, keys: seq<int>, last: int)
    requires IsDictOf(v, keys, last) && |keys| <= ARGUMENT_CEILING
    ensures Fits(v)
  {
    hide Sorted;
    SortedIsTheOnlyOne(v.entries.Keys, keys);
    assert |v.entries| == |v.entries.Keys|;
    forall k | k in v.entries ensures Fits(v.entries[k]) {
      FrameValueFits(v.entries[k]);
    }
  }

  lemma KeyMissing(f: Value, v: Value, keys: seq<int>, last: int, s: seq<Byte>, ok: bool, major: nat, key: nat)
    requires IsFrame(f) && IsDictOf(v, keys, last) && |keys| < |f.entries|
    requires EntriesCoded(v, keys) <= s
    requires !ok ==> NoHead(s[|EntriesCoded(v, keys)|..])
    requires ok ==> major < 8 && key <= ARGUMENT_CEILING && HeadBytes(major, key) <= s[|EntriesCoded(v, keys)|..]
    requires ok ==> major != UNSIGNED || key <= last
    ensures !(EntriesCoded(f, Sorted(f.entries.Keys)) <= s)
  {
    hide HeadBytes, Coded, EntriesCoded, Sorted, IsFrameValue;
    if EntriesCoded(f, Sorted(f.entries.Keys)) <= s {
      var next := NextEntry(f, v, keys, last, s);
      var rest := s[|EntriesCoded(v, keys)|..];
      PrefixFront(IntBytes(next), Coded(f.entries[next]), rest);
      assert HeadBytes(UNSIGNED, next) <= rest;
      if ok { HeadsArePrefixFree(UNSIGNED, next, major, key, rest); }
    }
  }

  lemma ValueMissing(f: Value, v: Value, keys: seq<int>, last: int, s: seq<Byte>, key: nat)
    requires IsFrame(f) && IsDictOf(v, keys, last) && |keys| < |f.entries| && key <= ARGUMENT_CEILING
    requires EntriesCoded(v, keys) <= s && HeadBytes(UNSIGNED, key) <= s[|EntriesCoded(v, keys)|..]
    requires NoValue(s[|EntriesCoded(v, keys)|..][|HeadBytes(UNSIGNED, key)|..])
    ensures !(EntriesCoded(f, Sorted(f.entries.Keys)) <= s)
  {
    hide HeadBytes, Coded, EntriesCoded, Sorted, IsFrameValue;
    if EntriesCoded(f, Sorted(f.entries.Keys)) <= s {
      var next := NextEntry(f, v, keys, last, s);
      var rest := s[|EntriesCoded(v, keys)|..];
      PrefixFront(IntBytes(next), Coded(f.entries[next]), rest);
      HeadsArePrefixFree(UNSIGNED, next, UNSIGNED, key, rest);
    }
  }

  // ----- encode and decode

  // The bytes RFC 8949 gives the value, and a refusal exactly when within 32 bits it gives none.
  method Encode(value: Value) returns (ok: bool, bytes: seq<Byte>)
    ensures ok <==> Fits(value)
    ensures ok ==> bytes == Coded(value) && Denotes(bytes, value)
    ensures !ok ==> forall s :: !Denotes(s, value)
  {
    hide *;
    var writer := new Writer();
    ok := writer.Put(value);
    bytes := writer.out;
    forall s ensures Denotes(s, value) <==> Fits(value) && s == Coded(value) {
      CodedIsTheFormat(s, value);
    }
  }

  // Accepts exactly the bytes of a frame, and gives the frame they are.
  method Decode(data: seq<Byte>) returns (ok: bool, frame: Value)
    ensures ok ==> IsFrame(frame) && Denotes(data, frame) && IsOfTheGrammar(frame)
    ensures !ok ==> forall f | IsOfTheGrammar(f) :: !Denotes(data, f)
  {
    hide *;
    ok, frame := DecodeCoded(data);
    if ok {
      FrameFits(frame);
      CodedIsTheFormat(data, frame);
      FramesAreTheGrammar(frame);
    } else {
      forall f | IsOfTheGrammar(f) ensures !Denotes(data, f) {
        CodedIsTheFormat(data, f);
        FramesAreTheGrammar(f);
      }
    }
  }

  method DecodeCoded(data: seq<Byte>) returns (ok: bool, frame: Value)
    ensures ok ==> IsFrame(frame) && Coded(frame) == data
    ensures !ok ==> forall f | IsFrame(f) :: Coded(f) != data
  {
    hide *;
    var reader := new Reader(data);
    ok, frame := reader.Frame();
    assert data[0..] == data;
    if !ok {
      NoFrameIsData(data);
    } else {
      ReadSlice(data, 0, reader.at, Coded(frame));
      if reader.at != |data| {
        forall f | IsFrame(f) ensures Coded(f) != data {
          OneFrame(f, frame, data);
        }
        ok := false;
      }
    }
  }

  lemma NoFrameIsData(data: seq<Byte>)
    requires NoFrame(data)
    ensures forall f | IsFrame(f) :: Coded(f) != data
  {
    hide IsFrame, Coded;
  }

  lemma OneFrame(f: Value, g: Value, data: seq<Byte>)
    requires IsFrame(f) && IsFrame(g) && Coded(g) <= data && |Coded(g)| < |data|
    ensures Coded(f) != data
  {
    hide IsFrame, Coded, Fits;
    FrameFits(f);
    FrameFits(g);
    if Coded(f) == data { PrefixFree(f, g, data); }
  }

  // decode(encode(value)): of all the values the printer takes, the frames and only they come
  // back, as they were.
  method DecodeEncoded(value: Value) returns (encoded: bool, ok: bool, back: Value)
    ensures encoded <==> Fits(value)
    ensures encoded ==> (ok <==> IsFrame(value))
    ensures encoded && ok ==> back == value
  {
    hide *;
    var bytes;
    encoded, bytes := Encode(value);
    ok, back := false, value;
    if encoded {
      ok, back := Decode(bytes);
      FramesAreTheGrammar(value);
      if ok { OneMeaning(bytes, back, value); }
    }
  }
}
