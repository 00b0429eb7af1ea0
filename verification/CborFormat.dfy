/**
 The bytes the two standards give a value, in their numbers and not the codec's: RFC 3629 for text,
 RFC 8949 (section 3 for heads, section 4.2.1 for the shortest and for the order of keys) for the
 rest.  The codec of Cbor writes these bytes and no others.
 */
module Utf8Text {
  import opened CborValues

  // Any code point but a surrogate.
  ghost predicate IsScalar(c: nat) {
    c < 0xD800 || 0xE000 <= c < 0x11_0000
  }

  // Section 3 of RFC 3629.
  ghost function Octets(c: nat): (s: seq<Byte>)
    requires IsScalar(c)
  {
    if c < 0x80 then [c]
    else if c < 0x800 then [0xC0 + c / 0x40, 0x80 + c % 0x40]
    else if c < 0x1_0000 then [0xE0 + c / 0x1000, 0x80 + c / 0x40 % 0x40, 0x80 + c % 0x40]
    else [0xF0 + c / 0x4_0000, 0x80 + c / 0x1000 % 0x40, 0x80 + c / 0x40 % 0x40, 0x80 + c % 0x40]
  }

  ghost predicate AreScalars(text: seq<nat>) {
    forall i :: 0 <= i < |text| ==> IsScalar(text[i])
  }

  ghost function Encoded(text: seq<nat>): seq<Byte>
    requires AreScalars(text)
  {
    if |text| == 0 then [] else Octets(text[0]) + Encoded(text[1..])
  }

  // The ranges of the octets behind the first, which the reader is held to.
  lemma Ranges(c: nat)
    requires IsScalar(c)
    ensures var s := Octets(c);
      && (|s| == 1 ==> s[0] < 0x80)
      && (|s| == 2 ==> 0xC2 <= s[0] <= 0xDF)
      && (|s| == 3 ==> 0xE0 <= s[0] <= 0xEF && (s[0] == 0xE0 ==> s[1] >= 0xA0) && (s[0] == 0xED ==> s[1] <= 0x9F))
      && (|s| == 4 ==> 0xF0 <= s[0] <= 0xF4 && (s[0] == 0xF0 ==> s[1] >= 0x90) && (s[0] == 0xF4 ==> s[1] <= 0x8F))
      && 1 <= |s| <= 4 && forall i :: 1 <= i < |s| ==> 0x80 <= s[i] <= 0xBF
  {}

  lemma OctetsStand(c: nat, rest: seq<Byte>)
    requires IsScalar(c)
    ensures IsUtf8(Octets(c) + rest) <==> IsUtf8(rest)
  {
    Ranges(c);
    hide Octets;
    var s, t := Octets(c) + rest, Octets(c);
    assert s[|t|..] == rest;
    assert forall i :: 0 <= i < |t| ==> s[i] == t[i];
  }

  lemma {:induction false} EncodedIsUtf8(text: seq<nat>)
    requires AreScalars(text)
    ensures IsUtf8(Encoded(text))
  {
    hide Octets, IsUtf8;
    if |text| == 0 {
      NothingIsUtf8();
    } else {
      EncodedIsUtf8(text[1..]);
      OctetsStand(text[0], Encoded(text[1..]));
    }
  }

  lemma NothingIsUtf8()
    ensures IsUtf8([])
  {}

  lemma Digits(a: nat, x: nat)
    requires x < 0x40
    ensures (0x40 * a + x) / 0x40 == a && (0x40 * a + x) % 0x40 == x
  {}

  lemma TwoOctets(a: nat, x: nat)
    requires 2 <= a < 0x20 && x < 0x40
    ensures IsScalar(0x40 * a + x) && Octets(0x40 * a + x) == [0xC0 + a, 0x80 + x]
  {
    Digits(a, x);
  }

  lemma ThreeOctets(a: nat, x: nat, y: nat)
    requires a < 0x10 && x < 0x40 && y < 0x40 && (a == 0 ==> x >= 0x20) && (a == 0xD ==> x < 0x20)
    ensures var c := 0x1000 * a + 0x40 * x + y; IsScalar(c) && Octets(c) == [0xE0 + a, 0x80 + x, 0x80 + y]
  {
    var c := 0x40 * (0x40 * a + x) + y;
    Digits(0x40 * a + x, y);
    Digits(a, x);
    assert c / 0x1000 == c / 0x40 / 0x40;
  }

  lemma FourOctets(a: nat, x: nat, y: nat, z: nat)
    requires a <= 4 && x < 0x40 && y < 0x40 && z < 0x40 && (a == 0 ==> x >= 0x10) && (a == 4 ==> x < 0x10)
    ensures var c := 0x4_0000 * a + 0x1000 * x + 0x40 * y + z;
      IsScalar(c) && Octets(c) == [0xF0 + a, 0x80 + x, 0x80 + y, 0x80 + z]
  {
    var c := 0x40 * (0x40 * (0x40 * a + x) + y) + z;
    Digits(0x40 * (0x40 * a + x) + y, z);
    Digits(0x40 * a + x, y);
    Digits(a, x);
    assert c / 0x1000 == c / 0x40 / 0x40 && c / 0x4_0000 == c / 0x1000 / 0x40;
  }

  // The code point text begins with.
  lemma FirstPoint(s: seq<Byte>) returns (c: nat)
    requires |s| > 0 && IsUtf8(s)
    ensures IsScalar(c) && Octets(c) <= s && IsUtf8(s[|Octets(c)|..])
  {
    var a: int := s[0];
    if a < 0x80 {
      return a;
    }
    hide Octets;
    var x: int := s[1] as int - 0x80;
    if a < 0xE0 {
      TwoOctets(a - 0xC0, x);
      return 0x40 * (a - 0xC0) + x;
    }
    var y: int := s[2] as int - 0x80;
    if a < 0xF0 {
      ThreeOctets(a - 0xE0, x, y);
      return 0x1000 * (a - 0xE0) + 0x40 * x + y;
    }
    var z: int := s[3] as int - 0x80;
    FourOctets(a - 0xF0, x, y, z);
    c := 0x4_0000 * (a - 0xF0) + 0x1000 * x + 0x40 * y + z;
  }

  // The byte ranges the reader holds text to are exactly the encodings of code points.
  lemma {:induction false} Utf8IsEncodedPoints(s: seq<Byte>)
    ensures IsUtf8(s) <==> exists text: seq<nat> :: AreScalars(text) && Encoded(text) == s
    decreases |s|
  {
    hide Octets;
    forall text: seq<nat> | AreScalars(text) && Encoded(text) == s ensures IsUtf8(s) {
      EncodedIsUtf8(text);
    }
    if IsUtf8(s) {
      if |s| == 0 {
        assert AreScalars([]) && Encoded([]) == s;
      } else {
        var c := FirstPoint(s);
        var rest := s[|Octets(c)|..];
        assert |Octets(c)| > 0 by { Ranges(c); }
        Utf8IsEncodedPoints(rest);
        var text: seq<nat> :| AreScalars(text) && Encoded(text) == rest;
        assert ([c] + text)[1..] == text && Octets(c) + rest == s;
        assert AreScalars([c] + text) && Encoded([c] + text) == s;
      }
    }
  }
}

module CborFormat {
  import opened SortedKeys
  import opened CborValues

  ghost function Weight(places: nat): nat {
    if places == 0 then 1 else 0x100 * Weight(places - 1)
  }

  // The number these bytes write: each times 256 to the number of bytes after it.
  ghost function NetworkOrder(s: seq<Byte>): nat {
    if |s| == 0 then 0 else s[0] as nat * Weight(|s| - 1) + NetworkOrder(s[1..])
  }

  // A head: the kind in the high bits of the initial byte; the argument in its low five, or after it
  // in one, two or four bytes, the most significant first.
  ghost predicate IsHead(h: seq<Byte>, initial: nat, n: nat) {
    match |h|
    case 1 => n < 0x18 && h[0] == initial + n
    case 2 => h[0] == initial + 0x18 && n == NetworkOrder(h[1..])
    case 3 => h[0] == initial + 0x19 && n == NetworkOrder(h[1..])
    case 5 => h[0] == initial + 0x1A && n == NetworkOrder(h[1..])
    case _ => false
  }

  ghost predicate IsShortest(h: seq<Byte>, initial: nat, n: nat) {
    IsHead(h, initial, n) && forall g | IsHead(g, initial, n) :: |h| <= |g|
  }

  ghost function Joined(parts: seq<seq<Byte>>): seq<Byte> {
    if |parts| == 0 then [] else Joined(parts[..|parts| - 1]) + parts[|parts| - 1]
  }

  // These bytes are this value, in the one form the link allows.
  ghost predicate Denotes(s: seq<Byte>, v: Value)
    decreases v, 1
  {
    match v
    case Bool(flag) => s == [if flag then 0xF5 else 0xF4]
    case Int(n) => IsNumber(s, n)
    case Bytes(b) => exists h :: IsShortest(h, 0x40, |b|) && s == h + b
    case Text(t) => exists h :: IsShortest(h, 0x60, |t|) && s == h + t
    case List(items) => exists h, parts :: IsShortest(h, 0x80, |items|) && AreItems(parts, v) && s == h + Joined(parts)
    case Dict(m) => exists h, keys, parts ::
      && IsShortest(h, 0xA0, |m|) && Ascending(keys) && (forall k :: k in keys <==> k in m)
      && AreEntries(parts, keys, v) && s == h + Joined(parts)
  }

  ghost predicate IsNumber(s: seq<Byte>, n: int) {
    if n >= 0 then IsShortest(s, 0x00, n) else IsShortest(s, 0x20, -1 - n)
  }

  ghost predicate AreItems(parts: seq<seq<Byte>>, v: Value)
    requires v.List?
    decreases v, 0
  {
    |parts| == |v.items| && forall i :: 0 <= i < |parts| ==> Denotes(parts[i], v.items[i])
  }

  ghost predicate AreEntries(parts: seq<seq<Byte>>, keys: seq<int>, v: Value)
    requires v.Dict?
    decreases v, 0
  {
    && |parts| == |keys|
    && forall i :: 0 <= i < |parts| && keys[i] in v.entries ==> IsEntry(parts[i], keys[i], v.entries[keys[i]])
  }

  // A key and what it stands for.
  ghost predicate IsEntry(s: seq<Byte>, key: int, value: Value)
    decreases value, 2
  {
    exists k, x :: IsNumber(k, key) && Denotes(x, value) && s == k + x
  }

  // ----- heads

  lemma {:induction false} ValueIsNumber(s: seq<Byte>)
    ensures NetworkOrder(s) == Number(s) && Weight(|s|) == Ceiling(|s|)
  {
    if |s| > 0 {
      var n := |s| - 1;
      ValueIsNumber(s[1..]);
      ValueIsNumber(s[..n]);
      if n > 0 {
        assert s[1..][..n - 1] == s[1..n] == s[..n][1..];
        ValueIsNumber(s[1..n]);
        Scaled(s[0], Weight(n - 1));
      }
    }
  }

  lemma Scaled(x: nat, w: nat)
    ensures x * (0x100 * w) == (x * w) * 0x100
  {}

  // Of any length an argument has one head only, and none shorter than the printer's.
  lemma HeadIsBytes(h: seq<Byte>, major: nat, n: nat)
    requires major < 8 && IsHead(h, 32 * major, n)
    ensures n <= ARGUMENT_CEILING && |h| >= |HeadBytes(major, n)|
    ensures |h| == |HeadBytes(major, n)| ==> h == HeadBytes(major, n)
  {
    Ceilings();
    ValueIsNumber(h[1..]);
    BigEndianReturns(h[1..]);
    assert h == [h[0]] + h[1..];
    hide Number, BigEndian, NetworkOrder;
  }

  lemma BytesAreHead(major: nat, n: nat)
    requires major < 8 && n <= ARGUMENT_CEILING
    ensures IsHead(HeadBytes(major, n), 32 * major, n)
  {
    Ceilings();
    var h := HeadBytes(major, n);
    ValueIsNumber(h[1..]);
    HeadReturns(major, n);
    hide Number, BigEndian, NetworkOrder;
  }

  lemma ShortestIsBytes(h: seq<Byte>, major: nat, n: nat)
    requires major < 8
    ensures IsShortest(h, 32 * major, n) <==> n <= ARGUMENT_CEILING && h == HeadBytes(major, n)
  {
    hide IsHead, HeadBytes;
    if n <= ARGUMENT_CEILING { BytesAreHead(major, n); }
    forall g | IsHead(g, 32 * major, n)
      ensures n <= ARGUMENT_CEILING && |g| >= |HeadBytes(major, n)|
      ensures |g| == |HeadBytes(major, n)| ==> g == HeadBytes(major, n)
    {
      HeadIsBytes(g, major, n);
    }
  }

  lemma NumberIsBytes(s: seq<Byte>, n: int)
    ensures IsNumber(s, n) <==> IntFits(n) && s == IntBytes(n)
  {
    hide HeadBytes, IsShortest;
    if n >= 0 { ShortestIsBytes(s, UNSIGNED, n); } else { ShortestIsBytes(s, NEGATIVE, -1 - n); }
  }

  // ----- values

  lemma StringIsBytes(s: seq<Byte>, major: nat, text: seq<Byte>)
    requires major < 8
    ensures (exists h :: IsShortest(h, 32 * major, |text|) && s == h + text)
      <==> |text| <= ARGUMENT_CEILING && s == HeadBytes(major, |text|) + text
  {
    hide IsShortest, HeadBytes;
    forall h ensures IsShortest(h, 32 * major, |text|) <==> |text| <= ARGUMENT_CEILING && h == HeadBytes(major, |text|) {
      ShortestIsBytes(h, major, |text|);
    }
  }

  // The printer writes a value's bytes by the standard, and for what does not fit there are none.
  lemma {:induction false} CodedIsTheFormat(s: seq<Byte>, v: Value)
    ensures Denotes(s, v) <==> Fits(v) && s == Coded(v)
    decreases v, 1
  {
    hide IsShortest, HeadBytes, AreItems, AreEntries, ItemsCoded, EntriesCoded, IsNumber, IntBytes, Sorted, Ascending;
    match v
    case Bool(_) =>
    case Int(n) => NumberIsBytes(s, n);
    case Bytes(b) => StringIsBytes(s, BYTES, b);
    case Text(t) => StringIsBytes(s, TEXT, t);
    case List(_) => ListIsTheFormat(s, v);
    case Dict(_) => DictIsTheFormat(s, v);
  }

  lemma ListIsTheFormat(s: seq<Byte>, v: Value)
    requires v.List?
    ensures Denotes(s, v) <==> Fits(v) && s == Coded(v)
    decreases v, 0, 1
  {
    hide IsShortest, HeadBytes, AreItems, ItemsCoded, Joined;
    var n := |v.items|;
    forall h ensures IsShortest(h, 0x80, n) <==> n <= ARGUMENT_CEILING && h == HeadBytes(ARRAY, n) {
      ShortestIsBytes(h, ARRAY, n);
    }
    forall parts | AreItems(parts, v)
      ensures Joined(parts) == ItemsCoded(v, n) && forall x :: x in v.items ==> Fits(x)
    {
      ItemsAreJoined(v, parts);
    }
    if Fits(v) {
      var parts := PartsOf(v);
      ItemsAreJoined(v, parts);
      assert Coded(v) == HeadBytes(ARRAY, n) + Joined(parts);
      assert IsShortest(HeadBytes(ARRAY, n), 0x80, n);
    }
  }

  lemma PartsOf(v: Value) returns (parts: seq<seq<Byte>>)
    requires v.List? && Fits(v)
    ensures AreItems(parts, v)
    decreases v, 0, 0
  {
    hide Denotes, Coded;
    parts := seq(|v.items|, i requires 0 <= i < |v.items| => Coded(v.items[i]));
    forall i | 0 <= i < |parts| ensures Denotes(parts[i], v.items[i]) {
      CodedIsTheFormat(parts[i], v.items[i]);
    }
  }

  lemma ItemsAreJoined(v: Value, parts: seq<seq<Byte>>)
    requires v.List? && AreItems(parts, v)
    ensures Joined(parts) == ItemsCoded(v, |v.items|) && forall x :: x in v.items ==> Fits(x)
    decreases v, 0, 0
  {
    hide Denotes, Coded, Joined, ItemsCoded;
    forall i | 0 <= i < |parts| ensures Fits(v.items[i]) && parts[i] == Coded(v.items[i]) {
      CodedIsTheFormat(parts[i], v.items[i]);
    }
    JoinedItems(v, parts, |parts|);
    assert parts[..|parts|] == parts;
  }

  lemma {:induction false} JoinedItems(v: Value, parts: seq<seq<Byte>>, n: nat)
    requires v.List? && n <= |parts| == |v.items| && forall i :: 0 <= i < |parts| ==> parts[i] == Coded(v.items[i])
    ensures Joined(parts[..n]) == ItemsCoded(v, n)
    decreases n
  {
    hide Coded;
    if n > 0 {
      JoinedItems(v, parts, n - 1);
      assert parts[..n][..n - 1] == parts[..n - 1];
    }
  }

  lemma DictIsTheFormat(s: seq<Byte>, v: Value)
    requires v.Dict?
    ensures Denotes(s, v) <==> Fits(v) && s == Coded(v)
    decreases v, 0, 1
  {
    hide IsShortest, HeadBytes, AreEntries, EntriesCoded, Joined, Sorted, Ascending;
    var n, sorted := |v.entries|, Sorted(v.entries.Keys);
    forall h ensures IsShortest(h, 0xA0, n) <==> n <= ARGUMENT_CEILING && h == HeadBytes(MAP, n) {
      ShortestIsBytes(h, MAP, n);
    }
    forall keys: seq<int>, parts | Ascending(keys) && (forall k :: k in keys <==> k in v.entries) && AreEntries(parts, keys, v)
      ensures keys == sorted && Joined(parts) == EntriesCoded(v, sorted)
      ensures forall k :: k in v.entries ==> IntFits(k) && Fits(v.entries[k])
    {
      SortedIsTheOnlyOne(v.entries.Keys, keys);
      EntriesAreJoined(v, keys, parts);
    }
    if Fits(v) {
      var parts := EntryPartsOf(v, sorted);
      EntriesAreJoined(v, sorted, parts);
    }
  }

  lemma EntryIsBytes(s: seq<Byte>, key: int, value: Value)
    ensures IsEntry(s, key, value) <==> IntFits(key) && Fits(value) && s == EntryCoded(key, Coded(value))
    decreases value, 2
  {
    hide Denotes, Coded, IsNumber, IntBytes, Fits;
    if IsEntry(s, key, value) {
      var k, x :| IsNumber(k, key) && Denotes(x, value) && s == k + x;
      NumberIsBytes(k, key);
      CodedIsTheFormat(x, value);
    } else if IntFits(key) && Fits(value) {
      NumberIsBytes(IntBytes(key), key);
      CodedIsTheFormat(Coded(value), value);
    }
  }

  lemma EntryPartsOf(v: Value, keys: seq<int>) returns (parts: seq<seq<Byte>>)
    requires HasKeys(v, keys) && Fits(v)
    ensures AreEntries(parts, keys, v)
    decreases v, 0, 0
  {
    hide IsEntry, Coded, EntryCoded;
    parts := seq(|keys|, i requires 0 <= i < |keys| => EntryCoded(keys[i], Coded(v.entries[keys[i]])));
    forall i | 0 <= i < |parts| ensures IsEntry(parts[i], keys[i], v.entries[keys[i]]) {
      EntryIsBytes(parts[i], keys[i], v.entries[keys[i]]);
    }
  }

  lemma EntriesAreJoined(v: Value, keys: seq<int>, parts: seq<seq<Byte>>)
    requires HasKeys(v, keys) && AreEntries(parts, keys, v)
    ensures Joined(parts) == EntriesCoded(v, keys)
    ensures forall k :: k in keys ==> IntFits(k) && Fits(v.entries[k])
    decreases v, 0, 0
  {
    hide IsEntry, Coded, Joined, EntriesCoded, EntryCoded;
    forall i | 0 <= i < |parts|
      ensures IntFits(keys[i]) && Fits(v.entries[keys[i]])
      ensures parts[i] == EntryCoded(keys[i], Coded(v.entries[keys[i]]))
    {
      EntryIsBytes(parts[i], keys[i], v.entries[keys[i]]);
    }
    JoinedEntries(v, keys, parts, |parts|);
    assert parts[..|parts|] == parts && keys[..|keys|] == keys;
  }

  lemma {:induction false} JoinedEntries(v: Value, keys: seq<int>, parts: seq<seq<Byte>>, n: nat)
    requires HasKeys(v, keys) && n <= |parts| == |keys|
    requires forall i :: 0 <= i < |parts| ==> parts[i] == EntryCoded(keys[i], Coded(v.entries[keys[i]]))
    ensures Joined(parts[..n]) == EntriesCoded(v, keys[..n])
    decreases n
  {
    hide Coded, EntryCoded;
    if n > 0 {
      JoinedEntries(v, keys, parts, n - 1);
      assert parts[..n][..n - 1] == parts[..n - 1] && keys[..n][..n - 1] == keys[..n - 1];
    }
  }

  // No bytes are two values.
  lemma OneMeaning(s: seq<Byte>, v: Value, w: Value)
    requires Denotes(s, v) && Denotes(s, w)
    ensures v == w
  {
    hide Denotes, Coded, Fits;
    CodedIsTheFormat(s, v);
    CodedIsTheFormat(s, w);
    CodedIsOneToOne(v, w);
  }

  // The link's grammar: a map of unsigned keys, and nothing nested but arrays of unsigned integers.
  ghost predicate IsOfTheGrammar(v: Value) {
    v.Dict? && forall k :: k in v.entries ==> k >= 0 && IsFlat(v.entries[k])
  }

  ghost predicate IsFlat(v: Value) {
    match v
    case Dict(_) => false
    case List(items) => forall i :: 0 <= i < |items| ==> items[i].Int? && items[i].number >= 0
    case _ => true
  }

  lemma FlatValues(v: Value)
    ensures IsFrameValue(v) <==> IsFlat(v) && Fits(v)
  {
    match v
    case List(items) => FlatLists(v);
    case _ =>
  }

  lemma FlatLists(v: Value)
    requires v.List?
    ensures IsFrameValue(v) <==> IsFlat(v) && Fits(v)
  {
    var items := v.items;
    forall i: nat | i < |items| ensures IsUnsigned(items[i]) <==> items[i].Int? && items[i].number >= 0 && Fits(items[i]) {}
    if IsFrameValue(v) {
      forall x | x in items ensures Fits(x) { assert IsUnsigned(x); }
    }
    if IsFlat(v) && Fits(v) {
      forall x | x in items ensures IsUnsigned(x) {
        var i: nat :| i < |items| && items[i] == x;
        ItemFits(v, i);
      }
      assert IsFrameValue(v);
    }
  }

  // A frame is any value of the grammar that has bytes, all its arguments within 32 bits.
  lemma FramesAreTheGrammar(v: Value)
    ensures IsFrame(v) <==> IsOfTheGrammar(v) && exists s :: Denotes(s, v)
  {
    hide Denotes, Coded, IsFrameValue, IsFlat;
    forall s ensures Denotes(s, v) <==> Fits(v) && s == Coded(v) {
      CodedIsTheFormat(s, v);
    }
    if Fits(v) { assert Denotes(Coded(v), v); }
    if v.Dict? {
      forall k | k in v.entries ensures IsFrameValue(v.entries[k]) <==> IsFlat(v.entries[k]) && Fits(v.entries[k]) {
        FlatValues(v.entries[k]);
      }
    }
  }
}
