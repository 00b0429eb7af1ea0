/**
 firmware/core/protocol/adsl_uplink: up to 13 traffic records behind a three-byte header,
 scrambled in whole words, then Reed-Solomon coded.
 */
module UplinkRecords {
  import opened Remainders
  import opened GaloisField

  const VERSION: int := 1
  const RECORD_BYTES: nat := 16
  const HEADER_BYTES: nat := 3
  const MAX_TARGETS: nat := 13

  newtype Int16 = x: int | -0x8000 <= x < 0x8000
  newtype Int32 = x: int | -0x8000_0000 <= x < 0x8000_0000
  newtype UInt8 = x: int | 0 <= x < 0x100
  newtype UInt16 = x: int | 0 <= x < 0x1_0000
  newtype UInt32 = x: int | 0 <= x < 0x1_0000_0000

  datatype Source = AdslDirect | AdslUplink | Alptas | Own

  // The fields of model::AircraftObservation that the uplink carries or sets.
  datatype Observation = Observation(
    address: UInt32, addressMappingTable: UInt8, aircraftCategory: UInt8, flightState: UInt8,
    emergency: UInt8, latitude: Int32, longitude: Int32, altitude: Int32, speed: UInt16,
    source: Source, speedValid: bool, positionValid: bool, altitudeValid: bool)

  // ----- bytes and numbers

  function ToByte(n: int): bv8 {
    SmallByte(n % 0x100)
  }

  function SmallByte(n: int): bv8
    requires 0 <= n < 0x100
  {
    n as bv8
  }

  function FromByte(b: bv8): (n: int)
    ensures 0 <= n < 0x100
  {
    b as int
  }

  lemma ByteRoundTrip(n: int)
    ensures FromByte(ToByte(n)) == n % 0x100
  {
    SmallByteReturns(n % 0x100);
  }

  lemma {:induction false} SmallByteReturns(n: int)
    requires 0 <= n < 0x100
    ensures FromByte(SmallByte(n)) == n
  {
    hide SmallByte, FromByte;
    if n == 0 {
      ByteZero();
    } else {
      var b := SmallByte(n - 1);
      SmallByteReturns(n - 1);
      ByteNext(b);
      SmallByteOf(b + 1);
    }
  }

  lemma SmallByteOf(b: bv8)
    ensures SmallByte(FromByte(b)) == b
  {}

  lemma ByteZero()
    ensures FromByte(SmallByte(0)) == 0
  {}

  lemma ByteNext(b: bv8)
    requires FromByte(b) < 0xFF
    ensures FromByte(b + 1) == FromByte(b) + 1
  {}

  function PutUInt16(n: nat): seq<bv8> {
    [ToByte(n), ToByte(n / 0x100)]
  }

  function PutUInt24(n: nat): seq<bv8> {
    [ToByte(n), ToByte(n / 0x100), ToByte(n / 0x1_0000)]
  }

  function PutUInt32(n: nat): seq<bv8> {
    [ToByte(n), ToByte(n / 0x100), ToByte(n / 0x1_0000), ToByte(n / 0x100_0000)]
  }

  function GetUInt16(s: seq<bv8>): (n: nat)
    requires |s| == 2
    ensures n < 0x1_0000
  {
    FromByte(s[0]) + 0x100 * FromByte(s[1])
  }

  function GetUInt24(s: seq<bv8>): (n: nat)
    requires |s| == 3
    ensures n < 0x100_0000
  {
    FromByte(s[0]) + 0x100 * FromByte(s[1]) + 0x1_0000 * FromByte(s[2])
  }

  function GetUInt32(s: seq<bv8>): (n: nat)
    requires |s| == 4
    ensures n < 0x1_0000_0000
  {
    FromByte(s[0]) + 0x100 * FromByte(s[1]) + 0x1_0000 * FromByte(s[2]) + 0x100_0000 * FromByte(s[3])
  }

  lemma TwoDigits(n: nat)
    ensures n % 0x1_0000 == n % 0x100 + 0x100 * (n / 0x100 % 0x100)
  {
    NextDigit(n, 0x100);
  }

  lemma ThreeDigits(n: nat)
    ensures n % 0x100_0000 == n % 0x1_0000 + 0x1_0000 * (n / 0x1_0000 % 0x100)
  {
    NextDigit(n, 0x1_0000);
  }

  lemma FourDigits(n: nat)
    ensures n % 0x1_0000_0000 == n % 0x100_0000 + 0x100_0000 * (n / 0x100_0000 % 0x100)
  {
    NextDigit(n, 0x100_0000);
  }

  lemma NextDigit(n: nat, unit: nat)
    requires unit > 0
    ensures n % (unit * 0x100) == n % unit + unit * (n / unit % 0x100)
  {
    var q, r := n / unit, n % unit;
    var p, d := q / 0x100, q % 0x100;
    assert n == q * unit + r && q == p * 0x100 + d;
    assert q * unit == p * (unit * 0x100) + d * unit;
    Larger(d, 0xFF, unit);
    Remainder(p, unit * 0x100, d * unit + r);
  }

  lemma LittleEndianRoundTrips(n: nat)
    ensures GetUInt16(PutUInt16(n)) == n % 0x1_0000
    ensures GetUInt24(PutUInt24(n)) == n % 0x100_0000
    ensures GetUInt32(PutUInt32(n)) == n % 0x1_0000_0000
  {
    hide ToByte, FromByte;
    ByteRoundTrip(n);
    ByteRoundTrip(n / 0x100);
    ByteRoundTrip(n / 0x1_0000);
    ByteRoundTrip(n / 0x100_0000);
    TwoDigits(n);
    ThreeDigits(n);
    FourDigits(n);
  }

  // Two's complement: the number of the given width that the bits stand for, and back.
  function Signed(n: nat, width: int): (x: int)
    requires n < width
    ensures -width <= 2 * x < width
  {
    if 2 * n < width then n else n - width
  }

  function Unsigned(x: int, width: int): (n: nat)
    requires 0 < width && -width <= x < width
    ensures n < width
  {
    if x < 0 then x + width else x
  }

  // ----- records

  function Pack(t: Observation): (record: seq<bv8>)
    ensures |record| == RECORD_BYTES
  {
    PutUInt24(t.address as int % 0x100_0000)
    + [ToByte(t.addressMappingTable as int % 0x40 + 0x40 * (t.flightState as int % 4)),
       ToByte(t.aircraftCategory as int),
       ToByte(if t.speed > 255 then 255 else t.speed as int)]
    + PutUInt32(Unsigned(t.latitude as int, 0x1_0000_0000))
    + PutUInt32(Unsigned(t.longitude as int, 0x1_0000_0000))
    + PutUInt16(t.altitude as int % 0x1_0000)
  }

  function Unpack(record: seq<bv8>): Observation
    requires |record| == RECORD_BYTES
  {
    var packed := FromByte(record[3]);
    Observation(
      GetUInt24(record[0..3]) as UInt32, (packed % 0x40) as UInt8, FromByte(record[4]) as UInt8,
      (packed / 0x40) as UInt8, 1,
      Signed(GetUInt32(record[6..10]), 0x1_0000_0000) as Int32,
      Signed(GetUInt32(record[10..14]), 0x1_0000_0000) as Int32,
      Signed(GetUInt16(record[14..16]), 0x1_0000) as Int32,
      FromByte(record[5]) as UInt16, AdslUplink, FromByte(record[5]) != 0, true, true)
  }

  // What a receiver can learn of a target: the address, table and state cut to their widths, the
  // speed saturated, the altitude to 16 bits; the rest as it was sent.
  function Carried(t: Observation): Observation {
    Observation(
      (t.address as int % 0x100_0000) as UInt32, t.addressMappingTable % 0x40, t.aircraftCategory,
      t.flightState % 4, 1, t.latitude, t.longitude,
      Signed(t.altitude as int % 0x1_0000, 0x1_0000) as Int32,
      if t.speed > 255 then 255 else t.speed, AdslUplink, t.speed != 0, true, true)
  }

  lemma PackLayout(t: Observation)
    ensures var r := Pack(t);
      && r[0..3] == PutUInt24(t.address as int % 0x100_0000)
      && r[3] == ToByte(t.addressMappingTable as int % 0x40 + 0x40 * (t.flightState as int % 4))
      && r[4] == ToByte(t.aircraftCategory as int)
      && r[5] == ToByte(if t.speed > 255 then 255 else t.speed as int)
      && r[6..10] == PutUInt32(Unsigned(t.latitude as int, 0x1_0000_0000))
      && r[10..14] == PutUInt32(Unsigned(t.longitude as int, 0x1_0000_0000))
      && r[14..16] == PutUInt16(t.altitude as int % 0x1_0000)
  {
    hide ToByte, PutUInt16, PutUInt24, PutUInt32, Unsigned;
    PutLengths();
  }

  lemma WordField(x: Int32)
    ensures Signed(GetUInt32(PutUInt32(Unsigned(x as int, 0x1_0000_0000))), 0x1_0000_0000) == x as int
  {
    hide GetUInt32, PutUInt32, GetUInt16, GetUInt24;
    LittleEndianRoundTrips(Unsigned(x as int, 0x1_0000_0000));
  }

  lemma SmallFields(n: nat)
    ensures n < 0x100_0000 ==> GetUInt24(PutUInt24(n)) == n
    ensures n < 0x1_0000 ==> GetUInt16(PutUInt16(n)) == n
    ensures n < 0x100 ==> FromByte(ToByte(n)) == n
  {
    hide GetUInt16, PutUInt16, GetUInt24, PutUInt24, GetUInt32, FromByte, ToByte;
    LittleEndianRoundTrips(n);
    ByteRoundTrip(n);
  }

  lemma UnpackPack(t: Observation)
    ensures Unpack(Pack(t)) == Carried(t)
  {
    hide ToByte, FromByte, PutUInt16, PutUInt24, PutUInt32, GetUInt16, GetUInt24, GetUInt32, Pack, Signed, Unsigned;
    PackLayout(t);
    SmallFields(t.addressMappingTable as int % 0x40 + 0x40 * (t.flightState as int % 4));
    SmallFields(t.aircraftCategory as int);
    SmallFields(if t.speed > 255 then 255 else t.speed as int);
    SmallFields(t.address as int % 0x100_0000);
    SmallFields(t.altitude as int % 0x1_0000);
    WordField(t.latitude);
    WordField(t.longitude);
  }

  lemma PutLengths()
    ensures forall n: nat :: |PutUInt16(n)| == 2
    ensures forall n: nat :: |PutUInt24(n)| == 3
    ensures forall n: nat :: |PutUInt32(n)| == 4
  {}

  predicate Plausible(t: Observation) {
    && t.address != 0
    && -900000000 <= t.latitude <= 900000000
    && -1800000000 <= t.longitude <= 1800000000
  }
}

module Uplink {
  import opened GaloisField
  import opened ShiftRegister
  import opened ReedSolomonCode
  import opened ReedSolomonGenerator
  import opened ReedSolomon
  import opened Scramble
  import opened UplinkFormat
  import opened UplinkRecords
  import opened WordBytes
  import opened Xxtea

  const WORDS: nat := 55
  const LOOPS: bv8 := 6

  function ToWords(data: seq<bv8>): (words: seq<bv32>)
    requires |data| == DATA
    ensures |words| == WORDS
  {
    seq(WORDS, i requires 0 <= i < WORDS =>
      Word(data[4 * i], data[4 * i + 1], data[4 * i + 2], data[4 * i + 3]))
  }

  // The words written over the first 220 bytes; the last three bytes are in no word.
  function Overwritten(data: seq<bv8>, words: seq<bv32>): (out: seq<bv8>)
    requires |data| == DATA && |words| == WORDS
    ensures |out| == DATA
  {
    seq(DATA, i requires 0 <= i < DATA => if i < 4 * WORDS then ByteOf(words[i / 4], i % 4) else data[i])
  }

  ghost function Whitened(data: seq<bv8>): (out: seq<bv8>)
    requires |data| == DATA
    ensures |out| == DATA
  {
    Overwritten(data, Scrambled(ToWords(data), LOOPS as int))
  }

  ghost function Unwhitened(data: seq<bv8>): (out: seq<bv8>)
    requires |data| == DATA
    ensures |out| == DATA
  {
    Overwritten(data, Descrambled(ToWords(data), LOOPS as int))
  }

  lemma WordsOverwritten(data: seq<bv8>, words: seq<bv32>)
    requires |data| == DATA && |words| == WORDS
    ensures ToWords(Overwritten(data, words)) == words
  {
    hide Word, ByteOf;
    var out := Overwritten(data, words);
    forall i | 0 <= i < WORDS ensures ToWords(out)[i] == words[i] {
      FourPlaces(i);
      WordOfBytes(words[i]);
    }
  }

  lemma OverwrittenWords(data: seq<bv8>, other: seq<bv8>)
    requires |data| == |other| == DATA && data[4 * WORDS..] == other[4 * WORDS..]
    ensures Overwritten(other, ToWords(data)) == data
  {
    hide Word, ByteOf;
    var out := Overwritten(other, ToWords(data));
    forall i | 0 <= i < DATA ensures out[i] == data[i] {
      if i < 4 * WORDS {
        var w := i / 4;
        assert i == 4 * w + i % 4;
        BytesOfWord(data[4 * w], data[4 * w + 1], data[4 * w + 2], data[4 * w + 3]);
      } else {
        assert data[i] == data[4 * WORDS..][i - 4 * WORDS];
        assert other[i] == other[4 * WORDS..][i - 4 * WORDS];
      }
    }
  }

  lemma UnwhiteningUndoes(data: seq<bv8>)
    requires |data| == DATA
    ensures Unwhitened(Whitened(data)) == data
  {
    hide Overwritten, ToWords, Scrambled, Descrambled;
    var words := Scrambled(ToWords(data), LOOPS as int);
    var white := Whitened(data);
    WordsOverwritten(data, words);
    DescramblingInverts(ToWords(data), LOOPS as int);
    TailKept(data, words);
    OverwrittenWords(data, white);
  }

  lemma TailKept(data: seq<bv8>, words: seq<bv32>)
    requires |data| == DATA && |words| == WORDS
    ensures Overwritten(data, words)[4 * WORDS..] == data[4 * WORDS..]
  {}

  // ----- the frame

  function Header(count: nat, keyIndex: UInt8): (h: seq<bv8>)
    ensures |h| == HEADER_BYTES
  {
    [ToByte(VERSION), ToByte(count), ToByte(keyIndex as int)]
  }

  function Records(targets: seq<Observation>): (r: seq<bv8>)
    ensures |r| == RECORD_BYTES * |targets|
  {
    if |targets| == 0 then [] else Records(targets[..|targets| - 1]) + Pack(targets[|targets| - 1])
  }

  function Plain(targets: seq<Observation>, keyIndex: UInt8): (data: seq<bv8>)
    requires |targets| <= MAX_TARGETS
    ensures |data| == DATA
  {
    var used := Header(|targets|, keyIndex) + Records(targets);
    used + seq(DATA - |used|, _ => 0)
  }

  ghost function FrameOf(targets: seq<Observation>, keyIndex: UInt8): (frame: seq<bv8>)
    requires |targets| <= MAX_TARGETS
    ensures |frame| == CODEWORD
  {
    var white := Whitened(Plain(targets, keyIndex));
    white + ParityOf(white)
  }

  function RecordAt(data: seq<bv8>, i: nat): (record: seq<bv8>)
    requires |data| == DATA && i < MAX_TARGETS
    ensures |record| == RECORD_BYTES
  {
    data[HEADER_BYTES + RECORD_BYTES * i..HEADER_BYTES + RECORD_BYTES * (i + 1)]
  }

  // ----- the frame in numbers

  // The data of a frame before it is whitened: a version, the count and the key's index, a byte each,
  // sixteen bytes a target, and zeros.
  ghost predicate IsData(d: seq<bv8>, targets: seq<Observation>, keyIndex: UInt8) {
    && |d| == 223 && |targets| <= 13
    && d[0] as nat == 1 && d[1] as nat == |targets| && d[2] as nat == keyIndex as int
    && (forall i :: 0 <= i < |targets| ==> IsRecord(d[3 + 16 * i..19 + 16 * i], targets[i]))
    && forall k :: 3 + 16 * |targets| <= k < 223 ==> d[k] == 0
  }

  // The first 220 of these bytes are the words of the others, enciphered under a zero key in six
  // rounds; the last three are the same.
  ghost predicate IsWhite(white: seq<bv8>, d: seq<bv8>) {
    && |white| == |d| == 223 && white[220..] == d[220..]
    && ToWords(white) == Encrypted(ToWords(d), [0, 0, 0, 0], 6)
  }

  ghost predicate IsFrame(frame: seq<bv8>, targets: seq<Observation>, keyIndex: UInt8) {
    IsCodeword(frame) && |frame| == 255 && exists d :: IsData(d, targets, keyIndex) && IsWhite(frame[..223], d)
  }

  lemma WhitenedIsWhite(d: seq<bv8>)
    requires |d| == DATA
    ensures IsWhite(Whitened(d), d)
  {
    hide Overwritten, ToWords, Scrambled, Encrypted;
    var words := Scrambled(ToWords(d), 6);
    WordsOverwritten(d, words);
    TailKept(d, words);
    ScrambledIsXxtea(ToWords(d), 6);
  }

  // And the unwhitened data of a codeword is what was whitened to it.
  lemma UnwhitenedWasWhite(data: seq<bv8>)
    requires |data| == DATA
    ensures IsWhite(data, Unwhitened(data))
  {
    hide Overwritten, ToWords, Scrambled, Descrambled, Encrypted;
    var words := Descrambled(ToWords(data), 6);
    WordsOverwritten(data, words);
    TailKept(data, words);
    ScramblingInverts(ToWords(data), 6);
    ScrambledIsXxtea(words, 6);
  }

  lemma PlainIsData(targets: seq<Observation>, keyIndex: UInt8)
    requires |targets| <= MAX_TARGETS
    ensures IsData(Plain(targets, keyIndex), targets, keyIndex)
  {
    hide Pack, IsRecord;
    var d := Plain(targets, keyIndex);
    HeaderBytes(targets, keyIndex);
    forall i | 0 <= i < |targets| ensures IsRecord(d[3 + 16 * i..19 + 16 * i], targets[i]) {
      PlainRecordAt(targets, keyIndex, i);
      PackIsRecord(targets[i]);
      assert d[3 + 16 * i..19 + 16 * i] == RecordAt(d, i);
    }
  }

  lemma HeaderBytes(targets: seq<Observation>, keyIndex: UInt8)
    requires |targets| <= MAX_TARGETS
    ensures var d := Plain(targets, keyIndex);
      d[0] as nat == 1 && d[1] as nat == |targets| && d[2] as nat == keyIndex as int
  {
    hide Plain, ToByte;
    HeaderStands(targets, keyIndex);
    WrittenByte(1);
    WrittenByte(|targets|);
    WrittenByte(keyIndex as int);
  }

  lemma HeaderStands(targets: seq<Observation>, keyIndex: UInt8)
    requires |targets| <= MAX_TARGETS
    ensures var d := Plain(targets, keyIndex);
      d[0] == ToByte(VERSION) && d[1] == ToByte(|targets|) && d[2] == ToByte(keyIndex as int)
  {
    hide ToByte, Records;
  }

  lemma WrittenByte(n: nat)
    requires n < 256
    ensures ToByte(n) as nat == n
  {
    hide ToByte, FromByte;
    ByteRoundTrip(n);
    ByteIs(ToByte(n));
  }

  // What is sent for these targets.
  lemma FrameOfIsFrame(targets: seq<Observation>, keyIndex: UInt8)
    requires |targets| <= MAX_TARGETS
    ensures IsFrame(FrameOf(targets, keyIndex), targets, keyIndex)
  {
    hide IsData, IsWhite, Whitened, Plain, ParityOf, IsCodeword;
    var d := Plain(targets, keyIndex);
    PlainIsData(targets, keyIndex);
    WhitenedIsWhite(d);
    EncodingIsCodeword(Whitened(d));
    assert FrameOf(targets, keyIndex)[..223] == Whitened(d);
  }

  // ----- what a decoded frame yields

  // The plausible records among the first n, until the buffer is full.
  function Kept(data: seq<bv8>, n: nat, capacity: nat): (kept: seq<Observation>)
    requires |data| == DATA && n <= MAX_TARGETS
    ensures |kept| <= capacity && |kept| <= n
    ensures forall t :: t in kept ==> Plausible(t)
  {
    if n == 0 then []
    else
      var before := Kept(data, n - 1, capacity);
      var t := Unpack(RecordAt(data, n - 1));
      if |before| < capacity && Plausible(t) then before + [t] else before
  }

  // The implausible ones met on the way.
  function Rejected(data: seq<bv8>, n: nat, capacity: nat): nat
    requires |data| == DATA && n <= MAX_TARGETS
  {
    if n == 0 then 0
    else
      Rejected(data, n - 1, capacity) +
      if |Kept(data, n - 1, capacity)| < capacity && !Plausible(Unpack(RecordAt(data, n - 1))) then 1 else 0
  }

  function CarriedAll(targets: seq<Observation>): (c: seq<Observation>)
    ensures |c| == |targets|
  {
    seq(|targets|, i requires 0 <= i < |targets| => Carried(targets[i]))
  }

  lemma {:induction false} RecordsAt(targets: seq<Observation>, i: nat)
    requires i < |targets|
    ensures Records(targets)[RECORD_BYTES * i..RECORD_BYTES * (i + 1)] == Pack(targets[i])
  {
    hide Pack;
    var n := |targets| - 1;
    var r, front := Records(targets), Records(targets[..n]);
    assert r == front + Pack(targets[n]);
    if i == n {
    } else {
      RecordsAt(targets[..n], i);
      assert r[RECORD_BYTES * i..RECORD_BYTES * (i + 1)] == front[RECORD_BYTES * i..RECORD_BYTES * (i + 1)];
    }
  }

  lemma PlainRecordAt(targets: seq<Observation>, keyIndex: UInt8, i: nat)
    requires |targets| <= MAX_TARGETS && i < |targets|
    ensures RecordAt(Plain(targets, keyIndex), i) == Pack(targets[i])
  {
    hide Pack, Header;
    RecordsAt(targets, i);
    var h, r := Header(|targets|, keyIndex), Records(targets);
    assert RecordAt(Plain(targets, keyIndex), i) == r[RECORD_BYTES * i..RECORD_BYTES * (i + 1)];
  }

  lemma PlainHeader(targets: seq<Observation>, keyIndex: UInt8)
    requires |targets| <= MAX_TARGETS
    ensures FromByte(Plain(targets, keyIndex)[0]) == VERSION
    ensures FromByte(Plain(targets, keyIndex)[1]) == |targets|
  {
    hide ToByte, FromByte, Records;
    ByteRoundTrip(VERSION);
    ByteRoundTrip(|targets|);
  }

  lemma {:induction false} KeepsPlausible(targets: seq<Observation>, keyIndex: UInt8, n: nat, capacity: nat)
    requires n <= |targets| <= MAX_TARGETS && |targets| <= capacity
    requires forall i :: 0 <= i < |targets| ==> Plausible(Carried(targets[i]))
    ensures Kept(Plain(targets, keyIndex), n, capacity) == CarriedAll(targets)[..n]
    ensures Rejected(Plain(targets, keyIndex), n, capacity) == 0
  {
    hide Plain, Unpack, Carried, Plausible, RecordAt, CarriedAll;
    if n > 0 {
      KeepsPlausible(targets, keyIndex, n - 1, capacity);
      PlainRecordAt(targets, keyIndex, n - 1);
      UnpackPack(targets[n - 1]);
      CarriedStep(targets, n);
      KeptStep(Plain(targets, keyIndex), n, capacity, Carried(targets[n - 1]));
    }
  }

  lemma CarriedStep(targets: seq<Observation>, n: nat)
    requires 0 < n <= |targets|
    ensures CarriedAll(targets)[..n] == CarriedAll(targets)[..n - 1] + [Carried(targets[n - 1])]
  {
    hide Carried;
  }

  lemma KeptStep(data: seq<bv8>, n: nat, capacity: nat, t: Observation)
    requires |data| == DATA && 0 < n <= MAX_TARGETS && Unpack(RecordAt(data, n - 1)) == t && Plausible(t)
    requires |Kept(data, n - 1, capacity)| < capacity
    ensures Kept(data, n, capacity) == Kept(data, n - 1, capacity) + [t]
    ensures Rejected(data, n, capacity) == Rejected(data, n - 1, capacity)
  {
    hide Unpack, Plausible, RecordAt;
  }

  // Once the buffer is full nothing further is kept or counted.
  lemma {:induction false} FullStays(data: seq<bv8>, i: nat, n: nat, capacity: nat)
    requires |data| == DATA && i <= n <= MAX_TARGETS
    requires i == n || |Kept(data, i, capacity)| == capacity
    ensures Kept(data, n, capacity) == Kept(data, i, capacity)
    ensures Rejected(data, n, capacity) == Rejected(data, i, capacity)
  {
    hide Unpack, Plausible, RecordAt;
    if i < n {
      FullStays(data, i, n - 1, capacity);
    }
  }

  // These are the first m records that are on the globe, in order.
  ghost predicate IsFiltered(d: seq<bv8>, m: nat, kept: seq<Observation>)
    requires |d| == 223 && m <= 13
    decreases m
  {
    if m == 0 then kept == []
    else
      var t := Unpack(d[3 + 16 * (m - 1)..3 + 16 * m]);
      if IsOnTheGlobe(t) then |kept| > 0 && kept[|kept| - 1] == t && IsFiltered(d, m - 1, kept[..|kept| - 1])
      else IsFiltered(d, m - 1, kept)
  }

  // Of the records carried, these were kept and so many rejected: those met until there was no more
  // room, or all.
  ghost predicate IsGated(d: seq<bv8>, carried: nat, capacity: nat, m: nat, kept: seq<Observation>, rejected: nat)
    requires |d| == 223 && carried <= 13
  {
    && m <= carried && IsFiltered(d, m, kept) && |kept| <= capacity && rejected == m - |kept|
    && (|kept| < capacity ==> m == carried)
    && (|kept| == capacity && m > 0 ==> IsOnTheGlobe(Unpack(d[3 + 16 * (m - 1)..3 + 16 * m])))
  }

  ghost predicate IsUnloaded(d: seq<bv8>, carried: nat, capacity: nat, kept: seq<Observation>, rejected: nat)
    requires |d| == 223 && carried <= 13
  {
    exists m :: IsGated(d, carried, capacity, m, kept, rejected)
  }

  lemma FilteredFew(d: seq<bv8>, m: nat, kept: seq<Observation>)
    requires |d| == 223 && m <= 13 && IsFiltered(d, m, kept)
    ensures |kept| <= m && forall t :: t in kept ==> IsOnTheGlobe(t)
    decreases m
  {
    hide Unpack, IsOnTheGlobe;
    if m > 0 {
      var t := Unpack(d[3 + 16 * (m - 1)..3 + 16 * m]);
      if IsOnTheGlobe(t) {
        FilteredFew(d, m - 1, kept[..|kept| - 1]);
        assert kept == kept[..|kept| - 1] + [t];
      } else {
        FilteredFew(d, m - 1, kept);
      }
    }
  }

  lemma {:induction false} KeptIsGated(d: seq<bv8>, n: nat, capacity: nat) returns (m: nat)
    requires |d| == DATA && n <= MAX_TARGETS
    ensures IsGated(d, n, capacity, m, Kept(d, n, capacity), Rejected(d, n, capacity))
    decreases n
  {
    hide Unpack, Plausible, IsOnTheGlobe;
    m := 0;
    if n > 0 {
      m := KeptIsGated(d, n - 1, capacity);
      var kept := Kept(d, n - 1, capacity);
      if |kept| < capacity {
        var t := Unpack(RecordAt(d, n - 1));
        GateIsTheGlobe(t);
        assert RecordAt(d, n - 1) == d[3 + 16 * (n - 1)..3 + 16 * n];
        assert (kept + [t])[..|kept|] == kept;
        m := n;
      }
    }
  }

  // ----- results

  datatype Status = Ok | Invalid | Crc | Unsupported | Full

  datatype Statistics = Statistics(targets: nat, corrected: nat, rejected: nat)

  // What the unscrambled data of a frame yields.
  ghost predicate Yields(plain: seq<bv8>, status: Status, statistics: Statistics, out: seq<Observation>, capacity: nat)
    requires |plain| == DATA && capacity <= |out|
  {
    var carried := FromByte(plain[1]);
    if FromByte(plain[0]) != VERSION then status == Unsupported && statistics.targets == statistics.rejected == 0
    else if carried > MAX_TARGETS then status == Invalid && statistics.targets == statistics.rejected == 0
    else
      && status == Ok
      && statistics.targets == |Kept(plain, carried, capacity)|
      && statistics.rejected == Rejected(plain, carried, capacity)
      && out[..statistics.targets] == Kept(plain, carried, capacity)
  }

  // The same, in numbers and by the globe's bounds.
  ghost predicate IsRead(d: seq<bv8>, status: Status, statistics: Statistics, out: seq<Observation>, capacity: nat) {
    && |d| == 223
    && if d[0] != 1 then status == Unsupported && statistics.targets == statistics.rejected == 0
       else if d[1] > 13 then status == Invalid && statistics.targets == statistics.rejected == 0
       else
         && status == Ok && d[1] as nat <= 13 && statistics.targets <= |out|
         && IsUnloaded(d, d[1] as nat, capacity, out[..statistics.targets], statistics.rejected)
  }

  lemma YieldsIsRead(d: seq<bv8>, status: Status, statistics: Statistics, out: seq<Observation>, capacity: nat)
    requires |d| == DATA && capacity <= |out| && Yields(d, status, statistics, out, capacity)
    ensures IsRead(d, status, statistics, out, capacity)
    ensures forall k :: 0 <= k < statistics.targets <= |out| ==> IsOnTheGlobe(out[k])
  {
    hide IsGated, Kept, Rejected, IsOnTheGlobe, FromByte;
    ReadByte(d[0], 1);
    ReadByte(d[1], 13);
    if status == Ok {
      var m := KeptIsGated(d, d[1] as nat, capacity);
      GatedOnTheGlobe(d, d[1] as nat, capacity, m, out[..statistics.targets], statistics.rejected);
    }
  }

  lemma GatedOnTheGlobe(d: seq<bv8>, carried: nat, capacity: nat, m: nat, kept: seq<Observation>, rejected: nat)
    requires |d| == 223 && carried <= 13 && IsGated(d, carried, capacity, m, kept, rejected)
    ensures forall t :: t in kept ==> IsOnTheGlobe(t)
  {
    hide IsOnTheGlobe;
    FilteredFew(d, m, kept);
  }

  lemma ReadByte(b: bv8, n: bv8)
    ensures FromByte(b) == b as nat
    ensures FromByte(b) <= FromByte(n) <==> b <= n
    ensures FromByte(b) == FromByte(n) <==> b == n
  {}

  // What a frame that decodes to the codeword c delivers.
  ghost predicate Delivers(c: seq<bv8>, frame: seq<bv8>, status: Status, statistics: Statistics,
                           out: seq<Observation>, capacity: nat)
    requires |frame| == CODEWORD && capacity <= |out|
  {
    && IsCodeword(c) && Distance(frame, c) == statistics.corrected <= MAX_ERRORS
    && Yields(Unwhitened(c[..DATA]), status, statistics, out, capacity)
  }

  // The codeword the frame was repaired to, the data it is the cipher of, and what that says.
  ghost predicate IsReceived(c: seq<bv8>, d: seq<bv8>, frame: seq<bv8>, status: Status, statistics: Statistics,
                             out: seq<Observation>, capacity: nat)
    requires |frame| == 255
  {
    && IsCodeword(c) && |c| == 255 && Distance(frame, c) == statistics.corrected <= 16
    && IsWhite(c[..223], d) && IsRead(d, status, statistics, out, capacity)
  }

  lemma DeliveredIsReceived(c: seq<bv8>, frame: seq<bv8>, status: Status, statistics: Statistics, out: seq<Observation>,
                            capacity: nat)
    requires |frame| == CODEWORD && capacity <= |out| && Delivers(c, frame, status, statistics, out, capacity)
    ensures IsReceived(c, Unwhitened(c[..DATA]), frame, status, statistics, out, capacity)
    ensures forall k :: 0 <= k < statistics.targets <= |out| ==> IsOnTheGlobe(out[k])
  {
    hide IsWhite, IsRead, Yields, Unwhitened, Distance, IsOnTheGlobe;
    UnwhitenedWasWhite(c[..DATA]);
    YieldsIsRead(Unwhitened(c[..DATA]), status, statistics, out, capacity);
  }

  // At most 13 of them, every one of some aircraft's and on the globe, in the 24 bits of an address.
  ghost predicate PlausibleTargets(targets: seq<Observation>) {
    && |targets| <= 13
    && forall i :: 0 <= i < |targets| ==>
         && targets[i].address as int % 0x100_0000 != 0
         && -900_000_000 <= targets[i].latitude <= 900_000_000
         && -1_800_000_000 <= targets[i].longitude <= 1_800_000_000
  }

  lemma PlausibleWhenCarried(targets: seq<Observation>)
    requires PlausibleTargets(targets)
    ensures |targets| <= MAX_TARGETS && forall i :: 0 <= i < |targets| ==> Plausible(Carried(targets[i]))
  {}

  // Whatever plausible targets a frame was sent for, if it is at most sixteen bytes away from
  // that frame then they are what came out, in order, with the number of damaged bytes.
  ghost predicate RoundTrips(frame: seq<bv8>, status: Status, statistics: Statistics, out: seq<Observation>, capacity: nat)
    requires |frame| == CODEWORD && capacity <= |out|
  {
    forall sent: seq<Observation>, keyIndex: UInt8 ::
      PlausibleTargets(sent) && |sent| <= capacity && Distance(frame, FrameOf(sent, keyIndex)) <= MAX_ERRORS ==>
      && status == Ok && out[..|sent|] == CarriedAll(sent)
      && statistics == Statistics(|sent|, Distance(frame, FrameOf(sent, keyIndex)), 0)
  }

  // The round trip: a frame no more than sixteen bytes away from the one sent for these targets
  // gives them back, in order, as far as a record carries them.
  lemma DeliversWhatWasSent(targets: seq<Observation>, keyIndex: UInt8, c: seq<bv8>, frame: seq<bv8>,
                            status: Status, statistics: Statistics, out: seq<Observation>, capacity: nat)
    requires |frame| == CODEWORD && capacity <= |out|
    requires PlausibleTargets(targets) && |targets| <= capacity
    requires Delivers(c, frame, status, statistics, out, capacity)
    requires Distance(frame, FrameOf(targets, keyIndex)) <= MAX_ERRORS
    requires forall d: seq<bv8> :: IsCodeword(d) && Distance(frame, d) <= MAX_ERRORS ==> d == c
    ensures status == Ok && out[..|targets|] == CarriedAll(targets)
    ensures statistics == Statistics(|targets|, Distance(frame, FrameOf(targets, keyIndex)), 0)
  {
    hide IsCodeword, Distance, ParityOf, Plain, Whitened, Unwhitened, Kept, Rejected, Carried, Plausible;
    var plain := Plain(targets, keyIndex);
    var white := Whitened(plain);
    EncodingIsCodeword(white);
    assert FrameOf(targets, keyIndex) == c;
    assert c[..DATA] == white;
    UnwhiteningUndoes(plain);
    PlainHeader(targets, keyIndex);
    PlausibleWhenCarried(targets);
    KeepsPlausible(targets, keyIndex, |targets|, capacity);
    assert CarriedAll(targets)[..|targets|] == CarriedAll(targets);
  }

  // ----- the class

  class AdslUplink {
    const reedSolomon: ReedSolomon255

    ghost predicate Valid() {
      reedSolomon.Valid()
    }

    constructor ()
      ensures Valid()
    {
      reedSolomon := new ReedSolomon255();
    }

    method Encode(targets: seq<Observation>, keyIndex: UInt8, outFrame: array<bv8>) returns (status: Status)
      requires Valid() && outFrame.Length == CODEWORD
      modifies outFrame
      ensures status == if |targets| > 13 then Full else Ok
      ensures status == Full ==> outFrame[..] == old(outFrame[..])
      ensures status == Ok ==> outFrame[..] == FrameOf(targets, keyIndex) && IsFrame(outFrame[..], targets, keyIndex)
    {
      hide IsCodeword, Add, ParityOf, Pack, Overwritten, ToWords, Whitened, Plain, IsFrame, ReedSolomon255.Valid;
      if |targets| > MAX_TARGETS { return Full; }
      var data := new bv8[DATA](_ => 0);
      FillPlain(targets, keyIndex, data);
      Whiten(data);
      var parity := new bv8[PARITY];
      reedSolomon.Encode(data, parity);
      CopyFrame(data, parity, outFrame);
      FrameOfIsFrame(targets, keyIndex);
      status := Ok;
    }

    /** Whatever comes back Crc had no codeword within sixteen bytes; nothing else is called Crc. */
    method Decode(frame: array<bv8>, targets: array<Observation>, capacity: nat)
        returns (status: Status, statistics: Statistics)
      requires Valid() && frame.Length == CODEWORD && capacity <= targets.Length
      modifies targets
      ensures statistics.targets <= capacity && targets[statistics.targets..] == old(targets[statistics.targets..])
      ensures status == Crc <==> NoCodewordNear(old(frame[..]))
      ensures status != Crc ==>
        exists c, d: seq<bv8> :: IsReceived(c, d, old(frame[..]), status, statistics, targets[..], capacity)
      ensures forall k :: 0 <= k < statistics.targets ==>
        && targets[k].address != 0
        && -900_000_000 <= targets[k].latitude <= 900_000_000
        && -1_800_000_000 <= targets[k].longitude <= 1_800_000_000
      ensures RoundTrips(old(frame[..]), status, statistics, targets[..], capacity)
    {
      hide IsCodeword, Distance, Unwhitened, Yields, Delivers, RoundTrips, IsReceived, NoCodewordNear, ReedSolomon255.Valid;
      var codeword := CopyOf(frame, CODEWORD);
      ghost var f := frame[..];
      var corrected := reedSolomon.Decode(codeword);
      if corrected < 0 {
        status, statistics := Crc, Statistics(0, 0, 0);
        NothingWasSent(f, status, statistics, targets[..], capacity);
        return;
      }
      ghost var c := codeword[..];
      SomethingNear(f, c);
      status, statistics := Unpacked(codeword, targets, capacity, corrected);
      SentDelivered(c, f, status, statistics, targets[..], capacity);
      DeliveredIsReceived(c, f, status, statistics, targets[..], capacity);
    }

    // What the repaired codeword carries.
    method Unpacked(codeword: array<bv8>, targets: array<Observation>, capacity: nat, corrected: nat)
        returns (status: Status, statistics: Statistics)
      requires codeword.Length == CODEWORD && capacity <= targets.Length
      modifies targets
      ensures statistics.corrected == corrected && status != Crc
      ensures Yields(Unwhitened(old(codeword[..DATA])), status, statistics, targets[..], capacity)
      ensures statistics.targets <= capacity && targets[statistics.targets..] == old(targets[statistics.targets..])
    {
      hide Unwhitened, Yields;
      var data := CopyOf(codeword, DATA);
      Unwhiten(data);
      status, statistics := Read(data[..], targets, capacity, corrected);
    }

    method Read(data: seq<bv8>, targets: array<Observation>, capacity: nat, corrected: nat)
        returns (status: Status, statistics: Statistics)
      requires |data| == DATA && capacity <= targets.Length
      modifies targets
      ensures statistics.corrected == corrected && status != Crc
      ensures Yields(data, status, statistics, targets[..], capacity)
      ensures statistics.targets <= capacity && targets[statistics.targets..] == old(targets[statistics.targets..])
    {
      hide Kept, Rejected, FromByte;
      statistics := Statistics(0, corrected, 0);
      if FromByte(data[0]) != VERSION { return Unsupported, statistics; }
      var carried := FromByte(data[1]);
      if carried > MAX_TARGETS { return Invalid, statistics; }
      var kept, rejected := Unload(data, carried, targets, capacity);
      status, statistics := Ok, Statistics(kept, corrected, rejected);
    }

    method Whiten(data: array<bv8>)
      requires data.Length == DATA
      modifies data
      ensures data[..] == Whitened(old(data[..]))
    {
      hide Overwritten, ToWords;
      var words := LoadWords(data);
      ScrambleKey0(words, LOOPS);
      StoreWords(words, data);
    }

    method Unwhiten(data: array<bv8>)
      requires data.Length == DATA
      modifies data
      ensures data[..] == Unwhitened(old(data[..]))
    {
      hide Overwritten, ToWords;
      var words := LoadWords(data);
      DescrambleKey0(words, LOOPS);
      StoreWords(words, data);
    }

    method Unload(data: seq<bv8>, carried: nat, targets: array<Observation>, capacity: nat)
        returns (kept: nat, rejected: nat)
      requires |data| == DATA && carried <= MAX_TARGETS && capacity <= targets.Length
      modifies targets
      ensures kept == |Kept(data, carried, capacity)| && rejected == Rejected(data, carried, capacity)
      ensures targets[..kept] == Kept(data, carried, capacity)
      ensures targets[kept..] == old(targets[kept..])
    {
      hide Unpack, Plausible, RecordAt;
      kept, rejected := 0, 0;
      ghost var was := targets[..];
      var i := 0;
      while i < carried && kept < capacity
        invariant 0 <= i <= carried
        invariant kept == |Kept(data, i, capacity)| && rejected == Rejected(data, i, capacity)
        invariant targets[..kept] == Kept(data, i, capacity) && targets[kept..] == was[kept..]
      {
        var target := Unpack(RecordAt(data, i));
        i := i + 1;
        if !Plausible(target) {
          rejected := rejected + 1;
        } else {
          targets[kept] := target;
          kept := kept + 1;
        }
      }
      FullStays(data, i, carried, capacity);
    }
  }

  lemma NothingWasSent(f: seq<bv8>, status: Status, statistics: Statistics, out: seq<Observation>, capacity: nat)
    requires |f| == CODEWORD && NoCodewordNear(f) && capacity <= |out|
    ensures RoundTrips(f, status, statistics, out, capacity)
  {
    hide Distance, IsCodeword, ParityOf, Plain, Whitened, Carried, Plausible;
    forall sent: seq<Observation>, keyIndex: UInt8 | PlausibleTargets(sent)
      ensures Distance(f, FrameOf(sent, keyIndex)) > MAX_ERRORS
    {
      EncodingIsCodeword(Whitened(Plain(sent, keyIndex)));
    }
  }

  lemma SomethingNear(f: seq<bv8>, c: seq<bv8>)
    requires |f| == CODEWORD && IsCodeword(c) && Distance(f, c) <= MAX_ERRORS
    ensures !NoCodewordNear(f) && |c| == CODEWORD
  {}

  lemma SentDelivered(c: seq<bv8>, f: seq<bv8>, status: Status, statistics: Statistics, out: seq<Observation>, capacity: nat)
    requires |f| == CODEWORD && capacity <= |out|
    requires IsCodeword(c) && Distance(f, c) == statistics.corrected <= MAX_ERRORS
    requires Yields(Unwhitened(c[..DATA]), status, statistics, out, capacity)
    requires forall d: seq<bv8> :: IsCodeword(d) && Distance(f, d) <= MAX_ERRORS ==> d == c
    ensures Delivers(c, f, status, statistics, out, capacity)
    ensures RoundTrips(f, status, statistics, out, capacity)
  {
    hide Distance, IsCodeword, FrameOf, Yields, Carried, Plausible;
    forall sent: seq<Observation>, keyIndex: UInt8 |
      PlausibleTargets(sent) && |sent| <= capacity && Distance(f, FrameOf(sent, keyIndex)) <= MAX_ERRORS
      ensures status == Ok && out[..|sent|] == CarriedAll(sent)
      ensures statistics == Statistics(|sent|, Distance(f, FrameOf(sent, keyIndex)), 0)
    {
      DeliversWhatWasSent(sent, keyIndex, c, f, status, statistics, out, capacity);
    }
  }

  // ----- buffers

  method LoadWords(data: array<bv8>) returns (words: array<bv32>)
    requires data.Length == DATA
    ensures fresh(words) && words[..] == ToWords(data[..])
  {
    hide Word;
    words := new bv32[WORDS];
    for i := 0 to WORDS
      invariant forall k :: 0 <= k < i ==> words[k] == Word(data[4 * k], data[4 * k + 1], data[4 * k + 2], data[4 * k + 3])
    {
      words[i] := Word(data[4 * i], data[4 * i + 1], data[4 * i + 2], data[4 * i + 3]);
    }
  }

  method StoreWords(words: array<bv32>, data: array<bv8>)
    requires data.Length == DATA && words.Length == WORDS
    modifies data
    ensures data[..] == Overwritten(old(data[..]), words[..])
  {
    hide ByteOf;
    ghost var was, w := data[..], words[..];
    for i := 0 to 4 * WORDS
      invariant words[..] == w
      invariant forall k :: 0 <= k < i ==> data[k] == ByteOf(w[k / 4], k % 4)
      invariant forall k :: i <= k < DATA ==> data[k] == was[k]
    {
      data[i] := ByteOf(words[i / 4], i % 4);
    }
    assert data[..] == Overwritten(was, w);
  }

  method FillPlain(targets: seq<Observation>, keyIndex: UInt8, data: array<bv8>)
    requires |targets| <= MAX_TARGETS && data.Length == DATA && forall k :: 0 <= k < DATA ==> data[k] == 0
    modifies data
    ensures data[..] == Plain(targets, keyIndex)
  {
    hide Pack, ToByte;
    data[0], data[1], data[2] := ToByte(VERSION), ToByte(|targets|), ToByte(keyIndex as int);
    ghost var h := Header(|targets|, keyIndex);
    for i := 0 to |targets|
      invariant data[..HEADER_BYTES + RECORD_BYTES * i] == h + Records(targets[..i])
      invariant forall k :: HEADER_BYTES + RECORD_BYTES * i <= k < DATA ==> data[k] == 0
    {
      ghost var before := data[..HEADER_BYTES + RECORD_BYTES * i];
      StoreRecord(data, HEADER_BYTES + RECORD_BYTES * i, Pack(targets[i]));
      assert targets[..i + 1][..i] == targets[..i];
      assert data[..HEADER_BYTES + RECORD_BYTES * (i + 1)] == before + Pack(targets[i]);
    }
    assert targets[..|targets|] == targets;
    assert data[..] == Plain(targets, keyIndex);
  }

  method StoreRecord(data: array<bv8>, at: nat, record: seq<bv8>)
    requires |record| == RECORD_BYTES && at + RECORD_BYTES <= data.Length
    modifies data
    ensures data[..] == old(data[..at]) + record + old(data[at + RECORD_BYTES..])
  {
    for k := 0 to RECORD_BYTES
      invariant data[..] == old(data[..at]) + record[..k] + old(data[at + k..])
    {
      data[at + k] := record[k];
    }
  }

  method CopyOf(source: array<bv8>, n: nat) returns (copy: array<bv8>)
    requires n <= source.Length
    ensures fresh(copy) && copy.Length == n && copy[..] == source[..n]
    ensures n == source.Length ==> copy[..] == source[..]
  {
    copy := new bv8[n](i requires 0 <= i < source.Length reads source => source[i]);
  }

  method CopyFrame(data: array<bv8>, parity: array<bv8>, outFrame: array<bv8>)
    requires data.Length == DATA && parity.Length == PARITY && outFrame.Length == CODEWORD
    requires data != outFrame && parity != outFrame
    modifies outFrame
    ensures outFrame[..] == data[..] + parity[..]
  {
    forall i | 0 <= i < CODEWORD {
      outFrame[i] := if i < DATA then data[i] else parity[i - DATA];
    }
  }
}
