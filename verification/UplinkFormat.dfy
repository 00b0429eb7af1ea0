/**
 A record of the uplink byte by byte, in numbers: what `Pack` writes and what `Unpack` takes
 it for are both held to this and not to each other.
 */
module UplinkFormat {
  import opened UplinkRecords

  // Little-endian.
  ghost function Number(bytes: seq<bv8>): nat {
    if |bytes| == 0 then 0 else bytes[0] as nat + 0x100 * Number(bytes[1..])
  }

  // Address in three bytes, table and flight state in one, category, speed; then latitude and
  // longitude in ten-millionths of a degree and the altitude in metres, two's complement.
  ghost predicate IsRecord(r: seq<bv8>, t: Observation) {
    && |r| == 16
    && Number(r[0..3]) == t.address as int % 0x100_0000
    && r[3] as nat % 64 == t.addressMappingTable as int % 64
    && r[3] as nat / 64 == t.flightState as int % 4
    && r[4] as nat == t.aircraftCategory as int
    && r[5] as nat == (if t.speed <= 255 then t.speed as int else 255)
    && Number(r[6..10]) == t.latitude as int % 0x1_0000_0000
    && Number(r[10..14]) == t.longitude as int % 0x1_0000_0000
    && Number(r[14..16]) == t.altitude as int % 0x1_0000
  }

  // What the reader fills in that no record carries.
  ghost predicate IsFilledIn(t: Observation) {
    t.source == AdslUplink && t.emergency == 1 && t.positionValid && t.altitudeValid && (t.speedValid <==> t.speed != 0)
  }

  // A target of some aircraft's that is somewhere on the globe.
  ghost predicate IsOnTheGlobe(t: Observation) {
    && t.address != 0
    && -900_000_000 <= t.latitude <= 900_000_000
    && -1_800_000_000 <= t.longitude <= 1_800_000_000
  }

  lemma NumberOf(s: seq<bv8>)
    ensures |s| == 0 ==> Number(s) == 0
    ensures |s| > 0 ==> Number(s) == FromByte(s[0]) + 0x100 * Number(s[1..])
  {}

  lemma TwoBytes(s: seq<bv8>)
    requires |s| == 2
    ensures Number(s) == GetUInt16(s)
  {
    hide FromByte, Number;
    NumberOf(s);
    NumberOf(s[1..]);
    NumberOf(s[1..][1..]);
  }

  lemma ThreeBytes(s: seq<bv8>)
    requires |s| == 3
    ensures Number(s) == GetUInt24(s)
  {
    hide FromByte, Number;
    NumberOf(s);
    TwoBytes(s[1..]);
  }

  lemma FourBytes(s: seq<bv8>)
    requires |s| == 4
    ensures Number(s) == GetUInt32(s)
  {
    hide FromByte, Number;
    NumberOf(s);
    ThreeBytes(s[1..]);
  }

  // `Unpack` takes every record for a target it is the record of.
  lemma UnpackIsRecord(r: seq<bv8>)
    requires |r| == 16
    ensures IsRecord(r, Unpack(r)) && IsFilledIn(Unpack(r))
    ensures Unpack(r).address < 0x100_0000 && Unpack(r).addressMappingTable < 64 && Unpack(r).flightState < 4
    ensures Unpack(r).speed <= 255 && -0x8000 <= Unpack(r).altitude < 0x8000
  {
    hide FromByte, GetUInt16, GetUInt24, GetUInt32, Number, Signed, IsRecord;
    SmallFieldsRead(r);
    NumbersRead(r);
    hide Unpack;
    RecordOf(r, Unpack(r));
  }

  lemma RecordOf(r: seq<bv8>, t: Observation)
    requires |r| == 16
    requires Number(r[0..3]) == t.address as int < 0x100_0000
    requires r[3] as nat % 64 == t.addressMappingTable as int < 64 && r[3] as nat / 64 == t.flightState as int < 4
    requires r[4] as nat == t.aircraftCategory as int && r[5] as nat == t.speed as int
    requires Number(r[6..10]) == t.latitude as int % 0x1_0000_0000
    requires Number(r[10..14]) == t.longitude as int % 0x1_0000_0000
    requires Number(r[14..16]) == t.altitude as int % 0x1_0000
    ensures IsRecord(r, t)
  {
    hide Number;
    ByteIs(r[5]);
  }

  lemma SmallFieldsRead(r: seq<bv8>)
    requires |r| == 16
    ensures var t := Unpack(r);
      && r[3] as nat % 64 == t.addressMappingTable as int < 64 && r[3] as nat / 64 == t.flightState as int < 4
      && r[4] as nat == t.aircraftCategory as int && r[5] as nat == t.speed as int <= 255
      && IsFilledIn(t) && -0x8000 <= t.altitude < 0x8000
  {
    ByteIs(r[3]);
    ByteIs(r[4]);
    ByteIs(r[5]);
    hide FromByte, GetUInt16, GetUInt24, GetUInt32;
  }

  lemma NumbersRead(r: seq<bv8>)
    requires |r| == 16
    ensures var t := Unpack(r);
      && Number(r[0..3]) == t.address as int < 0x100_0000
      && Number(r[6..10]) == t.latitude as int % 0x1_0000_0000
      && Number(r[10..14]) == t.longitude as int % 0x1_0000_0000
      && Number(r[14..16]) == t.altitude as int % 0x1_0000
  {
    ThreeBytes(r[0..3]);
    FourBytes(r[6..10]);
    FourBytes(r[10..14]);
    TwoBytes(r[14..16]);
    hide FromByte, GetUInt16, GetUInt24, GetUInt32, Number, Signed;
    SignedWord(GetUInt32(r[6..10]));
    SignedWord(GetUInt32(r[10..14]));
    SignedHalf(GetUInt16(r[14..16]));
  }

  lemma ByteIs(b: bv8)
    ensures FromByte(b) == b as nat < 256
  {}

  lemma SignedWord(n: nat)
    requires n < 0x1_0000_0000
    ensures Signed(n, 0x1_0000_0000) % 0x1_0000_0000 == n
  {}

  lemma SignedHalf(n: nat)
    requires n < 0x1_0000
    ensures Signed(n, 0x1_0000) % 0x1_0000 == n
  {}

  // `Pack` writes such a record.
  lemma PackIsRecord(t: Observation)
    ensures IsRecord(Pack(t), t)
  {
    hide IsRecord, Pack, Unpack, Carried;
    UnpackPack(t);
    UnpackIsRecord(Pack(t));
    CarriedIsRecord(Pack(t), t);
  }

  // What a record is of what it carries of a target, it is of the target.
  lemma CarriedIsRecord(r: seq<bv8>, t: Observation)
    ensures IsRecord(r, Carried(t)) <==> IsRecord(r, t)
  {
    hide Number;
    assert Signed(t.altitude as int % 0x1_0000, 0x1_0000) % 0x1_0000 == t.altitude as int % 0x1_0000;
  }

  // It reaches the globe's bounds exactly when the target does, its address cut to 24 bits.
  lemma CarriedOnTheGlobe(t: Observation)
    ensures IsOnTheGlobe(Carried(t)) <==> IsOnTheGlobe(t.(address := (t.address as int % 0x100_0000) as UInt32))
  {}

  // The gate lets through what is on the globe.
  lemma GateIsTheGlobe(t: Observation)
    ensures Plausible(t) <==> IsOnTheGlobe(t)
  {}
}
