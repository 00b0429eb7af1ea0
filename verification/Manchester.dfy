/**
 firmware/core/fec/manchester: one bit is two chips, 1 as 01 and 0 as 10.  A pair of equal chips
 is one no transmitter sends; it decodes to its second chip and is marked as an erasure.
 */
module Manchester {
  import opened AdslCrc
  import opened BitSets

  // Four bits of data as eight chips, by the low half of the byte.
  function EncodeTable(n: bv8): bv8 {
    match n & 15
    case 0 => 0xAA case 1 => 0xA9 case 2 => 0xA6 case 3 => 0xA5
    case 4 => 0x9A case 5 => 0x99 case 6 => 0x96 case 7 => 0x95
    case 8 => 0x6A case 9 => 0x69 case 10 => 0x66 case 11 => 0x65
    case 12 => 0x5A case 13 => 0x59 case 14 => 0x56 case _ => 0x55
  }

  function High(n: bv8): bv8 { n >> 4 }

  // Errors in the upper four bits, data in the lower.
  function DecodeTable(c: bv8): bv8 {
    match c >> 4
    case 0 => (
      match c & 15
      case 0 => 0xF0 case 1 => 0xE1 case 2 => 0xE0 case 3 => 0xF1 case 4 => 0xD2 case 5 => 0xC3 case 6 => 0xC2 case 7 => 0xD3
      case 8 => 0xD0 case 9 => 0xC1 case 10 => 0xC0 case 11 => 0xD1 case 12 => 0xF2 case 13 => 0xE3 case 14 => 0xE2 case _ => 0xF3)
    case 1 => (
      match c & 15
      case 0 => 0xB4 case 1 => 0xA5 case 2 => 0xA4 case 3 => 0xB5 case 4 => 0x96 case 5 => 0x87 case 6 => 0x86 case 7 => 0x97
      case 8 => 0x94 case 9 => 0x85 case 10 => 0x84 case 11 => 0x95 case 12 => 0xB6 case 13 => 0xA7 case 14 => 0xA6 case _ => 0xB7)
    case 2 => (
      match c & 15
      case 0 => 0xB0 case 1 => 0xA1 case 2 => 0xA0 case 3 => 0xB1 case 4 => 0x92 case 5 => 0x83 case 6 => 0x82 case 7 => 0x93
      case 8 => 0x90 case 9 => 0x81 case 10 => 0x80 case 11 => 0x91 case 12 => 0xB2 case 13 => 0xA3 case 14 => 0xA2 case _ => 0xB3)
    case 3 => (
      match c & 15
      case 0 => 0xF4 case 1 => 0xE5 case 2 => 0xE4 case 3 => 0xF5 case 4 => 0xD6 case 5 => 0xC7 case 6 => 0xC6 case 7 => 0xD7
      case 8 => 0xD4 case 9 => 0xC5 case 10 => 0xC4 case 11 => 0xD5 case 12 => 0xF6 case 13 => 0xE7 case 14 => 0xE6 case _ => 0xF7)
    case 4 => (
      match c & 15
      case 0 => 0x78 case 1 => 0x69 case 2 => 0x68 case 3 => 0x79 case 4 => 0x5A case 5 => 0x4B case 6 => 0x4A case 7 => 0x5B
      case 8 => 0x58 case 9 => 0x49 case 10 => 0x48 case 11 => 0x59 case 12 => 0x7A case 13 => 0x6B case 14 => 0x6A case _ => 0x7B)
    case 5 => (
      match c & 15
      case 0 => 0x3C case 1 => 0x2D case 2 => 0x2C case 3 => 0x3D case 4 => 0x1E case 5 => 0x0F case 6 => 0x0E case 7 => 0x1F
      case 8 => 0x1C case 9 => 0x0D case 10 => 0x0C case 11 => 0x1D case 12 => 0x3E case 13 => 0x2F case 14 => 0x2E case _ => 0x3F)
    case 6 => (
      match c & 15
      case 0 => 0x38 case 1 => 0x29 case 2 => 0x28 case 3 => 0x39 case 4 => 0x1A case 5 => 0x0B case 6 => 0x0A case 7 => 0x1B
      case 8 => 0x18 case 9 => 0x09 case 10 => 0x08 case 11 => 0x19 case 12 => 0x3A case 13 => 0x2B case 14 => 0x2A case _ => 0x3B)
    case 7 => (
      match c & 15
      case 0 => 0x7C case 1 => 0x6D case 2 => 0x6C case 3 => 0x7D case 4 => 0x5E case 5 => 0x4F case 6 => 0x4E case 7 => 0x5F
      case 8 => 0x5C case 9 => 0x4D case 10 => 0x4C case 11 => 0x5D case 12 => 0x7E case 13 => 0x6F case 14 => 0x6E case _ => 0x7F)
    case 8 => (
      match c & 15
      case 0 => 0x70 case 1 => 0x61 case 2 => 0x60 case 3 => 0x71 case 4 => 0x52 case 5 => 0x43 case 6 => 0x42 case 7 => 0x53
      case 8 => 0x50 case 9 => 0x41 case 10 => 0x40 case 11 => 0x51 case 12 => 0x72 case 13 => 0x63 case 14 => 0x62 case _ => 0x73)
    case 9 => (
      match c & 15
      case 0 => 0x34 case 1 => 0x25 case 2 => 0x24 case 3 => 0x35 case 4 => 0x16 case 5 => 0x07 case 6 => 0x06 case 7 => 0x17
      case 8 => 0x14 case 9 => 0x05 case 10 => 0x04 case 11 => 0x15 case 12 => 0x36 case 13 => 0x27 case 14 => 0x26 case _ => 0x37)
    case 10 => (
      match c & 15
      case 0 => 0x30 case 1 => 0x21 case 2 => 0x20 case 3 => 0x31 case 4 => 0x12 case 5 => 0x03 case 6 => 0x02 case 7 => 0x13
      case 8 => 0x10 case 9 => 0x01 case 10 => 0x00 case 11 => 0x11 case 12 => 0x32 case 13 => 0x23 case 14 => 0x22 case _ => 0x33)
    case 11 => (
      match c & 15
      case 0 => 0x74 case 1 => 0x65 case 2 => 0x64 case 3 => 0x75 case 4 => 0x56 case 5 => 0x47 case 6 => 0x46 case 7 => 0x57
      case 8 => 0x54 case 9 => 0x45 case 10 => 0x44 case 11 => 0x55 case 12 => 0x76 case 13 => 0x67 case 14 => 0x66 case _ => 0x77)
    case 12 => (
      match c & 15
      case 0 => 0xF8 case 1 => 0xE9 case 2 => 0xE8 case 3 => 0xF9 case 4 => 0xDA case 5 => 0xCB case 6 => 0xCA case 7 => 0xDB
      case 8 => 0xD8 case 9 => 0xC9 case 10 => 0xC8 case 11 => 0xD9 case 12 => 0xFA case 13 => 0xEB case 14 => 0xEA case _ => 0xFB)
    case 13 => (
      match c & 15
      case 0 => 0xBC case 1 => 0xAD case 2 => 0xAC case 3 => 0xBD case 4 => 0x9E case 5 => 0x8F case 6 => 0x8E case 7 => 0x9F
      case 8 => 0x9C case 9 => 0x8D case 10 => 0x8C case 11 => 0x9D case 12 => 0xBE case 13 => 0xAF case 14 => 0xAE case _ => 0xBF)
    case 14 => (
      match c & 15
      case 0 => 0xB8 case 1 => 0xA9 case 2 => 0xA8 case 3 => 0xB9 case 4 => 0x9A case 5 => 0x8B case 6 => 0x8A case 7 => 0x9B
      case 8 => 0x98 case 9 => 0x89 case 10 => 0x88 case 11 => 0x99 case 12 => 0xBA case 13 => 0xAB case 14 => 0xAA case _ => 0xBB)
    case _ => (
      match c & 15
      case 0 => 0xFC case 1 => 0xED case 2 => 0xEC case 3 => 0xFD case 4 => 0xDE case 5 => 0xCF case 6 => 0xCE case 7 => 0xDF
      case 8 => 0xDC case 9 => 0xCD case 10 => 0xCC case 11 => 0xDD case 12 => 0xFE case 13 => 0xEF case 14 => 0xEE case _ => 0xFF)
  }

  // Every second chip of eight, as four bits.
  function Gathered(c: bv8): bv8 {
    (c & 1) | ((c >> 1) & 2) | ((c >> 2) & 4) | ((c >> 3) & 8)
  }

  function Decoded(c: bv8): bv8 {
    Gathered(c) | (Gathered(!(c ^ (c >> 1))) << 4)
  }

  // Four bits, each written as its opposite and itself.
  function Encoded(n: bv8): bv8 {
    (((n & 1) | ((n & 2) << 1) | ((n & 4) << 2) | ((n & 8) << 3)) ^ 0xAA)
    ^ (((n & 1) << 1) | ((n & 2) << 2) | ((n & 4) << 3) | ((n & 8) << 4))
  }

  // ----- the tables hold what the code says

  lemma EncodeTableIs(n: bv8)
    ensures EncodeTable(n) == Encoded(n & 15)
  {}

  lemma DecodeTableIs(c: bv8)
    ensures DecodeTable(c) == Decoded(c)
  {}

  // ----- bit by bit

  lemma DecodedData(c: bv8, k: nat)
    requires k < 4
    ensures BitSet(Decoded(c), 4 + k) == BitSet(c, 2 * k + 1)
  {
    match k
    case 0 => case 1 => case 2 => case _ =>
  }

  lemma DecodedErrors(c: bv8, k: nat)
    requires k < 4
    ensures BitSet(Decoded(c), k) == (BitSet(c, 2 * k) == BitSet(c, 2 * k + 1))
  {
    match k
    case 0 => case 1 => case 2 => case _ =>
  }

  lemma EncodedBits(n: bv8, k: nat)
    requires k < 4
    ensures BitSet(Encoded(n & 15), 2 * k + 1) == BitSet(n, 4 + k)
    ensures BitSet(Encoded(n & 15), 2 * k) == !BitSet(n, 4 + k)
  {
    match k
    case 0 => case 1 => case 2 => case _ =>
  }

  lemma HighBits(n: bv8, k: nat)
    requires k < 4
    ensures BitSet(High(n), 4 + k) == BitSet(n, k)
  {
    match k
    case 0 => case 1 => case 2 => case _ =>
  }

  function Joined(high: bv8, low: bv8): bv8 {
    ((high & 0x0F) << 4) | (low & 0x0F)
  }

  function JoinedErrors(high: bv8, low: bv8): bv8 {
    (high & 0xF0) | ((low & 0xF0) >> 4)
  }

  lemma JoinedHighBits(high: bv8, low: bv8, k: nat)
    requires k < 4
    ensures BitSet(Joined(high, low), k) == BitSet(high, 4 + k)
  {
    match k
    case 0 => case 1 => case 2 => case _ =>
  }

  lemma JoinedLowBits(high: bv8, low: bv8, k: nat)
    requires 4 <= k < 8
    ensures BitSet(Joined(high, low), k) == BitSet(low, k)
  {
    match k
    case 4 => case 5 => case 6 => case _ =>
  }

  lemma JoinedErrorBits(high: bv8, low: bv8, k: nat)
    requires k < 8
    ensures BitSet(JoinedErrors(high, low), k) == if k < 4 then BitSet(high, k) else BitSet(low, k - 4)
  {
    match k
    case 0 => case 1 => case 2 => case 3 => case 4 => case 5 => case 6 => case _ =>
  }

  // ----- streams

  ghost predicate IsEncoding(coded: seq<bv8>, data: seq<bv8>) {
    && |coded| == 2 * |data|
    && forall i :: 0 <= i < 8 * |data| ==> Sent(coded, i, BitOf(data, i))
  }

  // The pair of chips for bit i says this bit.
  ghost predicate Sent(coded: seq<bv8>, i: nat, bit: bool)
    requires 2 * i + 1 < 8 * |coded|
  {
    BitOf(coded, 2 * i + 1) == bit && BitOf(coded, 2 * i) == !bit
  }

  // The pair of chips for bit i is one no transmitter sends.
  ghost predicate Dead(coded: seq<bv8>, i: nat)
    requires 2 * i + 1 < 8 * |coded|
  {
    BitOf(coded, 2 * i) == BitOf(coded, 2 * i + 1)
  }

  ghost predicate IsDecoding(coded: seq<bv8>, data: seq<bv8>, errors: seq<bv8>) {
    && |data| == |errors| && 2 * |data| <= |coded|
    && forall i :: 0 <= i < 8 * |data| ==>
      BitOf(data, i) == BitOf(coded, 2 * i + 1) && BitOf(errors, i) == Dead(coded, i)
  }

  // One byte of data against its two bytes of chips.
  lemma DecodedByte(high: bv8, low: bv8, k: nat)
    requires k < 8
    ensures BitSet(Joined(DecodeTable(high), DecodeTable(low)), k)
         == if k < 4 then BitSet(high, 2 * k + 1) else BitSet(low, 2 * k + 1 - 8)
    ensures BitSet(JoinedErrors(DecodeTable(high), DecodeTable(low)), k)
         == if k < 4 then BitSet(high, 2 * k) == BitSet(high, 2 * k + 1)
            else BitSet(low, 2 * k - 8) == BitSet(low, 2 * k + 1 - 8)
  {
    hide DecodeTable, Decoded, Joined, JoinedErrors, BitSet;
    DecodeTableIs(high);
    DecodeTableIs(low);
    if k < 4 { JoinedHighBits(DecodeTable(high), DecodeTable(low), k); }
    else { JoinedLowBits(DecodeTable(high), DecodeTable(low), k); }
    JoinedErrorBits(DecodeTable(high), DecodeTable(low), k);
    DecodedData(if k < 4 then high else low, k % 4);
    DecodedErrors(if k < 4 then high else low, k % 4);
  }

  lemma EncodedByte(n: bv8, k: nat)
    requires k < 8
    ensures var c := if k < 4 then EncodeTable(High(n)) else EncodeTable(n);
      BitSet(c, 2 * (k % 4) + 1) == BitSet(n, k) && BitSet(c, 2 * (k % 4)) == !BitSet(n, k)
  {
    hide EncodeTable, Encoded, BitSet, High;
    EncodeTableIs(n);
    EncodeTableIs(High(n));
    EncodedBits(n, k % 4);
    EncodedBits(High(n), k % 4);
    HighBits(n, k % 4);
  }

  lemma Halves(i: nat)
    ensures 2 * i / 8 == 2 * (i / 8) + (if i % 8 < 4 then 0 else 1)
    ensures (2 * i + 1) / 8 == 2 * (i / 8) + (if i % 8 < 4 then 0 else 1)
    ensures 2 * i % 8 == 2 * (i % 4) && (2 * i + 1) % 8 == 2 * (i % 4) + 1
  {
    var q, r := i / 8, i % 8;
    assert i == 8 * q + r;
    if r < 4 { assert 2 * i == 8 * (2 * q) + 2 * r && i % 4 == r; }
    else { assert 2 * i == 8 * (2 * q + 1) + 2 * (r - 4) && i % 4 == r - 4; }
  }

  // manchester_encode, into the buffer from the given place on.
  method Encode(data: seq<bv8>, out: array<bv8>, at: nat)
    requires at + 2 * |data| <= out.Length
    modifies out
    ensures IsEncoding(out[at..at + 2 * |data|], data)
    ensures out[..at] == old(out[..at]) && out[at + 2 * |data|..] == old(out[at + 2 * |data|..])
  {
    hide EncodeTable, High;
    for i := 0 to |data|
      invariant forall k :: 0 <= k < i ==>
        out[at + 2 * k] == EncodeTable(High(data[k])) && out[at + 2 * k + 1] == EncodeTable(data[k])
      invariant out[..at] == old(out[..at]) && out[at + 2 * |data|..] == old(out[at + 2 * |data|..])
    {
      out[at + 2 * i] := EncodeTable(High(data[i]));
      out[at + 2 * i + 1] := EncodeTable(data[i]);
    }
    TableEncodes(out[at..at + 2 * |data|], data);
  }

  lemma TableEncodes(coded: seq<bv8>, data: seq<bv8>)
    requires |coded| == 2 * |data|
    requires forall k :: 0 <= k < |data| ==>
      coded[2 * k] == EncodeTable(High(data[k])) && coded[2 * k + 1] == EncodeTable(data[k])
    ensures IsEncoding(coded, data)
  {
    hide EncodeTable, High, BitSet;
    forall i | 0 <= i < 8 * |data| ensures Sent(coded, i, BitOf(data, i)) {
      Halves(i);
      EncodedByte(data[i / 8], i % 8);
    }
  }

  // manchester_decode: the data, the erasures, and how many of them.
  method Decode(coded: seq<bv8>, out: array<bv8>, errors: array<bv8>) returns (badBits: nat)
    requires out.Length == errors.Length && out != errors && 2 * out.Length <= |coded|
    modifies out, errors
    ensures IsDecoding(coded, out[..], errors[..])
    ensures badBits == CountSet(errors[..])
  {
    hide DecodeTable, Joined, JoinedErrors, PopCount, IsDecoding;
    badBits := 0;
    for i := 0 to out.Length
      invariant forall k :: 0 <= k < i ==>
        && out[k] == Joined(DecodeTable(coded[2 * k]), DecodeTable(coded[2 * k + 1]))
        && errors[k] == JoinedErrors(DecodeTable(coded[2 * k]), DecodeTable(coded[2 * k + 1]))
      invariant badBits == CountSet(errors[..i])
    {
      var high, low := DecodeTable(coded[2 * i]), DecodeTable(coded[2 * i + 1]);
      out[i] := Joined(high, low);
      errors[i] := JoinedErrors(high, low);
      assert errors[..i + 1][..i] == errors[..i];
      badBits := badBits + PopCount(errors[i]);
    }
    assert errors[..out.Length] == errors[..];
    TableDecodes(coded, out[..], errors[..]);
  }

  lemma TableDecodes(coded: seq<bv8>, data: seq<bv8>, errors: seq<bv8>)
    requires |data| == |errors| && 2 * |data| <= |coded|
    requires forall k :: 0 <= k < |data| ==>
      && data[k] == Joined(DecodeTable(coded[2 * k]), DecodeTable(coded[2 * k + 1]))
      && errors[k] == JoinedErrors(DecodeTable(coded[2 * k]), DecodeTable(coded[2 * k + 1]))
    ensures IsDecoding(coded, data, errors)
  {
    hide DecodeTable, Joined, JoinedErrors, BitSet;
    forall i | 0 <= i < 8 * |data|
      ensures BitOf(data, i) == BitOf(coded, 2 * i + 1) && BitOf(errors, i) == Dead(coded, i)
    {
      Halves(i);
      DecodedByte(coded[2 * (i / 8)], coded[2 * (i / 8) + 1], i % 8);
    }
  }

  // ----- counting

  function PopCount(b: bv8): nat {
    One(b, 0) + One(b, 1) + One(b, 2) + One(b, 3) + One(b, 4) + One(b, 5) + One(b, 6) + One(b, 7)
  }

  function One(b: bv8, k: nat): nat {
    if BitSet(b, k) then 1 else 0
  }

  function CountSet(s: seq<bv8>): nat {
    if |s| == 0 then 0 else CountSet(s[..|s| - 1]) + PopCount(s[|s| - 1])
  }
}
