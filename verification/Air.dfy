/**
 firmware/core/protocol/air: the M-band burst, a 32-bit sync word and a frame, both
 Manchester-coded.  The receiver's detector consumes the first byte of the sync word; the other
 three name the system, and the frame follows.
 */
module Air {
  import opened Pigeonhole
  import opened AdslCrc
  import opened BitSets
  import opened Manchester
  import opened AdslCorrect

  const SYNC_TAIL_BYTES: nat := 3
  const ALPTAS_FRAME_BYTES: nat := 26
  const ADSL_FRAME_BYTES: nat := 24
  const UPLINK_FRAME_BYTES: nat := 255
  const RX_FRAME_BYTES: nat := 29
  const RX_CHIP_BYTES: nat := 58
  const SYNC_TAIL_BITS: nat := 24

  datatype System = Unknown | AdslDirect | Alptas | AdslUplink

  datatype Frame = Frame(system: System, bytes: nat, badChips: nat, data: seq<bv8>, erasures: seq<bv8>)

  // ----- shifting

  function ShiftedIn(high: bv8, low: bv8, rest: nat): bv8 {
    match rest
    case 0 => high
    case 1 => (high << 1) | (low >> 7)
    case 2 => (high << 2) | (low >> 6)
    case 3 => (high << 3) | (low >> 5)
    case 4 => (high << 4) | (low >> 4)
    case 5 => (high << 5) | (low >> 3)
    case 6 => (high << 6) | (low >> 2)
    case _ => (high << 7) | (low >> 1)
  }

  ghost predicate ShiftedBit(high: bv8, low: bv8, rest: nat, k: nat) {
    BitSet(ShiftedIn(high, low, rest), k) == if k + rest < 8 then BitSet(high, k + rest) else BitSet(low, k + rest - 8)
  }

  lemma ShiftedBy0(high: bv8, low: bv8, k: nat) requires k < 8 ensures ShiftedBit(high, low, 0, k) {}
  lemma ShiftedBy1Inside(high: bv8, low: bv8, k: nat) requires k < 7 ensures ShiftedBit(high, low, 1, k) {}
  lemma ShiftedBy1AtEnd(high: bv8, low: bv8, k: nat) requires k == 7 ensures ShiftedBit(high, low, 1, k) {}
  lemma ShiftedBy2(high: bv8, low: bv8, k: nat) requires k < 8 ensures ShiftedBit(high, low, 2, k) {}
  lemma ShiftedBy3(high: bv8, low: bv8, k: nat) requires k < 8 ensures ShiftedBit(high, low, 3, k) {}
  lemma ShiftedBy4(high: bv8, low: bv8, k: nat) requires k < 8 ensures ShiftedBit(high, low, 4, k) {}
  lemma ShiftedBy5(high: bv8, low: bv8, k: nat) requires k < 8 ensures ShiftedBit(high, low, 5, k) {}
  lemma ShiftedBy6(high: bv8, low: bv8, k: nat) requires k < 8 ensures ShiftedBit(high, low, 6, k) {}
  lemma ShiftedBy7(high: bv8, low: bv8, k: nat) requires k < 8 ensures ShiftedBit(high, low, 7, k) {}

  lemma ShiftedByAny(high: bv8, low: bv8, rest: nat, k: nat)
    requires k < 8 && rest < 8
    ensures ShiftedBit(high, low, rest, k)
  {
    hide ShiftedBit;
    match rest
    case 0 => ShiftedBy0(high, low, k);
    case 1 => if k < 7 { ShiftedBy1Inside(high, low, k); } else { ShiftedBy1AtEnd(high, low, k); }
    case 2 => ShiftedBy2(high, low, k); case 3 => ShiftedBy3(high, low, k);
    case 4 => ShiftedBy4(high, low, k); case 5 => ShiftedBy5(high, low, k);
    case 6 => ShiftedBy6(high, low, k); case _ => ShiftedBy7(high, low, k);
  }

  // A bit of the buffer, or zero past its end.
  ghost predicate BitAt(d: seq<bv8>, i: nat) {
    i < 8 * |d| && BitOf(d, i)
  }

  function ByteAt(d: seq<bv8>, i: nat): bv8 {
    if i < |d| then d[i] else 0
  }

  ghost predicate IsShifted(after: seq<bv8>, before: seq<bv8>, bits: nat) {
    |after| == |before| && forall i :: 0 <= i < 8 * |after| ==> BitOf(after, i) == BitAt(before, i + bits)
  }

  lemma BitAtByte(d: seq<bv8>, i: nat)
    ensures BitAt(d, i) == BitSet(ByteAt(d, i / 8), i % 8)
  {
    hide Mask;
    if i >= 8 * |d| { ZeroHasNoBits(i % 8); }
  }

  lemma ZeroHasNoBits(k: nat)
    ensures !BitSet(0, k)
  {}

  ghost function ShiftedByte(before: seq<bv8>, k: nat, bits: nat): bv8 {
    ShiftedIn(ByteAt(before, k + bits / 8), ByteAt(before, k + bits / 8 + 1), bits % 8)
  }

  lemma IsShiftedByte(before: seq<bv8>, k: nat, bits: nat)
    ensures ShiftedByte(before, k, bits)
         == ShiftedIn(ByteAt(before, k + bits / 8), ByteAt(before, k + bits / 8 + 1), bits % 8)
  {
    hide ShiftedIn, ByteAt;
  }

  // The whole buffer moved up, byte by byte in place, zeros entering at the end.
  method ShiftLeft(data: array<bv8>, bits: nat)
    modifies data
    ensures IsShifted(data[..], old(data[..]), bits)
  {
    hide ShiftedIn, IsShifted, ShiftedByte;
    ghost var before := data[..];
    var byteOffset, rest := bits / 8, bits % 8;
    for i := 0 to data.Length
      invariant forall k :: 0 <= k < i ==> data[k] == ShiftedByte(before, k, bits)
      invariant forall k :: i <= k < data.Length ==> data[k] == before[k]
    {
      var source := i + byteOffset;
      var high := if source < data.Length then data[source] else 0;
      var low := if source + 1 < data.Length then data[source + 1] else 0;
      assert high == ByteAt(before, source) && low == ByteAt(before, source + 1);
      data[i] := ShiftedIn(high, low, rest);
      IsShiftedByte(before, i, bits);
    }
    BytesShifted(data[..], before, bits);
  }

  lemma BytesShifted(after: seq<bv8>, before: seq<bv8>, bits: nat)
    requires |after| == |before|
    requires forall k :: 0 <= k < |after| ==> after[k] == ShiftedByte(before, k, bits)
    ensures IsShifted(after, before, bits)
  {
    hide ShiftedIn, BitSet, BitAt, ByteAt;
    forall i | 0 <= i < 8 * |after| ensures BitOf(after, i) == BitAt(before, i + bits) {
      var k := i / 8;
      ShiftedByAny(ByteAt(before, k + bits / 8), ByteAt(before, k + bits / 8 + 1), bits % 8, i % 8);
      BitAtByte(before, i + bits);
      SumPlaces(i, bits);
    }
  }

  lemma SumPlaces(i: nat, j: nat)
    ensures (i + j) / 8 == i / 8 + j / 8 + (if i % 8 + j % 8 < 8 then 0 else 1)
    ensures (i + j) % 8 == i % 8 + j % 8 - (if i % 8 + j % 8 < 8 then 0 else 8)
  {}

  // ----- the sync word

  function WordByte(word: bv32, k: nat): bv8 {
    match k
    case 0 => ((word >> 24) & 0xFF) as bv8
    case 1 => ((word >> 16) & 0xFF) as bv8
    case 2 => ((word >> 8) & 0xFF) as bv8
    case _ => (word & 0xFF) as bv8
  }

  const ADSL_SYNC_WORD: bv32 := 0xF5724B18
  const ALPTAS_SYNC_WORD: bv32 := 0xF531FAB6

  function Tail(word: bv32): (t: seq<bv8>)
    ensures |t| == SYNC_TAIL_BYTES
  {
    [WordByte(word, 1), WordByte(word, 2), WordByte(word, 3)]
  }

  // How many of the first 24 bits are not the sync word's.
  function TailErrors(data: seq<bv8>, word: bv32): nat
    requires |data| >= SYNC_TAIL_BYTES
  {
    CountSet(TailDifference(data, word))
  }

  function TailDifference(data: seq<bv8>, word: bv32): (t: seq<bv8>)
    requires |data| >= SYNC_TAIL_BYTES
    ensures |t| == SYNC_TAIL_BYTES
  {
    [Xor8(data[0], Tail(word)[0]), Xor8(data[1], Tail(word)[1]), Xor8(data[2], Tail(word)[2])]
  }

  function SystemOf(data: seq<bv8>): System
    requires |data| >= SYNC_TAIL_BYTES
  {
    if TailErrors(data, ADSL_SYNC_WORD) <= 1 then AdslDirect
    else if TailErrors(data, ALPTAS_SYNC_WORD) <= 1 then Alptas
    else Unknown
  }

  function FrameBytes(system: System): nat {
    match system
    case AdslDirect => ADSL_FRAME_BYTES
    case Alptas => ALPTAS_FRAME_BYTES
    case AdslUplink => UPLINK_FRAME_BYTES
    case Unknown => 0
  }

  // ----- counting bits as sets of places

  lemma {:induction false} MarkedPrefix(s: seq<bv8>, t: seq<bv8>, n: nat)
    requires n <= 8 * |s| && n <= 8 * |t| && forall i :: 0 <= i < n ==> BitOf(s, i) == BitOf(t, i)
    ensures Marked(s, n) == Marked(t, n)
  {
    hide BitOf;
    if n > 0 {
      MarkedPrefix(s, t, n - 1);
    }
  }

  lemma {:induction false} CountIsMarked(s: seq<bv8>)
    ensures CountSet(s) == |Marked(s, 8 * |s|)|
  {
    if |s| > 0 {
      hide BitSet, PopCount;
      var n := |s| - 1;
      hide BitOf;
      CountIsMarked(s[..n]);
      forall i: nat | i < 8 * n ensures BitOf(s, i) == BitOf(s[..n], i) {
        PrefixBits(s, n, i);
      }
      MarkedPrefix(s, s[..n], 8 * n);
      ByteMarked(s, n, 8);
      OnesArePopCount(s[n]);
    }
  }

  lemma OnesArePopCount(b: bv8)
    ensures Ones8(b, 8) == PopCount(b)
  {
    hide One;
    assert Ones8(b, 1) == One(b, 0);
    assert Ones8(b, 2) == One(b, 0) + One(b, 1);
    assert Ones8(b, 4) == One(b, 0) + One(b, 1) + One(b, 2) + One(b, 3);
    assert Ones8(b, 6) == Ones8(b, 4) + One(b, 4) + One(b, 5);
  }

  ghost function Ones8(b: bv8, k: nat): nat {
    if k == 0 then 0 else Ones8(b, k - 1) + One(b, k - 1)
  }

  lemma {:induction false} ByteMarked(s: seq<bv8>, n: nat, k: nat)
    requires n < |s| && k <= 8
    ensures |Marked(s, 8 * n + k)| == |Marked(s, 8 * n)| + Ones8(s[n], k)
  {
    hide BitSet;
    if k > 0 {
      ByteMarked(s, n, k - 1);
      assert (8 * n + k - 1) / 8 == n && (8 * n + k - 1) % 8 == k - 1;
    }
  }

  ghost function SetBits(s: seq<bv8>): set<nat> {
    set i | i in Range(8 * |s|) && BitOf(s, i)
  }

  lemma {:induction false} MarkedHas(s: seq<bv8>, n: nat, x: nat)
    requires n <= 8 * |s|
    ensures x in Marked(s, n) <==> x < n && BitOf(s, x)
  {
    hide BitOf;
    if n > 0 {
      MarkedHas(s, n - 1, x);
    }
  }

  lemma CountIsSize(s: seq<bv8>)
    ensures CountSet(s) == |SetBits(s)|
  {
    hide BitOf, SetBits;
    var m := Marked(s, 8 * |s|);
    CountIsMarked(s);
    MarkedDistinct(s, 8 * |s|);
    ElementsSize(m);
    forall x: nat ensures x in Elements(m) <==> x in SetBits(s) {
      MarkedHas(s, 8 * |s|, x);
      InSetBits(s, x);
    }
    assert Elements(m) == SetBits(s);
  }

  // ----- naming the system

  // The tail bits the chips get wrong.
  ghost function WrongTail(chips: seq<bv8>, word: bv32): set<nat>
    requires |chips| >= RX_CHIP_BYTES
  {
    set i | i in Range(SYNC_TAIL_BITS) && BitOf(chips, 2 * i + 1) != BitOf(Tail(word), i)
  }

  lemma XorBits(a: bv8, b: bv8, k: nat)
    requires k < 8
    ensures BitSet(Xor8(a, b), k) == (BitSet(a, k) != BitSet(b, k))
  {
    hide Mask, Single, Xor8, Meets;
    MaskCases(k);
    XorMeets(a, b, Mask(k));
  }

  lemma XorMeets(a: bv8, b: bv8, m: bv8)
    requires Single(m)
    ensures Meets(Xor8(a, b), m) == (Meets(a, m) != Meets(b, m))
  {
    assert (a ^ b) & m == (a & m) ^ (b & m);
    assert (a & m == 0 || a & m == m) && (b & m == 0 || b & m == m);
  }

  lemma TailErrorsAreWrong(chips: seq<bv8>, data: seq<bv8>, errors: seq<bv8>, word: bv32)
    requires |chips| >= RX_CHIP_BYTES && |data| == RX_FRAME_BYTES && IsDecoding(chips, data, errors)
    ensures TailErrors(data, word) == |WrongTail(chips, word)|
  {
    hide BitOf, TailDifference, CountSet, Tail, IsDecoding, SetBits, WrongTail;
    var t := TailDifference(data, word);
    CountIsSize(t);
    forall i: nat ensures i in SetBits(t) <==> i in WrongTail(chips, word) {
      InSetBits(t, i);
      InWrongTail(chips, word, i);
      if i < SYNC_TAIL_BITS {
        TailBit(chips, data, errors, word, i);
      }
    }
    assert SetBits(t) == WrongTail(chips, word);
  }

  lemma InSetBits(s: seq<bv8>, i: nat)
    ensures i in SetBits(s) <==> i < 8 * |s| && BitOf(s, i)
  {
    hide BitOf;
  }

  lemma InWrongTail(chips: seq<bv8>, word: bv32, i: nat)
    requires |chips| >= RX_CHIP_BYTES
    ensures i in WrongTail(chips, word) <==> i < SYNC_TAIL_BITS && BitOf(chips, 2 * i + 1) != BitOf(Tail(word), i)
  {
    hide BitOf, Tail, Range;
  }

  lemma TailBit(chips: seq<bv8>, data: seq<bv8>, errors: seq<bv8>, word: bv32, i: nat)
    requires |chips| >= RX_CHIP_BYTES && |data| == RX_FRAME_BYTES && IsDecoding(chips, data, errors)
    requires i < SYNC_TAIL_BITS
    ensures BitOf(TailDifference(data, word), i) == (BitOf(chips, 2 * i + 1) != BitOf(Tail(word), i))
  {
    hide BitOf, TailDifference, Tail;
    DifferenceBit(data, word, i);
    assert BitOf(data, i) == BitOf(chips, 2 * i + 1);
  }

  lemma DifferenceBit(data: seq<bv8>, word: bv32, i: nat)
    requires |data| >= SYNC_TAIL_BYTES && i < SYNC_TAIL_BITS
    ensures BitOf(TailDifference(data, word), i) == (BitOf(data, i) != BitOf(Tail(word), i))
  {
    hide BitSet, Xor8, Tail;
    var t := Tail(word);
    XorBits(data[i / 8], t[i / 8], i % 8);
    assert i / 8 == 0 || i / 8 == 1 || i / 8 == 2;
  }

  ghost predicate DifferAt(i: nat)
    requires i < SYNC_TAIL_BITS
  {
    BitOf(Tail(ADSL_SYNC_WORD), i) != BitOf(Tail(ALPTAS_SYNC_WORD), i)
  }

  lemma TailsDiffer()
    ensures DifferAt(1) && DifferAt(6) && DifferAt(7)
  {
    assert WordByte(ADSL_SYNC_WORD, 1) == 0x72;
    assert WordByte(ALPTAS_SYNC_WORD, 1) == 0x31;
  }

  // No chips are within one bit of both sync words, so one wrong bit never turns a name around.
  lemma NamesNeverCross(chips: seq<bv8>)
    requires |chips| >= RX_CHIP_BYTES
    ensures |WrongTail(chips, ADSL_SYNC_WORD)| + |WrongTail(chips, ALPTAS_SYNC_WORD)| >= 3
  {
    hide WrongTail, DifferAt;
    TailsDiffer();
    var a, p := WrongTail(chips, ADSL_SYNC_WORD), WrongTail(chips, ALPTAS_SYNC_WORD);
    WrongInOne(chips, 1);
    WrongInOne(chips, 6);
    WrongInOne(chips, 7);
    SubsetSize({1, 6, 7}, a + p);
    assert |a + p| + |a * p| == |a| + |p|;
  }

  lemma WrongInOne(chips: seq<bv8>, i: nat)
    requires |chips| >= RX_CHIP_BYTES && i < SYNC_TAIL_BITS && DifferAt(i)
    ensures i in WrongTail(chips, ADSL_SYNC_WORD) + WrongTail(chips, ALPTAS_SYNC_WORD)
  {
    hide BitOf, Range;
  }

  // The name a burst gets, from its tail bits alone.
  ghost function NameOf(chips: seq<bv8>): System
    requires |chips| >= RX_CHIP_BYTES
  {
    if |WrongTail(chips, ADSL_SYNC_WORD)| <= 1 then AdslDirect
    else if |WrongTail(chips, ALPTAS_SYNC_WORD)| <= 1 then Alptas
    else Unknown
  }

  lemma OneWrongBitKeepsTheName(chips: seq<bv8>)
    requires |chips| >= RX_CHIP_BYTES
    ensures |WrongTail(chips, ADSL_SYNC_WORD)| <= 1 <==> NameOf(chips) == AdslDirect
    ensures |WrongTail(chips, ALPTAS_SYNC_WORD)| <= 1 <==> NameOf(chips) == Alptas
  {
    hide WrongTail;
    NamesNeverCross(chips);
  }

  // ----- receiving

  // The frame behind the sync tail: each bit its pair's second chip, erased exactly when dead.
  ghost predicate Framed(chips: seq<bv8>, frame: Frame) {
    && |chips| >= RX_CHIP_BYTES && |frame.data| == |frame.erasures| == RX_FRAME_BYTES
    && forall i :: 0 <= i < 8 * ALPTAS_FRAME_BYTES ==>
      && BitOf(frame.data, i) == BitOf(chips, 2 * (SYNC_TAIL_BITS + i) + 1)
      && BitOf(frame.erasures, i) == Dead(chips, SYNC_TAIL_BITS + i)
  }

  ghost function DeadPairs(chips: seq<bv8>, bytes: nat): set<nat>
    requires |chips| >= RX_CHIP_BYTES && bytes <= ALPTAS_FRAME_BYTES
  {
    set i | i in Range(8 * bytes) && Dead(chips, SYNC_TAIL_BITS + i)
  }

  // A frame as it is handed on: named by its tail, as long as its system's frames are, 24 bytes or
  // 26, and its bad chips counted over that length and no further.
  ghost predicate IsHandedOn(chips: seq<bv8>, out: Frame)
    requires |chips| >= RX_CHIP_BYTES
  {
    && out.system == NameOf(chips) && (out.system == AdslDirect || out.system == Alptas) && Framed(chips, out)
    && out.bytes == (if out.system == AdslDirect then 24 else 26)
    && out.badChips == |DeadPairs(chips, out.bytes)|
  }

  method ReceiveMBand(chips: seq<bv8>) returns (ok: bool, out: Frame)
    ensures |chips| < 58 ==> !ok && out.system == Unknown
    ensures |chips| >= 58 ==> out.system == NameOf(chips) && (ok <==> out.system != Unknown)
    ensures ok ==> IsHandedOn(chips, out)
  {
    hide IsDecoding, BitOf, TailErrors, WrongTail, IsShifted, PopCount, Framed, DeadPairs;
    var data, erasures := new bv8[RX_FRAME_BYTES](_ => 0), new bv8[RX_FRAME_BYTES](_ => 0);
    if |chips| < RX_CHIP_BYTES {
      return false, Frame(Unknown, 0, 0, data[..], erasures[..]);
    }
    var _ := Decode(chips, data, erasures);
    ghost var d, e := data[..], erasures[..];
    var system := SystemOf(data[..]);
    TailErrorsAreWrong(chips, d, e, ADSL_SYNC_WORD);
    TailErrorsAreWrong(chips, d, e, ALPTAS_SYNC_WORD);
    if system == Unknown {
      return false, Frame(Unknown, 0, 0, data[..], erasures[..]);
    }
    ShiftLeft(data, SYNC_TAIL_BITS);
    ShiftLeft(erasures, SYNC_TAIL_BITS);
    var bytes, badChips := FrameBytes(system), 0;
    for i := 0 to bytes
      invariant badChips == CountSet(erasures[..i])
    {
      assert erasures[..i + 1][..i] == erasures[..i];
      badChips := badChips + PopCount(erasures[i]);
    }
    ok, out := true, Frame(system, bytes, badChips, data[..], erasures[..]);
    ShiftFrames(chips, d, e, out);
    ErasuresAreDead(chips, out, bytes);
  }

  lemma ShiftFrames(chips: seq<bv8>, d: seq<bv8>, e: seq<bv8>, out: Frame)
    requires |chips| >= RX_CHIP_BYTES && |d| == RX_FRAME_BYTES && IsDecoding(chips, d, e)
    requires IsShifted(out.data, d, SYNC_TAIL_BITS) && IsShifted(out.erasures, e, SYNC_TAIL_BITS)
    ensures Framed(chips, out)
  {
    hide BitOf, Dead;
    forall i | 0 <= i < 8 * ALPTAS_FRAME_BYTES
      ensures BitOf(out.data, i) == BitOf(chips, 2 * (SYNC_TAIL_BITS + i) + 1)
      ensures BitOf(out.erasures, i) == Dead(chips, SYNC_TAIL_BITS + i)
    {
      assert BitOf(out.data, i) == BitAt(d, i + SYNC_TAIL_BITS);
      assert BitOf(out.erasures, i) == BitAt(e, i + SYNC_TAIL_BITS);
    }
  }

  lemma ErasuresAreDead(chips: seq<bv8>, out: Frame, bytes: nat)
    requires Framed(chips, out) && bytes <= ALPTAS_FRAME_BYTES
    ensures SetBits(out.erasures[..bytes]) == DeadPairs(chips, bytes)
    ensures CountSet(out.erasures[..bytes]) == |DeadPairs(chips, bytes)|
  {
    hide BitSet, Dead, CountSet;
    CountIsSize(out.erasures[..bytes]);
    forall i: nat | i < 8 * bytes ensures BitOf(out.erasures[..bytes], i) == Dead(chips, SYNC_TAIL_BITS + i) {
      assert BitOf(out.erasures, i) == Dead(chips, SYNC_TAIL_BITS + i);
    }
  }

  // ----- sending

  // The bits behind the window: the rest of the sync word, then the frame.
  function Payload(word: bv32, frame: seq<bv8>): seq<bv8> {
    Tail(word) + frame
  }

  method MBandPayload(word: bv32, frame: seq<bv8>, chips: array<bv8>, at: nat) returns (size: nat)
    requires at + 2 * (SYNC_TAIL_BYTES + |frame|) <= chips.Length
    modifies chips
    ensures size == 2 * (SYNC_TAIL_BYTES + |frame|)
    ensures IsEncoding(chips[at..at + size], Payload(word, frame))
    ensures chips[..at] == old(chips[..at]) && chips[at + size..] == old(chips[at + size..])
  {
    hide IsEncoding, WordByte;
    var tail := [WordByte(word, 1), WordByte(word, 2), WordByte(word, 3)];
    Encode(tail, chips, at);
    ghost var first := chips[at..at + 6];
    Encode(frame, chips, at + 6);
    assert chips[..at + 6][at..] == first;
    size := 6 + 2 * |frame|;
    assert chips[at..at + size] == first + chips[at + 6..at + 6 + 2 * |frame|];
    EncodingsJoin(first, tail, chips[at + 6..at + 6 + 2 * |frame|], frame);
  }

  method EncodeMBand(word: bv32, frame: seq<bv8>, chips: array<bv8>) returns (size: nat)
    requires 2 + 2 * (SYNC_TAIL_BYTES + |frame|) <= chips.Length
    modifies chips
    ensures size == 2 + 2 * (SYNC_TAIL_BYTES + |frame|)
    ensures IsEncoding(chips[..size], [WordByte(word, 0)] + Payload(word, frame))
  {
    hide IsEncoding, WordByte;
    Encode([WordByte(word, 0)], chips, 0);
    ghost var window := chips[0..2];
    size := MBandPayload(word, frame, chips, 2);
    assert chips[..2] == window;
    ghost var rest := chips[2..2 + size];
    size := 2 + size;
    assert chips[..size] == window + rest;
    EncodingsJoin(window, [WordByte(word, 0)], rest, Payload(word, frame));
  }

  lemma EncodingsJoin(a: seq<bv8>, x: seq<bv8>, b: seq<bv8>, y: seq<bv8>)
    requires IsEncoding(a, x) && IsEncoding(b, y)
    ensures IsEncoding(a + b, x + y)
  {
    hide BitSet;
    forall i | 0 <= i < 8 * |x + y| ensures Sent(a + b, i, BitOf(x + y, i)) {
      if i < 8 * |x| {
        assert Sent(a, i, BitOf(x, i));
      } else {
        var j := i - 8 * |x|;
        assert Sent(b, j, BitOf(y, j));
        Halves(i);
        Halves(j);
        assert i / 8 == |x| + j / 8 && i % 8 == j % 8;
      }
    }
  }

  // ----- sent and received

  // What reached the detector's far side of a burst: every pair of the frame as it was sent, or
  // dead, or (at the places of wrong) taken for the other bit; at most one wrong bit in the tail.
  ghost predicate Heard(chips: seq<bv8>, word: bv32, frame: seq<bv8>, wrong: set<nat>)
    requires |chips| >= RX_CHIP_BYTES && |frame| <= ALPTAS_FRAME_BYTES
  {
    && |WrongTail(chips, word)| <= 1
    && forall i: nat :: i < 8 * |frame| && i !in wrong ==>
      Sent(chips, SYNC_TAIL_BITS + i, BitOf(frame, i)) || Dead(chips, SYNC_TAIL_BITS + i)
  }

  lemma BitOfJoined(a: seq<bv8>, b: seq<bv8>, i: nat)
    requires i < 8 * |a + b|
    ensures BitOf(a + b, i) == if i < 8 * |a| then BitOf(a, i) else BitOf(b, i - 8 * |a|)
  {
    hide BitSet;
    if i >= 8 * |a| {
      var j := i - 8 * |a|;
      assert i / 8 == |a| + j / 8 && i % 8 == j % 8;
    }
  }

  // A pair of the burst, found two bytes of chips earlier once the window is gone.
  lemma WindowTaken(chips: seq<bv8>, sent: seq<bv8>, i: nat)
    requires 2 <= |sent| && sent[2..] <= chips && 2 * (i + 8) + 1 < 8 * |sent|
    ensures 2 * i + 1 < 8 * |chips|
    ensures BitOf(chips, 2 * i) == BitOf(sent, 2 * (i + 8)) && BitOf(chips, 2 * i + 1) == BitOf(sent, 2 * (i + 8) + 1)
  {
    hide BitSet;
    assert |sent[2..]| == |sent| - 2;
    ByteEarlier(chips, sent, 2 * i);
    ByteEarlier(chips, sent, 2 * i + 1);
  }

  lemma ByteEarlier(chips: seq<bv8>, sent: seq<bv8>, j: nat)
    requires 2 <= |sent| && sent[2..] <= chips && j + 16 < 8 * |sent|
    ensures j < 8 * |chips| && BitOf(chips, j) == BitOf(sent, j + 16)
  {
    hide BitSet;
    assert (j + 16) / 8 == j / 8 + 2 && (j + 16) % 8 == j % 8;
    assert chips[j / 8] == sent[2..][j / 8];
  }

  // The detector takes the window, whatever chips follow the burst come after it.
  lemma UndamagedIsHeard(chips: seq<bv8>, word: bv32, frame: seq<bv8>, sent: seq<bv8>)
    requires |chips| >= RX_CHIP_BYTES && |frame| <= ALPTAS_FRAME_BYTES
    requires IsEncoding(sent, [WordByte(word, 0)] + Payload(word, frame))
    requires sent[2..] <= chips
    ensures Heard(chips, word, frame, {})
    ensures DeadPairs(chips, |frame|) == {}
  {
    hide BitOf, WordByte, Tail, Payload, Dead, DeadPairs, WrongTail, Sent, IsEncoding;
    NoWrongTail(chips, word, frame, sent);
    NoDeadPairs(chips, word, frame, sent);
    forall i: nat | i < 8 * |frame| ensures Sent(chips, SYNC_TAIL_BITS + i, BitOf(frame, i)) {
      PayloadPair(chips, word, frame, sent, SYNC_TAIL_BITS + i);
    }
  }

  lemma NoWrongTail(chips: seq<bv8>, word: bv32, frame: seq<bv8>, sent: seq<bv8>)
    requires |chips| >= RX_CHIP_BYTES && IsEncoding(sent, [WordByte(word, 0)] + Payload(word, frame))
    requires sent[2..] <= chips
    ensures WrongTail(chips, word) == {}
  {
    hide BitOf, WordByte, Tail, Payload, Dead, IsEncoding, WrongTail;
    if WrongTail(chips, word) != {} {
      var i :| i in WrongTail(chips, word);
      InWrongTail(chips, word, i);
      PayloadPair(chips, word, frame, sent, i);
      assert false;
    }
  }

  lemma NoDeadPairs(chips: seq<bv8>, word: bv32, frame: seq<bv8>, sent: seq<bv8>)
    requires |chips| >= RX_CHIP_BYTES && |frame| <= ALPTAS_FRAME_BYTES
    requires IsEncoding(sent, [WordByte(word, 0)] + Payload(word, frame))
    requires sent[2..] <= chips
    ensures DeadPairs(chips, |frame|) == {}
  {
    hide BitOf, WordByte, Tail, Payload, Dead, IsEncoding, Sent;
    if DeadPairs(chips, |frame|) != {} {
      var i :| i in DeadPairs(chips, |frame|);
      PayloadPair(chips, word, frame, sent, SYNC_TAIL_BITS + i);
      assert false;
    }
  }

  lemma PayloadPair(chips: seq<bv8>, word: bv32, frame: seq<bv8>, sent: seq<bv8>, i: nat)
    requires IsEncoding(sent, [WordByte(word, 0)] + Payload(word, frame))
    requires sent[2..] <= chips && i < SYNC_TAIL_BITS + 8 * |frame|
    ensures 2 * i + 1 < 8 * |chips|
    ensures Sent(chips, i, if i < SYNC_TAIL_BITS then BitOf(Tail(word), i) else BitOf(frame, i - SYNC_TAIL_BITS))
    ensures !Dead(chips, i)
  {
    hide BitOf, WordByte, Tail;
    var p := Payload(word, frame);
    assert Sent(sent, i + 8, BitOf([WordByte(word, 0)] + p, i + 8));
    BitOfJoined([WordByte(word, 0)], p, i + 8);
    BitOfJoined(Tail(word), frame, i);
    WindowTaken(chips, sent, i);
  }

  // A frame heard comes back under its own name, wrong only where pairs were dead or turned.
  lemma HeardIsReceived(chips: seq<bv8>, word: bv32, frame: seq<bv8>, wrong: set<nat>, out: Frame)
    requires |chips| >= RX_CHIP_BYTES && |frame| <= ALPTAS_FRAME_BYTES && Heard(chips, word, frame, wrong)
    requires word == 0xF5724B18 || word == 0xF531FAB6
    requires IsHandedOn(chips, out)
    ensures out.system == if word == 0xF5724B18 then AdslDirect else Alptas
    ensures forall i: nat :: i < 8 * |frame| && BitOf(out.data, i) != BitOf(frame, i) ==>
      i in wrong || BitOf(out.erasures, i)
    ensures |frame| == (if word == 0xF5724B18 then 24 else 26) ==>
      out.bytes == |frame| && out.badChips == |DeadPairs(chips, |frame|)|
  {
    hide BitOf, WrongTail, NameOf, DeadPairs;
    OneWrongBitKeepsTheName(chips);
    forall i: nat | i < 8 * |frame| && BitOf(out.data, i) != BitOf(frame, i)
      ensures i in wrong || BitOf(out.erasures, i)
    {
      assert BitOf(out.erasures, i) == Dead(chips, SYNC_TAIL_BITS + i);
    }
  }

  // Nothing dead, nothing turned: the frame itself, and no erasures in it; and of a frame as long as
  // its system's are, no bad chip is counted, whatever chips came behind it.
  lemma UndamagedComesBack(chips: seq<bv8>, word: bv32, frame: seq<bv8>, sent: seq<bv8>, out: Frame)
    requires |chips| >= RX_CHIP_BYTES && |frame| <= ALPTAS_FRAME_BYTES
    requires word == 0xF5724B18 || word == 0xF531FAB6
    requires IsEncoding(sent, [WordByte(word, 0)] + Payload(word, frame)) && sent[2..] <= chips
    requires IsHandedOn(chips, out)
    ensures out.system == if word == 0xF5724B18 then AdslDirect else Alptas
    ensures out.data[..|frame|] == frame && DeadPairs(chips, |frame|) == {}
    ensures |frame| == (if word == 0xF5724B18 then 24 else 26) ==> out.bytes == |frame| && out.badChips == 0
  {
    hide BitOf, WrongTail, NameOf, Sent, Dead, Heard, IsEncoding, Framed, DeadPairs, Payload;
    UndamagedIsHeard(chips, word, frame, sent);
    HeardIsReceived(chips, word, frame, {}, out);
    FramedSize(chips, out);
    forall i: nat | i < 8 * |frame| ensures BitOf(out.data, i) == BitOf(frame, i) {
      NotDeadNotErased(chips, out, |frame|, i);
    }
    EqualFromBits(out.data, frame);
  }

  lemma UndamagedIsNamed(chips: seq<bv8>, word: bv32, frame: seq<bv8>, sent: seq<bv8>)
    requires |chips| >= RX_CHIP_BYTES && |frame| <= ALPTAS_FRAME_BYTES
    requires word == 0xF5724B18 || word == 0xF531FAB6
    requires IsEncoding(sent, [WordByte(word, 0)] + Payload(word, frame)) && sent[2..] <= chips
    ensures NameOf(chips) == if word == 0xF5724B18 then AdslDirect else Alptas
  {
    hide BitOf, WrongTail, NameOf, Sent, Dead, IsEncoding, DeadPairs, Payload;
    UndamagedIsHeard(chips, word, frame, sent);
    OneWrongBitKeepsTheName(chips);
  }

  // A burst sent for either system and heard behind its window: the frame, its length, and no damage.
  method SendAndReceive(word: bv32, frame: seq<bv8>, behind: seq<bv8>) returns (ok: bool, out: Frame)
    requires (word == 0xF5724B18 && |frame| == 24) || (word == 0xF531FAB6 && |frame| == 26)
    requires 6 + 2 * |frame| + |behind| >= 58
    ensures ok && out.system == (if word == 0xF5724B18 then AdslDirect else Alptas)
    ensures out.bytes == |frame| && out.badChips == 0 && |out.data| == 29 && out.data[..|frame|] == frame
  {
    hide IsEncoding, IsHandedOn, WordByte, Payload, NameOf;
    var chips := new bv8[8 + 2 * |frame|](_ => 0);
    var size := EncodeMBand(word, frame, chips);
    ghost var sent := chips[..size];
    assert chips[2..size] == sent[2..];
    var heard := chips[2..size] + behind;
    UndamagedIsNamed(heard, word, frame, sent);
    ok, out := ReceiveMBand(heard);
    UndamagedComesBack(heard, word, frame, sent, out);
    HandedOnSize(heard, out);
  }

  lemma HandedOnSize(chips: seq<bv8>, out: Frame)
    requires |chips| >= RX_CHIP_BYTES && IsHandedOn(chips, out)
    ensures |out.data| == |out.erasures| == RX_FRAME_BYTES
  {
    hide BitOf, Dead, NameOf, DeadPairs;
  }

  lemma FramedSize(chips: seq<bv8>, out: Frame)
    requires Framed(chips, out)
    ensures |out.data| == |out.erasures| == RX_FRAME_BYTES && |chips| >= RX_CHIP_BYTES
  {
    hide BitOf, Dead;
  }

  lemma NotDeadNotErased(chips: seq<bv8>, out: Frame, bytes: nat, i: nat)
    requires Framed(chips, out) && bytes <= ALPTAS_FRAME_BYTES && DeadPairs(chips, bytes) == {} && i < 8 * bytes
    ensures !BitOf(out.erasures, i)
  {
    hide BitOf, Dead;
    assert BitOf(out.erasures, i) == Dead(chips, SYNC_TAIL_BITS + i);
    assert i !in DeadPairs(chips, bytes);
  }

  lemma EqualFromBits(a: seq<bv8>, b: seq<bv8>)
    requires |b| <= |a| && forall i: nat :: i < 8 * |b| ==> BitOf(a, i) == BitOf(b, i)
    ensures a[..|b|] == b
  {
    hide BitSet;
    forall i | 0 <= i < |b| ensures a[i] == b[i] {
      forall k: nat | k < 8 ensures BitSet(a[i], k) == BitSet(b[i], k) {
        var bit := 8 * i + k;
        assert bit / 8 == i && bit % 8 == k;
        assert BitOf(a, bit) == BitOf(b, bit);
      }
      ByteFromBits(a[i], b[i]);
    }
  }

  // An ADS-L frame that was clean, heard with at most six dead pairs and one bit turned besides,
  // is within correct's reach: its contract then gives a clean block.
  lemma HeardIsRepairable(chips: seq<bv8>, frame: seq<bv8>, wrong: set<nat>, out: Frame)
    requires |chips| >= RX_CHIP_BYTES && IsClean(frame) && Heard(chips, ADSL_SYNC_WORD, frame, wrong)
    requires IsHandedOn(chips, out)
    requires |DeadPairs(chips, ADSL_FRAME_BYTES)| <= 6 && |wrong| <= 1
    ensures out.system == AdslDirect
    ensures Repairable(out.data[..ADSL_FRAME_BYTES], Sweepable(out.erasures[..ADSL_FRAME_BYTES], 6))
  {
    hide BitOf, WrongTail, NameOf, Check;
    HeardIsReceived(chips, ADSL_SYNC_WORD, frame, wrong, out);
    var d, e := out.data[..ADSL_FRAME_BYTES], out.erasures[..ADSL_FRAME_BYTES];
    ErasuresAreDead(chips, out, ADSL_FRAME_BYTES);
    CountIsMarked(e);
    assert |Marked(e, BITS)| <= 6;
    MarkedDistinct(e, BITS);
    ElementsSize(Marked(e, BITS));
    assert Sweepable(e, 6) == MarkedSet(e);
    forall i | i in Changed(d, frame) ensures i in MarkedSet(e) + wrong {
      PrefixBits(out.data, ADSL_FRAME_BYTES, i);
      PrefixBits(out.erasures, ADSL_FRAME_BYTES, i);
      MarkedHas(e, BITS, i);
    }
    assert Within(d, frame, MarkedSet(e));
  }

  lemma PrefixBits(s: seq<bv8>, n: nat, i: nat)
    requires n <= |s| && i < 8 * n
    ensures BitOf(s[..n], i) == BitOf(s, i)
  {}

  // A clean block as it was heard: at most six dead pairs in it and one bit turned besides.
  ghost predicate HeardBlock(chips: seq<bv8>, frame: seq<bv8>, wrong: set<nat>)
    requires |chips| >= RX_CHIP_BYTES
  {
    && IsClean(frame) && Heard(chips, ADSL_SYNC_WORD, frame, wrong)
    && |DeadPairs(chips, ADSL_FRAME_BYTES)| <= 6 && |wrong| <= 1
  }

  // Heard with nothing dead, the block received is at most one bit from the one sent.
  lemma HeardIsNear(chips: seq<bv8>, frame: seq<bv8>, wrong: set<nat>, out: Frame)
    requires |chips| >= RX_CHIP_BYTES && HeardBlock(chips, frame, wrong) && DeadPairs(chips, ADSL_FRAME_BYTES) == {}
    requires IsHandedOn(chips, out)
    ensures |Changed(out.data[..ADSL_FRAME_BYTES], frame)| <= 1
  {
    hide BitOf, WrongTail, NameOf, Check, DeadPairs, Heard, Dead;
    HeardIsReceived(chips, ADSL_SYNC_WORD, frame, wrong, out);
    var d := out.data[..ADSL_FRAME_BYTES];
    forall i | i in Changed(d, frame) ensures i in wrong {
      PrefixBits(out.data, ADSL_FRAME_BYTES, i);
      NotDeadNotErased(chips, out, ADSL_FRAME_BYTES, i);
    }
    SubsetSize(Changed(d, frame), wrong);
  }

  // What a block heard is to correct: repairable, and with nothing dead one bit away.
  ghost predicate InReach(chips: seq<bv8>, frame: seq<bv8>, d: seq<bv8>, e: seq<bv8>)
    requires |chips| >= RX_CHIP_BYTES && |d| == |e| == ADSL_FRAME_BYTES
  {
    && Repairable(d, Sweepable(e, 6))
    && (DeadPairs(chips, ADSL_FRAME_BYTES) == {} ==> IsClean(frame) && |Changed(d, frame)| <= 1)
  }

  lemma HeardIsInReach(chips: seq<bv8>, frame: seq<bv8>, wrong: set<nat>, out: Frame)
    requires |chips| >= RX_CHIP_BYTES && HeardBlock(chips, frame, wrong)
    requires IsHandedOn(chips, out)
    ensures out.system == AdslDirect
    ensures InReach(chips, frame, out.data[..ADSL_FRAME_BYTES], out.erasures[..ADSL_FRAME_BYTES])
  {
    hide Heard, Framed, Check, Changed, DeadPairs, NameOf;
    FramedSize(chips, out);
    HeardIsRepairable(chips, frame, wrong, out);
    if DeadPairs(chips, ADSL_FRAME_BYTES) == {} { HeardIsNear(chips, frame, wrong, out); }
  }

  lemma HeardIsNamed(chips: seq<bv8>, frame: seq<bv8>, wrong: set<nat>)
    requires |chips| >= RX_CHIP_BYTES && HeardBlock(chips, frame, wrong)
    ensures NameOf(chips) == AdslDirect
  {
    hide WrongTail, Check, DeadPairs, BitOf;
  }

  // From chips to a clean block, as the traffic service's decode_adsl does it: what it takes was
  // named ADS-L and is clean, no block heard is ever lost, and with no pair dead it is the very
  // block that was sent.
  method ReceiveAdsl(chips: seq<bv8>) returns (ok: bool, block: seq<bv8>)
    ensures ok ==> |chips| >= RX_CHIP_BYTES && NameOf(chips) == AdslDirect && IsClean(block)
    ensures |chips| >= RX_CHIP_BYTES ==> forall frame, wrong :: HeardBlock(chips, frame, wrong) ==>
      ok && (DeadPairs(chips, ADSL_FRAME_BYTES) == {} ==> block == frame)
  {
    hide BitOf, WrongTail, Check, DeadPairs, Framed, HeardBlock, NameOf, Repairable, Changed, InReach;
    var received, out := ReceiveMBand(chips);
    ok, block := false, [];
    if |chips| >= RX_CHIP_BYTES {
      forall frame, wrong | HeardBlock(chips, frame, wrong) ensures NameOf(chips) == AdslDirect {
        HeardIsNamed(chips, frame, wrong);
      }
    }
    if received && out.system == AdslDirect {
      FramedSize(chips, out);
      forall frame, wrong | HeardBlock(chips, frame, wrong)
        ensures InReach(chips, frame, out.data[..ADSL_FRAME_BYTES], out.erasures[..ADSL_FRAME_BYTES])
      {
        HeardIsInReach(chips, frame, wrong, out);
      }
      ok, block := DecodeAdsl(chips, out);
    }
  }

  method DecodeAdsl(ghost chips: seq<bv8>, frame: Frame) returns (ok: bool, block: seq<bv8>)
    requires |chips| >= RX_CHIP_BYTES && |frame.data| == |frame.erasures| == RX_FRAME_BYTES
    ensures ok ==> IsClean(block)
    ensures forall sent :: InReach(chips, sent, frame.data[..ADSL_FRAME_BYTES], frame.erasures[..ADSL_FRAME_BYTES]) ==>
      ok && (DeadPairs(chips, ADSL_FRAME_BYTES) == {} ==> block == sent)
  {
    hide BitOf, Check, DeadPairs, Repairable, Changed;
    var data := new bv8[ADSL_FRAME_BYTES](i requires 0 <= i < ADSL_FRAME_BYTES => frame.data[i]);
    ghost var d := data[..];
    assert d == frame.data[..ADSL_FRAME_BYTES];
    var crc := AdslCrcCheck(data);
    if crc != 0 {
      var count := Correct(data, frame.erasures[..ADSL_FRAME_BYTES], 6);
      if count < 0 {
        return false, [];
      }
      crc := AdslCrcCheck(data);
      if crc != 0 {
        return false, [];
      }
    } else {
      AlreadyClean(d, {});
    }
    ok, block := true, data[..];
  }
}
