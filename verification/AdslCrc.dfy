/**
 The 24-bit check of firmware/core/fec/crc over a block of bytes: the register is linear, so
 flipping one bit of the block changes it by a constant of that bit alone, and the table
 crc_syndrome of firmware/core/protocol/adsl.cpp holds those constants.
 */
module AdslCrc {

  function Xor(a: bv32, b: bv32): bv32 { a ^ b }

  lemma XorAssociates(a: bv32, b: bv32, c: bv32)
    ensures Xor(Xor(a, b), c) == Xor(a, Xor(b, c))
  {}

  lemma XorCommutes(a: bv32, b: bv32)
    ensures Xor(a, b) == Xor(b, a)
    ensures Xor(a, 0) == a && Xor(0, a) == a && Xor(a, a) == 0
  {}

  lemma XorZero(a: bv32, b: bv32)
    ensures Xor(a, b) == 0 <==> a == b
  {
    hide Xor;
    XorAssociates(a, b, b);
    XorCommutes(a, b);
    XorCommutes(b, b);
  }

  // ----- the register

  function Double(crc: bv32): bv32 { crc << 1 }

  predicate TopBit(crc: bv32) {
    crc & 0x80000000 != 0
  }

  // One turn of the inner loop of adsl_crc_pass.
  function Turn(crc: bv32): bv32 {
    Double(if TopBit(crc) then Xor(crc, 0xFFFA0480) else crc)
  }

  function Feedback(crc: bv32): bv32 { (0 - (crc >> 31)) & 0xFFF40900 }

  // The same turn without the branch: the polynomial already shifted.
  function Step(crc: bv32): bv32 {
    Xor(Double(crc), Feedback(crc))
  }

  lemma TurnIsStep(crc: bv32)
    ensures Turn(crc) == Step(crc)
  {
    hide Double, Feedback, Xor, TopBit;
    if TopBit(crc) {
      FeedbackSet(crc);
      DoubledPolynomial();
      DoubleXor(crc, 0xFFFA0480);
    } else {
      FeedbackUnset(crc);
      XorCommutes(Double(crc), 0);
    }
  }

  lemma FeedbackSet(crc: bv32)
    requires TopBit(crc)
    ensures Feedback(crc) == 0xFFF40900
  {}

  lemma FeedbackUnset(crc: bv32)
    requires !TopBit(crc)
    ensures Feedback(crc) == 0
  {}

  lemma DoubledPolynomial()
    ensures Double(0xFFFA0480) == 0xFFF40900
  {}

  lemma DoubleXor(a: bv32, b: bv32)
    ensures Double(Xor(a, b)) == Xor(Double(a), Double(b))
  {}

  lemma FeedbackXor(a: bv32, b: bv32)
    ensures Feedback(Xor(a, b)) == Xor(Feedback(a), Feedback(b))
  {}

  lemma StepXor(a: bv32, b: bv32)
    ensures Step(Xor(a, b)) == Xor(Step(a), Step(b))
  {
    hide Xor, Double, Feedback;
    var p, q, r, s := Double(a), Double(b), Feedback(a), Feedback(b);
    DoubleXor(a, b);
    FeedbackXor(a, b);
    XorAssociates(p, q, Xor(r, s));
    XorAssociates(q, r, s);
    XorCommutes(q, r);
    XorAssociates(r, q, s);
    XorAssociates(p, r, Xor(q, s));
  }

  ghost function Steps(crc: bv32, n: nat): bv32 {
    if n == 0 then crc else Step(Steps(crc, n - 1))
  }

  lemma {:induction false} StepsXor(a: bv32, b: bv32, n: nat)
    ensures Steps(Xor(a, b), n) == Xor(Steps(a, n), Steps(b, n))
  {
    hide Step, Xor;
    if n > 0 {
      StepsXor(a, b, n - 1);
      StepXor(Steps(a, n - 1), Steps(b, n - 1));
    }
  }

  lemma {:induction false} StepsAdd(crc: bv32, m: nat, n: nat)
    ensures Steps(Steps(crc, m), n) == Steps(crc, m + n)
  {
    hide Step;
    if n > 0 {
      StepsAdd(crc, m, n - 1);
    }
  }

  // ----- the low byte of the register is free for the next byte of the block

  predicate LowByteClear(crc: bv32) {
    crc & 0xFF == 0
  }

  predicate Clear(crc: bv32, mask: bv32) {
    crc & mask == 0
  }

  lemma StepClears(crc: bv32)
    ensures Clear(Step(crc), 1)
    ensures Clear(crc, 1) ==> Clear(Step(crc), 3)
    ensures Clear(crc, 3) ==> Clear(Step(crc), 7)
    ensures Clear(crc, 7) ==> Clear(Step(crc), 15)
    ensures Clear(crc, 15) ==> Clear(Step(crc), 31)
    ensures Clear(crc, 31) ==> Clear(Step(crc), 63)
    ensures Clear(crc, 63) ==> Clear(Step(crc), 127)
    ensures Clear(crc, 127) ==> Clear(Step(crc), 255)
  {}

  lemma EightStepsClear(crc: bv32)
    ensures LowByteClear(Steps(crc, 8))
  {
    hide Step;
    StepClears(Steps(crc, 0));
    StepClears(Steps(crc, 1));
    StepClears(Steps(crc, 2));
    StepClears(Steps(crc, 3));
    StepClears(Steps(crc, 4));
    StepClears(Steps(crc, 5));
    StepClears(Steps(crc, 6));
    StepClears(Steps(crc, 7));
  }

  function Wide(b: bv8): bv32 { b as bv32 }

  function Or(a: bv32, b: bv32): bv32 { a | b }

  // crc |= byte.
  function Loaded(crc: bv32, b: bv8): bv32 { Or(crc, Wide(b)) }

  // The byte goes in, then eight turns.
  function Pass(crc: bv32, b: bv8): bv32 {
    Turns(Loaded(crc, b), 8)
  }

  function Turns(crc: bv32, n: nat): bv32 {
    if n == 0 then crc else Turn(Turns(crc, n - 1))
  }

  lemma {:induction false} TurnsAreSteps(crc: bv32, n: nat)
    ensures Turns(crc, n) == Steps(crc, n)
  {
    hide Turn, Step;
    if n > 0 {
      TurnsAreSteps(crc, n - 1);
      TurnIsStep(Turns(crc, n - 1));
    }
  }

  lemma OrIsXor(crc: bv32, b: bv8)
    requires LowByteClear(crc)
    ensures Loaded(crc, b) == Xor(crc, Wide(b))
  {
    hide Wide, Or, Xor, LowByteClear, Clear;
    WideIsLow(b);
    OrOfDisjoint(crc, Wide(b));
  }

  lemma WideIsLow(b: bv8)
    ensures Clear(Wide(b), 0xFFFFFF00)
  {}

  lemma OrOfDisjoint(a: bv32, b: bv32)
    requires LowByteClear(a) && Clear(b, 0xFFFFFF00)
    ensures Or(a, b) == Xor(a, b)
  {
    assert a | b == a ^ b;
  }

  lemma PassIsLinear(crc: bv32, b: bv8)
    requires LowByteClear(crc)
    ensures Pass(crc, b) == Xor(Steps(crc, 8), Steps(Wide(b), 8))
    ensures LowByteClear(Pass(crc, b))
  {
    hide Loaded, Wide, Steps, Turns, Xor, LowByteClear;
    OrIsXor(crc, b);
    TurnsAreSteps(Loaded(crc, b), 8);
    StepsXor(crc, Wide(b), 8);
    EightStepsClear(Loaded(crc, b));
  }

  // adsl_crc_pass.
  method AdslCrcPass(crc: bv32, byte: bv8) returns (result: bv32)
    ensures result == Pass(crc, byte)
  {
    hide Turn, Loaded;
    result := Loaded(crc, byte);
    for bit := 0 to 8
      invariant result == Turns(Loaded(crc, byte), bit)
    {
      result := Turn(result);
    }
  }

  // The register after a block.
  function Register(d: seq<bv8>): bv32 {
    if |d| == 0 then 0 else Pass(Register(d[..|d| - 1]), d[|d| - 1])
  }

  lemma {:induction false} RegisterClear(d: seq<bv8>)
    ensures LowByteClear(Register(d))
  {
    if |d| == 0 {
    } else {
      hide Pass, LowByteClear;
      RegisterClear(d[..|d| - 1]);
      PassIsLinear(Register(d[..|d| - 1]), d[|d| - 1]);
    }
  }

  // adsl_crc_check.
  function Check(d: seq<bv8>): bv32 {
    Upper(Register(d))
  }

  function Upper(crc: bv32): bv32 { crc >> 8 }

  lemma UpperXor(a: bv32, b: bv32)
    ensures Upper(Xor(a, b)) == Xor(Upper(a), Upper(b))
  {}

  // ----- flipping a bit

  function Mask(k: nat): bv8 {
    match k
    case 0 => 0x80 case 1 => 0x40 case 2 => 0x20 case 3 => 0x10
    case 4 => 0x08 case 5 => 0x04 case 6 => 0x02 case _ => 0x01
  }

  function Xor8(a: bv8, b: bv8): bv8 { a ^ b }

  // Bits are numbered from the top of the first byte.
  function Flip(d: seq<bv8>, bit: nat): (f: seq<bv8>)
    requires bit < 8 * |d|
    ensures |f| == |d|
  {
    d[bit / 8 := Xor8(d[bit / 8], Mask(bit % 8))]
  }

  lemma WideXor(a: bv8, b: bv8)
    ensures Wide(Xor8(a, b)) == Xor(Wide(a), Wide(b))
  {}

  lemma MaskIsSteps(k: nat)
    requires k < 8
    ensures Wide(Mask(k)) == Steps(1, 7 - k)
  {
    assert Steps(1, 1) == 2;
    assert Steps(1, 2) == 4;
    assert Steps(1, 3) == 8;
    assert Steps(1, 4) == 16;
    assert Steps(1, 5) == 32;
    assert Steps(1, 6) == 64;
    assert Steps(1, 7) == 128;
  }

  lemma {:induction false} RegisterFlip(d: seq<bv8>, bit: nat)
    requires bit < 8 * |d|
    ensures Register(Flip(d, bit)) == Xor(Register(d), Steps(1, 8 * |d| + 7 - bit))
  {
    hide Pass, Steps, Xor, Wide, Mask, LowByteClear, Xor8;
    var n := |d| - 1;
    var front, last := d[..n], d[n];
    var c := Register(front);
    RegisterClear(front);
    PassIsLinear(c, last);
    if bit < 8 * n {
      var e := 8 * n + 7 - bit;
      assert Flip(d, bit)[..n] == Flip(front, bit);
      RegisterFlip(front, bit);
      RegisterClear(Flip(front, bit));
      PassIsLinear(Xor(c, Steps(1, e)), last);
      StepsXor(c, Steps(1, e), 8);
      StepsAdd(1, e, 8);
      SwapTail(Steps(c, 8), Steps(Steps(1, e), 8), Steps(Wide(last), 8));
    } else {
      var k := bit - 8 * n;
      assert bit / 8 == n && bit % 8 == k;
      assert Flip(d, bit)[..n] == front;
      PassIsLinear(c, Xor8(last, Mask(k)));
      WideXor(last, Mask(k));
      MaskIsSteps(k);
      StepsXor(Wide(last), Wide(Mask(k)), 8);
      StepsAdd(1, 7 - k, 8);
      XorAssociates(Steps(c, 8), Steps(Wide(last), 8), Steps(Wide(Mask(k)), 8));
    }
  }

  lemma SwapTail(a: bv32, b: bv32, c: bv32)
    ensures Xor(Xor(a, b), c) == Xor(Xor(a, c), b)
  {
    hide Xor;
    XorAssociates(a, b, c);
    XorCommutes(b, c);
    XorAssociates(a, c, b);
  }

  // ----- the table

  const DATA_BYTES: nat := 24
  const BITS: nat := 192

  // crc_syndrome, by the number of the bit as the source's byte has it.
  function SyndromeAt(bit: bv8): bv32 {
    match bit >> 4
    case 0 => (
      match bit & 15
      case 0 => 0x7ABEE1 case 1 => 0xC2A574 case 2 => 0x6152BA case 3 => 0x30A95D
      case 4 => 0xE7AEAA case 5 => 0x73D755 case 6 => 0xC611AE case 7 => 0x6308D7
      case 8 => 0xCE7E6F case 9 => 0x98C533 case 10 => 0xB3989D case 11 => 0xA6364A
      case 12 => 0x531B25 case 13 => 0xD67796 case 14 => 0x6B3BCB case _ => 0xCA67E1)
    case 1 => (
      match bit & 15
      case 0 => 0x9AC9F4 case 1 => 0x4D64FA case 2 => 0x26B27D case 3 => 0xECA33A
      case 4 => 0x76519D case 5 => 0xC4D2CA case 6 => 0x626965 case 7 => 0xCECEB6
      case 8 => 0x67675B case 9 => 0xCC49A9 case 10 => 0x99DED0 case 11 => 0x4CEF68
      case 12 => 0x2677B4 case 13 => 0x133BDA case 14 => 0x099DED case _ => 0xFB34F2)
    case 2 => (
      match bit & 15
      case 0 => 0x7D9A79 case 1 => 0xC13738 case 2 => 0x609B9C case 3 => 0x304DCE
      case 4 => 0x1826E7 case 5 => 0xF3E977 case 6 => 0x860EBF case 7 => 0xBCFD5B
      case 8 => 0xA184A9 case 9 => 0xAF3850 case 10 => 0x579C28 case 11 => 0x2BCE14
      case 12 => 0x15E70A case 13 => 0x0AF385 case 14 => 0xFA83C6 case _ => 0x7D41E3)
    case 3 => (
      match bit & 15
      case 0 => 0xC15AF5 case 1 => 0x9F577E case 2 => 0x4FABBF case 3 => 0xD82FDB
      case 4 => 0x93EDE9 case 5 => 0xB60CF0 case 6 => 0x5B0678 case 7 => 0x2D833C
      case 8 => 0x16C19E case 9 => 0x0B60CF case 10 => 0xFA4A63 case 11 => 0x82DF35
      case 12 => 0xBE959E case 13 => 0x5F4ACF case 14 => 0xD05F63 case _ => 0x97D5B5)
    case 4 => (
      match bit & 15
      case 0 => 0xB410DE case 1 => 0x5A086F case 2 => 0xD2FE33 case 3 => 0x96851D
      case 4 => 0xB4B88A case 5 => 0x5A5C45 case 6 => 0xD2D426 case 7 => 0x696A13
      case 8 => 0xCB4F0D case 9 => 0x9A5D82 case 10 => 0x4D2EC1 case 11 => 0xD96D64
      case 12 => 0x6CB6B2 case 13 => 0x365B59 case 14 => 0xE4D7A8 case _ => 0x726BD4)
    case 5 => (
      match bit & 15
      case 0 => 0x3935EA case 1 => 0x1C9AF5 case 2 => 0xF1B77E case 3 => 0x78DBBF
      case 4 => 0xC397DB case 5 => 0x9E31E9 case 6 => 0xB0E2F0 case 7 => 0x587178
      case 8 => 0x2C38BC case 9 => 0x161C5E case 10 => 0x0B0E2F case 11 => 0xFA7D13
      case 12 => 0x82C48D case 13 => 0xBE9842 case 14 => 0x5F4C21 case _ => 0xD05C14)
    case 6 => (
      match bit & 15
      case 0 => 0x682E0A case 1 => 0x341705 case 2 => 0xE5F186 case 3 => 0x72F8C3
      case 4 => 0xC68665 case 5 => 0x9CB936 case 6 => 0x4E5C9B case 7 => 0xD8D449
      case 8 => 0x939020 case 9 => 0x49C810 case 10 => 0x24E408 case 11 => 0x127204
      case 12 => 0x093902 case 13 => 0x049C81 case 14 => 0xFDB444 case _ => 0x7EDA22)
    case 7 => (
      match bit & 15
      case 0 => 0x3F6D11 case 1 => 0xE04C8C case 2 => 0x702646 case 3 => 0x381323
      case 4 => 0xE3F395 case 5 => 0x8E03CE case 6 => 0x4701E7 case 7 => 0xDC7AF7
      case 8 => 0x91C77F case 9 => 0xB719BB case 10 => 0xA476D9 case 11 => 0xADC168
      case 12 => 0x56E0B4 case 13 => 0x2B705A case 14 => 0x15B82D case _ => 0xF52612)
    case 8 => (
      match bit & 15
      case 0 => 0x7A9309 case 1 => 0xC2B380 case 2 => 0x6159C0 case 3 => 0x30ACE0
      case 4 => 0x185670 case 5 => 0x0C2B38 case 6 => 0x06159C case 7 => 0x030ACE
      case 8 => 0x018567 case 9 => 0xFF38B7 case 10 => 0x80665F case 11 => 0xBFC92B
      case 12 => 0xA01E91 case 13 => 0xAFF54C case 14 => 0x57FAA6 case _ => 0x2BFD53)
    case 9 => (
      match bit & 15
      case 0 => 0xEA04AD case 1 => 0x8AF852 case 2 => 0x457C29 case 3 => 0xDD4410
      case 4 => 0x6EA208 case 5 => 0x375104 case 6 => 0x1BA882 case 7 => 0x0DD441
      case 8 => 0xF91024 case 9 => 0x7C8812 case 10 => 0x3E4409 case 11 => 0xE0D800
      case 12 => 0x706C00 case 13 => 0x383600 case 14 => 0x1C1B00 case _ => 0x0E0D80)
    case 10 => (
      match bit & 15
      case 0 => 0x0706C0 case 1 => 0x038360 case 2 => 0x01C1B0 case 3 => 0x00E0D8
      case 4 => 0x00706C case 5 => 0x003836 case 6 => 0x001C1B case 7 => 0xFFF409
      case 8 => 0x800000 case 9 => 0x400000 case 10 => 0x200000 case 11 => 0x100000
      case 12 => 0x080000 case 13 => 0x040000 case 14 => 0x020000 case _ => 0x010000)
    case 11 => (
      match bit & 15
      case 0 => 0x008000 case 1 => 0x004000 case 2 => 0x002000 case 3 => 0x001000
      case 4 => 0x000800 case 5 => 0x000400 case 6 => 0x000200 case 7 => 0x000100
      case 8 => 0x000080 case 9 => 0x000040 case 10 => 0x000020 case 11 => 0x000010
      case 12 => 0x000008 case 13 => 0x000004 case 14 => 0x000002 case _ => 0x000001)
    case _ => 0
  }

  function ByteOf(n: nat): bv8
    requires n < 256
  {
    n as bv8
  }

  function NumberOf(b: bv8): nat { b as int }

  lemma ByteReturns(b: bv8)
    ensures NumberOf(b) < 256 && ByteOf(NumberOf(b)) == b
    ensures b < 192 <==> NumberOf(b) < BITS
    ensures b < 255 <==> NumberOf(b) < 255
  {}

  lemma NumberNext(b: bv8)
    requires b < 255
    ensures NumberOf(b + 1) == NumberOf(b) + 1 && b + 1 > 0 && (b + 1) - 1 == b
  {}

  lemma ByteZero()
    ensures NumberOf(0) == 0
  {}

  lemma {:induction false} NumberReturns(n: nat)
    requires n < 256
    ensures NumberOf(ByteOf(n)) == n
    ensures n > 0 ==> ByteOf(n) > 0 && ByteOf(n) - 1 == ByteOf(n - 1)
  {
    hide ByteOf, NumberOf;
    if n == 0 {
      ByteZero();
      ByteReturns(0);
    } else {
      var a := ByteOf(n - 1);
      NumberReturns(n - 1);
      ByteReturns(a);
      NumberNext(a);
      ByteReturns(a + 1);
    }
  }

  function CrcSyndrome(bit: nat): bv32 {
    if bit < 256 then SyndromeAt(ByteOf(bit)) else 0
  }

  function Next(s: bv32): bv32 {
    Upper(Step(s << 8))
  }

  // One turn of the register takes every entry to the one before it.
  lemma EntriesStep(b: bv8)
    requires 0 < b < 192
    ensures Next(SyndromeAt(b)) == SyndromeAt(b - 1)
  {
    match b >> 4 {
      case 0 => match b & 15 { case 0 => case 1 => case 2 => case 3 => case 4 => case 5 => case 6 => case 7 => case 8 => case 9 => case 10 => case 11 => case 12 => case 13 => case 14 => case 15 => case _ => }
      case 1 => match b & 15 { case 0 => case 1 => case 2 => case 3 => case 4 => case 5 => case 6 => case 7 => case 8 => case 9 => case 10 => case 11 => case 12 => case 13 => case 14 => case 15 => case _ => }
      case 2 => match b & 15 { case 0 => case 1 => case 2 => case 3 => case 4 => case 5 => case 6 => case 7 => case 8 => case 9 => case 10 => case 11 => case 12 => case 13 => case 14 => case 15 => case _ => }
      case 3 => match b & 15 { case 0 => case 1 => case 2 => case 3 => case 4 => case 5 => case 6 => case 7 => case 8 => case 9 => case 10 => case 11 => case 12 => case 13 => case 14 => case 15 => case _ => }
      case 4 => match b & 15 { case 0 => case 1 => case 2 => case 3 => case 4 => case 5 => case 6 => case 7 => case 8 => case 9 => case 10 => case 11 => case 12 => case 13 => case 14 => case 15 => case _ => }
      case 5 => match b & 15 { case 0 => case 1 => case 2 => case 3 => case 4 => case 5 => case 6 => case 7 => case 8 => case 9 => case 10 => case 11 => case 12 => case 13 => case 14 => case 15 => case _ => }
      case 6 => match b & 15 { case 0 => case 1 => case 2 => case 3 => case 4 => case 5 => case 6 => case 7 => case 8 => case 9 => case 10 => case 11 => case 12 => case 13 => case 14 => case 15 => case _ => }
      case 7 => match b & 15 { case 0 => case 1 => case 2 => case 3 => case 4 => case 5 => case 6 => case 7 => case 8 => case 9 => case 10 => case 11 => case 12 => case 13 => case 14 => case 15 => case _ => }
      case 8 => match b & 15 { case 0 => case 1 => case 2 => case 3 => case 4 => case 5 => case 6 => case 7 => case 8 => case 9 => case 10 => case 11 => case 12 => case 13 => case 14 => case 15 => case _ => }
      case 9 => match b & 15 { case 0 => case 1 => case 2 => case 3 => case 4 => case 5 => case 6 => case 7 => case 8 => case 9 => case 10 => case 11 => case 12 => case 13 => case 14 => case 15 => case _ => }
      case 10 => match b & 15 { case 0 => case 1 => case 2 => case 3 => case 4 => case 5 => case 6 => case 7 => case 8 => case 9 => case 10 => case 11 => case 12 => case 13 => case 14 => case 15 => case _ => }
      case 11 => match b & 15 { case 0 => case 1 => case 2 => case 3 => case 4 => case 5 => case 6 => case 7 => case 8 => case 9 => case 10 => case 11 => case 12 => case 13 => case 14 => case 15 => case _ => }
      case _ =>
    }
  }

  lemma TableSteps(bit: nat)
    requires 0 < bit < BITS
    ensures Next(CrcSyndrome(bit)) == CrcSyndrome(bit - 1)
  {
    hide SyndromeAt, Next, ByteOf, NumberOf;
    NumberReturns(bit);
    ByteReturns(ByteOf(bit));
    EntriesStep(ByteOf(bit));
  }

  lemma UpperStep(crc: bv32)
    requires LowByteClear(crc)
    ensures Upper(Step(crc)) == Next(Upper(crc))
  {
    hide Step;
    UpperReturns(crc);
  }

  lemma UpperReturns(crc: bv32)
    requires LowByteClear(crc)
    ensures Upper(crc) << 8 == crc
  {}

  // Every entry is what its bit, alone in the block, leaves in the register.
  lemma {:induction false} TableIsImpulse(bit: nat)
    requires bit < BITS
    ensures CrcSyndrome(bit) == Upper(Steps(1, 199 - bit))
    decreases BITS - bit
  {
    hide CrcSyndrome, Next, Step, Upper, LowByteClear;
    if bit == BITS - 1 {
      LastEntry();
    } else {
      TableIsImpulse(bit + 1);
      TableSteps(bit + 1);
      var n := 199 - (bit + 1);
      StepsAdd(1, n - 8, 8);
      EightStepsClear(Steps(1, n - 8));
      UpperStep(Steps(1, n));
    }
  }

  lemma LastEntry()
    ensures CrcSyndrome(BITS - 1) == Upper(Steps(1, 8))
  {
    MaskIsSteps(0);
    assert Steps(1, 8) == 256;
    hide Steps;
    assert ByteOf(BITS - 1) == 191 && SyndromeAt(191) == 1;
  }

  lemma CheckFlip(d: seq<bv8>, bit: nat)
    requires |d| == DATA_BYTES && bit < BITS
    ensures Check(Flip(d, bit)) == Xor(Check(d), CrcSyndrome(bit))
  {
    hide Xor, CrcSyndrome, Upper, Steps, Register, Flip;
    RegisterFlip(d, bit);
    TableIsImpulse(bit);
    UpperXor(Register(d), Steps(1, 199 - bit));
  }
}
