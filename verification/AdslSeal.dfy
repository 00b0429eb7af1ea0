/**
 adsl_crc_compute and AdslPacket::set_crc: three zero bytes are run through the register and what
 it then holds is stored behind the block.  Those are the only three bytes that make it clean.
 */
module AdslSeal {
  import opened AdslCrc
  import opened BitSets
  import opened AdslCorrect

  const COVERED_BYTES: nat := 21

  function Zeros(): (z: seq<bv8>)
    ensures |z| == 3
  {
    [0, 0, 0]
  }

  // The stored check: the register's three upper bytes, highest first.
  function CrcBytes(crc: bv32): (c: seq<bv8>)
    ensures |c| == 3
  {
    [UpperByte(crc, 2), UpperByte(crc, 1), UpperByte(crc, 0)]
  }

  function UpperByte(crc: bv32, k: nat): bv8 {
    match k
    case 2 => ((crc >> 16) & 0xFF) as bv8
    case 1 => ((crc >> 8) & 0xFF) as bv8
    case _ => (crc & 0xFF) as bv8
  }

  // ----- a byte on its way up the register

  lemma StepDoubles(x: bv32)
    requires Clear(x, 0x80000000)
    ensures Step(x) == Double(x)
  {
    hide Xor;
    XorCommutes(Double(x), 0);
    assert x >> 31 == 0;
  }

  lemma DoubleClears(x: bv32)
    ensures Clear(x, 0xFF000000) ==> Clear(Double(x), 0xFE000000)
    ensures Clear(x, 0xFE000000) ==> Clear(Double(x), 0xFC000000)
    ensures Clear(x, 0xFC000000) ==> Clear(Double(x), 0xF8000000)
    ensures Clear(x, 0xF8000000) ==> Clear(Double(x), 0xF0000000)
    ensures Clear(x, 0xF0000000) ==> Clear(Double(x), 0xE0000000)
    ensures Clear(x, 0xE0000000) ==> Clear(Double(x), 0xC0000000)
    ensures Clear(x, 0xC0000000) ==> Clear(Double(x), 0x80000000)
  {}

  predicate UpperClear(x: bv32) {
    || Clear(x, 0xFF000000) || Clear(x, 0xFE000000) || Clear(x, 0xFC000000) || Clear(x, 0xF8000000)
    || Clear(x, 0xF0000000) || Clear(x, 0xE0000000) || Clear(x, 0xC0000000) || Clear(x, 0x80000000)
  }

  lemma ClearTop(x: bv32)
    ensures UpperClear(x) ==> Clear(x, 0x80000000)
  {}

  ghost function Doubled(x: bv32, n: nat): bv32 {
    if n == 0 then x else Double(Doubled(x, n - 1))
  }

  lemma StepsDouble(x: bv32)
    requires Clear(x, 0xFF000000)
    ensures Steps(x, 8) == Doubled(x, 8)
  {
    hide Step, Double, Clear;
    NextDouble(x, 0);
    NextDouble(x, 1);
    NextDouble(x, 2);
    NextDouble(x, 3);
    NextDouble(x, 4);
    NextDouble(x, 5);
    NextDouble(x, 6);
    NextDouble(x, 7);
  }

  lemma NextDouble(x: bv32, n: nat)
    requires n < 8
    ensures var y := Doubled(x, n);
      Steps(x, n) == y && UpperClear(y) ==> Steps(x, n + 1) == Doubled(x, n + 1)
    ensures var y, z := Doubled(x, n), Doubled(x, n + 1);
      && (Clear(y, 0xFF000000) ==> Clear(z, 0xFE000000))
      && (Clear(y, 0xFE000000) ==> Clear(z, 0xFC000000))
      && (Clear(y, 0xFC000000) ==> Clear(z, 0xF8000000))
      && (Clear(y, 0xF8000000) ==> Clear(z, 0xF0000000))
      && (Clear(y, 0xF0000000) ==> Clear(z, 0xE0000000))
      && (Clear(y, 0xE0000000) ==> Clear(z, 0xC0000000))
      && (Clear(y, 0xC0000000) ==> Clear(z, 0x80000000))
  {
    hide Step, Double, Clear;
    var y := Doubled(x, n);
    DoubleClears(y);
    ClearTop(y);
    if Clear(y, 0x80000000) { StepDoubles(y); }
  }

  lemma DoubledIsShift(x: bv32)
    ensures Doubled(x, 8) == Raised(x)
  {
    hide Double, Shift2, Shift4, Raised;
    var y := Shift4(x);
    TwoDoubles(x);
    TwoDoubles(Shift2(x));
    FourDoubles(x);
    assert Doubled(x, 1) == Double(x);
    assert Doubled(x, 2) == Shift2(x);
    assert Doubled(x, 4) == y;
    TwoDoubles(y);
    TwoDoubles(Shift2(y));
    FourDoubles(y);
    assert Doubled(x, 6) == Shift2(y);
    assert Doubled(x, 8) == Shift4(y);
    EightDoubles(x);
  }

  function Shift2(x: bv32): bv32 { x << 2 }

  function Shift4(x: bv32): bv32 { x << 4 }

  lemma TwoDoubles(x: bv32)
    ensures Double(Double(x)) == Shift2(x)
  {}

  lemma FourDoubles(x: bv32)
    ensures Shift2(Shift2(x)) == Shift4(x)
  {}

  lemma EightDoubles(x: bv32)
    ensures Shift4(Shift4(x)) == Raised(x)
  {}

  function Raised(x: bv32): bv32 { x << 8 }

  lemma RaisedSteps(x: bv32)
    requires Clear(x, 0xFF000000)
    ensures Steps(x, 8) == Raised(x)
  {
    hide Step, Double, Clear, Raised;
    StepsDouble(x);
    DoubledIsShift(x);
  }

  lemma WideIsClear(b: bv8)
    ensures Clear(Wide(b), 0xFF000000)
    ensures Clear(Raised(Wide(b)), 0xFF000000)
    ensures Clear(Raised(Raised(Wide(b))), 0xFF000000)
  {}

  lemma ByteRises(b: bv8)
    ensures Steps(Wide(b), 8) == Raised(Wide(b))
    ensures Steps(Wide(b), 16) == Raised(Raised(Wide(b)))
    ensures Steps(Wide(b), 24) == Raised(Raised(Raised(Wide(b))))
  {
    hide Steps, Wide, Clear, Raised;
    var w := Wide(b);
    WideIsClear(b);
    RaisedSteps(w);
    RaisedSteps(Raised(w));
    RaisedSteps(Raised(Raised(w)));
    StepsAdd(w, 8, 8);
    StepsAdd(w, 16, 8);
  }

  // ----- three more bytes

  lemma ThreePasses(r: bv32, c: seq<bv8>)
    requires LowByteClear(r) && |c| == 3
    ensures Pass(Pass(Pass(r, c[0]), c[1]), c[2])
         == Xor(Steps(r, 24), Trailer(c))
  {
    hide Steps, Wide, Raised, Xor, LowByteClear, Pass;
    var w0, w1, w2 := Wide(c[0]), Wide(c[1]), Wide(c[2]);
    PassIsLinear(r, c[0]);
    var p0 := Pass(r, c[0]);
    PassIsLinear(p0, c[1]);
    var p1 := Pass(p0, c[1]);
    PassIsLinear(p1, c[2]);
    ByteRises(c[0]);
    ByteRises(c[1]);
    ByteRises(c[2]);
    StepsXor(Steps(r, 8), Steps(w0, 8), 8);
    StepsAdd(r, 8, 8);
    StepsAdd(w0, 8, 8);
    assert p1 == Xor(Xor(Steps(r, 16), Steps(w0, 16)), Steps(w1, 8));
    StepsXor(Xor(Steps(r, 16), Steps(w0, 16)), Steps(w1, 8), 8);
    StepsXor(Steps(r, 16), Steps(w0, 16), 8);
    StepsAdd(r, 16, 8);
    StepsAdd(w0, 16, 8);
    StepsAdd(w1, 8, 8);
    XorAssociates(Steps(r, 24), Steps(w0, 24), Steps(w1, 16));
    XorAssociates(Steps(r, 24), Xor(Steps(w0, 24), Steps(w1, 16)), Steps(w2, 8));
  }

  // What three bytes add to the register.
  ghost function Trailer(c: seq<bv8>): bv32
    requires |c| == 3
  {
    Xor(Xor(Raised(Raised(Raised(Wide(c[0])))), Raised(Raised(Wide(c[1])))), Raised(Wide(c[2])))
  }

  lemma TrailerOfZeros()
    ensures Trailer(Zeros()) == 0
  {}

  lemma TrailerReturns(crc: bv32)
    requires LowByteClear(crc)
    ensures Trailer(CrcBytes(Upper(crc))) == crc
  {}

  lemma TrailerIsOneToOne(c: seq<bv8>)
    requires |c| == 3
    ensures CrcBytes(Upper(Trailer(c))) == c
  {}

  lemma RegisterOfThree(d: seq<bv8>, c: seq<bv8>)
    requires |c| == 3
    ensures Register(d + c) == Xor(Steps(Register(d), 24), Trailer(c))
  {
    hide Pass, Steps, Trailer, LowByteClear, Xor;
    RegisterClear(d);
    ThreePasses(Register(d), c);
    var e := d + c;
    assert e[..|e| - 1] == d + c[..2];
    assert e[..|e| - 1][..|e| - 2] == d + c[..1];
    assert (d + c[..1])[..|d|] == d;
    assert Register(d + c[..1]) == Pass(Register(d), c[0]);
    assert Register(d + c[..2]) == Pass(Register(d + c[..1]), c[1]);
  }

  // adsl_crc_compute.
  function Compute(d: seq<bv8>): bv32 {
    Upper(Register(d + Zeros()))
  }

  // A block followed by three bytes passes the check exactly when they are the computed ones.
  lemma SealIsTheOnlyOne(d: seq<bv8>, c: seq<bv8>)
    requires |c| == 3
    ensures Check(d + c) == 0 <==> c == CrcBytes(Compute(d))
  {
    hide Register, Steps, Trailer, LowByteClear, Upper, CrcBytes, Xor, Zeros;
    var s := Steps(Register(d), 24);
    RegisterClear(d);
    StepsAdd(Register(d), 16, 8);
    EightStepsClear(Steps(Register(d), 16));
    RegisterOfThree(d, c);
    RegisterOfThree(d, Zeros());
    TrailerOfZeros();
    XorCommutes(s, 0);
    TrailerReturns(s);
    TrailerIsOneToOne(c);
    XorZero(s, Trailer(c));
    RegisterClear(d + c);
    UpperZero(Register(d + c));
  }

  lemma UpperZero(crc: bv32)
    requires LowByteClear(crc)
    ensures Upper(crc) == 0 <==> crc == 0
  {}

  // ----- the methods

  method AdslCrcCompute(data: array<bv8>, bytes: nat) returns (crc: bv32)
    requires bytes <= data.Length
    ensures crc == Compute(data[..bytes])
  {
    hide Pass, Upper;
    crc := 0;
    for i := 0 to bytes
      invariant crc == Register(data[..i])
    {
      assert data[..i + 1][..i] == data[..i];
      crc := AdslCrcPass(crc, data[i]);
    }
    ghost var d := data[..bytes];
    ghost var e, f, g := d + [0], d + [0, 0], d + Zeros();
    crc := AdslCrcPass(crc, 0);
    assert e[..bytes] == d && crc == Register(e);
    crc := AdslCrcPass(crc, 0);
    assert f[..bytes + 1] == e && crc == Register(f);
    crc := AdslCrcPass(crc, 0);
    assert g[..bytes + 2] == f && crc == Register(g);
    crc := Upper(crc);
  }

  // AdslPacket::set_crc.
  method SetCrc(data: array<bv8>)
    requires data.Length == DATA_BYTES
    modifies data
    ensures IsClean(data[..]) && data[..COVERED_BYTES] == old(data[..COVERED_BYTES])
  {
    hide UpperByte, Check, Compute;
    var crc := AdslCrcCompute(data, COVERED_BYTES);
    ghost var d := data[..COVERED_BYTES];
    data[COVERED_BYTES] := UpperByte(crc, 2);
    data[COVERED_BYTES + 1] := UpperByte(crc, 1);
    data[COVERED_BYTES + 2] := UpperByte(crc, 0);
    SealIsTheOnlyOne(d, CrcBytes(crc));
    assert data[..] == d + CrcBytes(crc);
  }
}
