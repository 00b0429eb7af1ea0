/**
 firmware/core/fec/reed_solomon: the class, its tables, encoder and decoder, proved against the
 code of ReedSolomonCode.  The tables are written once, by the constructor, so they are
 constant sequences of the object; every other buffer is an array changed in place.  decode is
 cut at its phases into the methods it calls.
 */
module ReedSolomon {
  import opened GaloisField
  import opened Pigeonhole
  import opened Polynomials
  import opened ShiftRegister
  import opened ErrorPatterns
  import opened ReedSolomonCode
  import opened ReedSolomonGenerator

  class ReedSolomon255 {
    const antilogarithm: seq<bv8>
    const logarithm: seq<nat>
    const generator: seq<bv8>

    ghost predicate Valid() {
      && |antilogarithm| == 512 && |logarithm| == 256
      && (forall i :: 0 <= i < 512 ==> antilogarithm[i] == Exp(i))
      && (forall b: bv8 :: logarithm[Index(b)] == Log(b))
      && generator == Generator(PARITY)
    }

    constructor ()
      ensures Valid()
    {
      var a, l := BuildTables();
      antilogarithm, logarithm := a, l;
      var g := BuildGenerator(a, l);
      generator := g;
    }

    function Multiply(left: bv8, right: bv8): (product: bv8)
      requires Valid()
      ensures product == Mul(left, right)
    {
      TableProduct(antilogarithm, logarithm, left, right)
    }

    function Inverse(left: bv8): (inverted: bv8)
      requires Valid()
      ensures inverted == Inv(left)
    {
      antilogarithm[255 - logarithm[Index(left)]]
    }

    method Encode(data: array<bv8>, parity: array<bv8>)
      requires Valid() && data.Length == DATA && parity.Length == PARITY && data != parity
      modifies parity
      ensures parity[..] == ParityOf(data[..])
      ensures IsCodeword(data[..] + parity[..])
    {
      hide Mul, Add, ParityStep, Generator, IsCodeword, Valid;
      for i := 0 to PARITY
        invariant forall j :: 0 <= j < i ==> parity[j] == 0
      {
        parity[i] := 0;
      }
      assert parity[..] == ParityOf([]);
      for i := 0 to DATA
        invariant parity[..] == ParityOf(data[..i])
      {
        EncodeByte(data[i], parity);
        assert data[..i + 1][..i] == data[..i];
      }
      assert data[..DATA] == data[..];
      EncodingIsCodeword(data[..]);
    }

    // The inner loop of Encode: one data byte through the register, shifted in place.
    method EncodeByte(d: bv8, parity: array<bv8>)
      requires Valid() && parity.Length == PARITY
      modifies parity
      ensures parity[..] == ParityStep(old(parity[..]), d)
    {
      hide Mul, Generator, Add, Valid, Multiply, GeneratorTail;
      GeneratorIsTail();
      ghost var was, tail := parity[..], GeneratorTail();
      var feedback := Add(d, parity[0]);
      for j := 0 to PARITY - 1
        invariant forall k :: 0 <= k < j ==>
          parity[k] == Add(was[k + 1], Mul(feedback, tail[k]))
        invariant forall k :: j <= k < PARITY ==> parity[k] == was[k]
      {
        parity[j] := Add(parity[j + 1], Multiply(feedback, generator[PARITY - 1 - j]));
      }
      parity[PARITY - 1] := Multiply(feedback, generator[0]);
      AddLaws(Mul(feedback, tail[PARITY - 1]), 0, 0);
      StepIsParityStep(was, d, parity[..]);
    }

    static lemma StepIsParityStep(was: seq<bv8>, d: bv8, parity: seq<bv8>)
      requires |was| == |parity| == PARITY
      requires var feedback := Add(d, was[0]);
        && (forall k :: 0 <= k < PARITY - 1 ==> parity[k] == Add(was[k + 1], Mul(feedback, GeneratorTail()[k])))
        && parity[PARITY - 1] == Add(0, Mul(feedback, GeneratorTail()[PARITY - 1]))
      ensures parity == ParityStep(was, d)
    {
      hide Mul, Generator, Add;
    }

    lemma GeneratorIsTail()
      requires Valid()
      ensures |generator| == PARITY + 1
      ensures forall k :: 0 <= k < PARITY ==> generator[PARITY - 1 - k] == GeneratorTail()[k]
    {
      hide Generator;
    }

    lemma PowerAt(i: nat)
      requires Valid() && i < 512
      ensures i < |antilogarithm| && antilogarithm[i] == Exp(i)
    {
      hide Exp;
    }

    // codeword[j] enters each Horner sum in turn; allZero says whether every sum vanished.
    method ComputeSyndromes(codeword: array<bv8>) returns (syndromes: array<bv8>, allZero: bool)
      requires Valid() && codeword.Length == CODEWORD
      ensures fresh(syndromes) && syndromes[..] == Syndromes(codeword[..])
      ensures allZero <==> IsCodeword(codeword[..])
    {
      hide Mul, Add, Exp, Valid;
      syndromes := new bv8[PARITY];
      allZero := true;
      ghost var c := codeword[..];
      for i := 0 to PARITY
        invariant forall k :: 0 <= k < i ==> syndromes[k] == Horner(c, Exp(k))
        invariant allZero <==> forall k :: 0 <= k < i ==> syndromes[k] == 0
      {
        PowerAt(i);
        var syndrome := HornerOf(codeword, antilogarithm[i]);
        syndromes[i] := syndrome;
        if syndrome != 0 { allZero := false; }
      }
      hide Horner;
      assert syndromes[..] == Syndromes(c);
      assert allZero <==> AllZero(syndromes[..]);
    }

    method HornerOf(codeword: array<bv8>, root: bv8) returns (syndrome: bv8)
      requires Valid()
      ensures syndrome == Horner(codeword[..], root)
    {
      hide Mul, Add, Valid, Multiply;
      syndrome := 0;
      for j := 0 to codeword.Length
        invariant syndrome == Horner(codeword[..j], root)
      {
        assert codeword[..j + 1][..j] == codeword[..j];
        syndrome := Add(codeword[j], Multiply(syndrome, root));
      }
      assert codeword[..codeword.Length] == codeword[..];
    }

    // ----- Berlekamp-Massey

    method CurrentDiscrepancy(locator: array<bv8>, registerLength: nat, syndromes: array<bv8>, step: nat)
        returns (d: bv8)
      requires Valid() && locator.Length == COEFFICIENTS && syndromes.Length == PARITY
      requires step < PARITY && registerLength <= step
      requires locator[0] == 1 && Zeros(locator[..], registerLength + 1)
      ensures d == Discrepancy(locator[..], syndromes[..], step)
    {
      hide Mul, Add, Valid, Multiply;
      ghost var l, s := locator[..], syndromes[..];
      d := syndromes[step];
      FirstTerm(l, s, step);
      for i := 1 to registerLength + 1
        invariant d == Convolve(l, s, step, i)
      {
        d := Add(d, Multiply(locator[i], syndromes[step - i]));
      }
      ConvolveTrims(l, s, step, registerLength + 1, step + 1);
    }

    // locator ^= scale * x^shift * previous, in place.
    method Adjust(locator: array<bv8>, previous: array<bv8>, scale: bv8, shift: nat)
      requires Valid() && locator.Length == previous.Length == COEFFICIENTS && locator != previous
      modifies locator
      ensures locator[..] == Adjusted(old(locator[..]), previous[..], scale, shift)
    {
      hide Mul, Add, Valid, Multiply;
      ghost var was := locator[..];
      var i := 0;
      while i + shift < COEFFICIENTS
        invariant forall k :: 0 <= k < COEFFICIENTS ==>
          locator[k] == if shift <= k < i + shift then Add(was[k], Mul(scale, previous[k - shift])) else was[k]
      {
        locator[i + shift] := Add(locator[i + shift], Multiply(scale, previous[i]));
        i := i + 1;
      }
      assert locator[..] == Adjusted(was, previous[..], scale, shift);
    }

    method FindLocator(syndromes: array<bv8>) returns (locator: array<bv8>, ghost length: nat)
      requires Valid() && syndromes.Length == PARITY
      ensures fresh(locator) && IsLocator(locator[..], length, syndromes[..])
    {
      hide Valid, Multiply, Inverse, Mul, Add, Inv, Discrepancy, Invariant, NoLongerThanPatterns, Adjusted;
      locator := new bv8[COEFFICIENTS](i => if i == 0 then 1 else 0);
      var previousLocator := new bv8[COEFFICIENTS](i => if i == 0 then 1 else 0);
      var registerLength: nat, shift: nat, lastDiscrepancy: bv8 := 0, 1, 1;
      ghost var s := syndromes[..];
      ghost var r := Registers(locator[..], previousLocator[..], 0, 1, 1);
      StartHolds(r, s);
      for step := 0 to PARITY
        invariant locator != previousLocator && fresh(locator) && fresh(previousLocator)
        invariant syndromes[..] == s
        invariant r == Registers(locator[..], previousLocator[..], registerLength, shift, lastDiscrepancy)
        invariant Invariant(r, s, step) && NoLongerThanPatterns(registerLength, s)
      {
        BetweenSteps(r, s, step);
        StepKeepsInvariant(r, s, step);
        ShortestRegister(r, s, step);
        r := Step(r, s, step);
        var d := CurrentDiscrepancy(locator, registerLength, syndromes, step);
        if d == 0 {
          shift := shift + 1;
        } else {
          var scale := Multiply(d, Inverse(lastDiscrepancy));
          if 2 * registerLength <= step {
            var temporary := new bv8[COEFFICIENTS](i requires 0 <= i < COEFFICIENTS reads locator => locator[i]);
            assert temporary[..] == locator[..];
            Adjust(locator, previousLocator, scale, shift);
            registerLength := step + 1 - registerLength;
            previousLocator := temporary;
            lastDiscrepancy := d;
            shift := 1;
          } else {
            Adjust(locator, previousLocator, scale, shift);
            shift := shift + 1;
          }
        }
      }
      BetweenSteps(r, s, PARITY);
      length := registerLength;
    }

    // The highest nonzero coefficient, zero if there is none above the constant.
    method Degree(locator: array<bv8>) returns (errorCount: nat)
      requires locator.Length == COEFFICIENTS
      ensures errorCount < COEFFICIENTS && Zeros(locator[..], errorCount + 1)
      ensures errorCount > 0 ==> locator[errorCount] != 0
    {
      errorCount := 0;
      var i: nat := COEFFICIENTS;
      while i > 0
        invariant i <= COEFFICIENTS
        invariant forall k :: i <= k < COEFFICIENTS ==> locator[k] == 0
      {
        i := i - 1;
        if locator[i] != 0 {
          errorCount := i;
          return;
        }
      }
    }

    // ----- Chien's search

    method Evaluate(locator: seq<bv8>, errorCount: nat, inversePower: bv8) returns (evaluated: bv8)
      requires Valid() && |locator| == COEFFICIENTS && errorCount < COEFFICIENTS
      requires locator[0] == 1 && Zeros(locator, errorCount + 1)
      ensures evaluated == Eval(locator, inversePower)
    {
      hide Mul, Add, Valid, Multiply;
      evaluated := 1;
      var power: bv8 := 1;
      PrefixOfOne(locator, inversePower);
      for j := 1 to errorCount + 1
        invariant power == Pow(inversePower, j - 1)
        invariant evaluated == Eval(locator[..j], inversePower)
      {
        power := Multiply(power, inversePower);
        MulCommutes(Pow(inversePower, j - 1), inversePower);
        evaluated := Add(evaluated, Multiply(locator[j], power));
        EvalExtends(locator[..j], locator[j], inversePower);
        assert locator[..j + 1] == locator[..j] + [locator[j]];
      }
      EvalTrims(locator, errorCount + 1, inversePower);
    }

    // Every place in turn; gives up past the sixteenth root, as the source's buffer must.
    method FindPositions(locator: seq<bv8>, errorCount: nat) returns (ok: bool, errorPositions: seq<nat>)
      requires Valid() && |locator| == COEFFICIENTS && errorCount <= MAX_ERRORS
      requires locator[0] == 1 && Zeros(locator, errorCount + 1)
      ensures ok <==> |RootPositions(locator, CODEWORD)| == errorCount
      ensures ok ==> errorPositions == RootPositions(locator, CODEWORD)
    {
      hide Mul, Add, Exp, Eval, Valid;
      errorPositions := [];
      for i := 0 to CODEWORD
        invariant errorPositions == RootPositions(locator, i)
        invariant |errorPositions| <= MAX_ERRORS
      {
        PowerAt((255 - i) % 255);
        var evaluated := Evaluate(locator, errorCount, antilogarithm[(255 - i) % 255]);
        if evaluated == 0 {
          if |errorPositions| >= MAX_ERRORS {
            RootPositionsGrow(locator, i + 1, CODEWORD);
            return false, [];
          }
          errorPositions := errorPositions + [i];
        }
      }
      ok := |errorPositions| == errorCount;
    }

    // ----- Forney's values

    method FindEvaluator(locator: seq<bv8>, syndromes: seq<bv8>) returns (evaluator: seq<bv8>)
      requires Valid() && |locator| == COEFFICIENTS && |syndromes| == PARITY
      ensures evaluator == Evaluator(locator, syndromes, PARITY)
    {
      hide Mul, Add, Valid;
      var e := new bv8[PARITY](_ => 0);
      for i := 0 to PARITY
        invariant forall k :: 0 <= k < i ==> e[k] == Discrepancy(locator, syndromes, k)
        invariant forall k :: i <= k < PARITY ==> e[k] == 0
      {
        for j := 0 to i + 1
          invariant e[i] == Convolve(locator, syndromes, i, j)
          invariant forall k :: 0 <= k < i ==> e[k] == Discrepancy(locator, syndromes, k)
          invariant forall k :: i < k < PARITY ==> e[k] == 0
        {
          e[i] := Add(e[i], Multiply(locator[j], syndromes[i - j]));
        }
      }
      evaluator := e[..];
      hide Discrepancy;
      assert evaluator == Evaluator(locator, syndromes, PARITY);
    }

    method EvaluatorValue(evaluator: seq<bv8>, inversePower: bv8) returns (value: bv8)
      requires Valid()
      ensures value == Eval(evaluator, inversePower)
    {
      hide Mul, Add, Valid;
      value := 0;
      var power: bv8 := 1;
      for j := 0 to |evaluator|
        invariant power == Pow(inversePower, j)
        invariant value == Eval(evaluator[..j], inversePower)
      {
        EvalExtends(evaluator[..j], evaluator[j], inversePower);
        assert evaluator[..j + 1] == evaluator[..j] + [evaluator[j]];
        value := Add(value, Multiply(evaluator[j], power));
        MulCommutes(power, inversePower);
        power := Multiply(power, inversePower);
      }
      assert evaluator[..|evaluator|] == evaluator;
    }

    // The odd coefficients, two places at a time.
    method Derivative(locator: seq<bv8>, errorCount: nat, inversePower: bv8) returns (derivative: bv8)
      requires Valid() && errorCount < |locator| && Zeros(locator, errorCount + 1)
      ensures derivative == OddPart(locator, inversePower)
    {
      hide Mul, Add, Valid;
      derivative := 0;
      var oddPower: bv8 := 1;
      var square := Multiply(inversePower, inversePower);
      ghost var goal := OddPart(locator, inversePower);
      assert locator[0..] == locator;
      MulUnits(goal);
      AddLaws(goal, 0, 0);
      var j: nat := 1;
      while j <= errorCount
        invariant 1 <= j <= |locator| + 1
        invariant goal == Add(derivative, Mul(oddPower, OddPart(locator[j - 1..], inversePower)))
      {
        OddPartStep(locator[j - 1..], inversePower, oddPower, derivative);
        assert locator[j - 1..][2..] == locator[j + 1..];
        derivative := Add(derivative, Multiply(locator[j], oddPower));
        oddPower := Multiply(oddPower, square);
        j := j + 2;
      }
      OddPartZero(locator[j - 1..], inversePower);
      MulUnits(oddPower);
      AddLaws(derivative, 0, 0);
    }

    // Each position's byte gets its value added; a vanishing derivative stops with the rest undone.
    method ApplyValues(codeword: array<bv8>, locator: seq<bv8>, syndromes: seq<bv8>, errorCount: nat,
                       errorPositions: seq<nat>) returns (ok: bool)
      requires Valid() && codeword.Length == CODEWORD
      requires |locator| == COEFFICIENTS && |syndromes| == PARITY
      requires errorCount < COEFFICIENTS && Zeros(locator, errorCount + 1)
      requires Ascending(errorPositions) && forall k :: 0 <= k < |errorPositions| ==> errorPositions[k] < CODEWORD
      modifies codeword
      ensures ok ==> codeword[..] == Corrected(old(codeword[..]), locator, syndromes, errorPositions)
      ensures ok || exists k :: 0 <= k < |errorPositions| && OddPart(locator, Inv(Exp(errorPositions[k]))) == 0
    {
      hide Mul, Add, Inv, Exp, OddPart, Magnitude, Valid;
      ghost var was := codeword[..];
      var evaluator := FindEvaluator(locator, syndromes);
      assert codeword[..] == Corrected(was, locator, syndromes, errorPositions[..0]);
      for error := 0 to |errorPositions|
        invariant codeword[..] == Corrected(was, locator, syndromes, errorPositions[..error])
      {
        var position := errorPositions[error];
        var found, magnitude := ValueAt(locator, evaluator, syndromes, errorCount, position);
        if !found { return false; }
        CorrectedExtends(was, locator, syndromes, errorPositions, error);
        codeword[CODEWORD - 1 - position] := Add(codeword[CODEWORD - 1 - position], magnitude);
      }
      assert errorPositions[..|errorPositions|] == errorPositions;
      ok := true;
    }

    method ValueAt(locator: seq<bv8>, evaluator: seq<bv8>, ghost syndromes: seq<bv8>, errorCount: nat,
                   position: nat) returns (ok: bool, magnitude: bv8)
      requires Valid() && |locator| == COEFFICIENTS && |syndromes| == PARITY
      requires evaluator == Evaluator(locator, syndromes, PARITY)
      requires errorCount < COEFFICIENTS && Zeros(locator, errorCount + 1) && position < CODEWORD
      ensures ok <==> OddPart(locator, Inv(Exp(position))) != 0
      ensures ok ==> magnitude == Magnitude(locator, syndromes, Exp(position))
    {
      hide Mul, Add, Inv, Exp, OddPart, Eval, Log;
      InversePowerInverts(position);
      WrappedExponent(position);
      var inversePower := antilogarithm[(255 - position) % 255];
      var value := EvaluatorValue(evaluator, inversePower);
      var derivative := Derivative(locator, errorCount, inversePower);
      if derivative == 0 { return false, 0; }
      ok, magnitude := true, Multiply(antilogarithm[position], Multiply(value, Inverse(derivative)));
    }

    // ----- decoding

    /** The bytes after a refusal are not promised to be the ones that came in. */
    method Decode(codeword: array<bv8>) returns (result: int)
      requires Valid() && codeword.Length == CODEWORD
      modifies codeword
      ensures result >= 0 ==> IsCodeword(codeword[..]) && Distance(old(codeword[..]), codeword[..]) == result <= MAX_ERRORS
      ensures result < 0 ==> result == -1 && NoCodewordNear(old(codeword[..]))
      ensures forall c: seq<bv8> :: IsCodeword(c) && Distance(old(codeword[..]), c) <= MAX_ERRORS ==>
        codeword[..] == c && result == Distance(old(codeword[..]), c)
    {
      hide *;
      ghost var r := codeword[..];
      var syndromes, allZero := ComputeSyndromes(codeword);
      if allZero {
        DistanceZero(r, r);
        AlreadyClean(r);
        return 0;
      }
      var locator, length := FindLocator(syndromes);
      ghost var l := locator[..];
      LocatorStart(l, length, syndromes[..]);
      var errorCount := Degree(locator);
      if errorCount == 0 || errorCount > MAX_ERRORS {
        DegreeRefuses(r, l, length, errorCount);
        NoneNear(r);
        return -1;
      }
      var ok, errorPositions := FindPositions(locator[..], errorCount);
      if !ok {
        CountRefuses(r, l, length, errorCount);
        NoneNear(r);
        return -1;
      }
      RootPositionsAscend(l, CODEWORD);
      ok := ApplyValues(codeword, locator[..], syndromes[..], errorCount, errorPositions);
      if !ok {
        DerivativeRefuses(r, l, length);
        NoneNear(r);
        return -1;
      }
      var again, clean := ComputeSyndromes(codeword);
      if !clean {
        SyndromesRefuse(r, l, length);
        NoneNear(r);
        return -1;
      }
      Accepted(r, codeword[..], l, length, errorCount);
      Restored(r, codeword[..], l, length);
      result := errorCount;
    }
  }

  lemma AlreadyClean(r: seq<bv8>)
    requires IsCodeword(r)
    ensures forall c: seq<bv8> :: IsCodeword(c) && Distance(r, c) <= MAX_ERRORS ==> c == r
  {
    hide Distance, Syndromes;
    forall c: seq<bv8> | IsCodeword(c) && Distance(r, c) <= MAX_ERRORS ensures c == r {
      if c != r {
        MinimumDistance(r, c);
      }
    }
  }

  lemma Restored(r: seq<bv8>, n: seq<bv8>, l: seq<bv8>, length: nat)
    requires |r| == CODEWORD && IsLocator(l, length, Syndromes(r)) && |l| == COEFFICIENTS
    requires n == Corrected(r, l, Syndromes(r), RootPositions(l, CODEWORD))
    ensures forall c: seq<bv8> :: IsCodeword(c) && Distance(r, c) <= MAX_ERRORS ==> c == n
  {
    hide Syndromes, IsLocator, Distance, Corrected, RootPositions;
    forall c: seq<bv8> | IsCodeword(c) && Distance(r, c) <= MAX_ERRORS ensures c == n {
      DecodingTheorem(r, c, l, length);
    }
  }

  // No codeword differs from r in 16 bytes or fewer.
  ghost predicate NoCodewordNear(r: seq<bv8>)
    requires |r| == CODEWORD
  {
    forall c: seq<bv8> :: IsCodeword(c) ==> Distance(r, c) > MAX_ERRORS
  }

  lemma NoneNear(r: seq<bv8>)
    requires |r| == CODEWORD && NoCodewordNear(r)
    ensures forall c: seq<bv8> :: IsCodeword(c) ==> Distance(r, c) > MAX_ERRORS
  {}

  // What the loop of FindLocator may use of the invariant.
  lemma BetweenSteps(r: Registers, s: seq<bv8>, n: nat)
    requires Invariant(r, s, n)
    ensures Shaped(r, s, n) && r.locator[0] == 1 && r.last != 0
    ensures Zeros(r.locator, r.length + 1) && Generates(r.locator, s, r.length, n)
  {}

  lemma {:induction false} RootPositionsGrow(l: seq<bv8>, m: nat, n: nat)
    requires m <= n <= CODEWORD
    ensures |RootPositions(l, m)| <= |RootPositions(l, n)|
  {
    hide Eval, InversePower;
    if m < n {
      RootPositionsGrow(l, m, n - 1);
    }
  }

  ghost predicate Ascending(ps: seq<nat>) {
    forall i, j :: 0 <= i < j < |ps| ==> ps[i] < ps[j]
  }

  lemma {:induction false} RootPositionsAscend(l: seq<bv8>, n: nat)
    requires n <= CODEWORD
    ensures Ascending(RootPositions(l, n))
    ensures forall k :: 0 <= k < |RootPositions(l, n)| ==> RootPositions(l, n)[k] < n
  {
    hide Eval, InversePower;
    if n > 0 {
      RootPositionsAscend(l, n - 1);
    }
  }

  lemma LocatorStart(l: seq<bv8>, length: nat, s: seq<bv8>)
    requires IsLocator(l, length, s)
    ensures |l| == COEFFICIENTS && |s| == PARITY && l[0] == 1
  {}

  lemma OddPartStep(p: seq<bv8>, x: bv8, power: bv8, sum: bv8)
    requires |p| >= 2
    ensures Add(sum, Mul(power, OddPart(p, x)))
         == Add(Add(sum, Mul(p[1], power)), Mul(Mul(power, Mul(x, x)), OddPart(p[2..], x)))
  {
    hide Mul, Add;
    var d := OddPart(p[2..], x);
    MulDistributes(power, p[1], Mul(Mul(x, x), d));
    MulCommutes(power, p[1]);
    MulAssociates(power, Mul(x, x), d);
    AddLaws(sum, Mul(p[1], power), Mul(Mul(power, Mul(x, x)), d));
  }

  lemma {:induction false} OddPartZero(p: seq<bv8>, x: bv8)
    requires forall k :: 1 <= k < |p| ==> p[k] == 0
    ensures OddPart(p, x) == 0
  {
    hide Mul, Add;
    if |p| >= 2 {
      OddPartZero(p[2..], x);
      MulUnits(Mul(x, x));
      AddLaws(0, 0, 0);
    }
  }

  lemma CorrectedExtends(r: seq<bv8>, l: seq<bv8>, s: seq<bv8>, ps: seq<nat>, n: nat)
    requires |r| == CODEWORD && |l| == COEFFICIENTS && |s| == PARITY && n < |ps|
    requires Ascending(ps) && ps[n] < CODEWORD
    ensures var b := CODEWORD - 1 - ps[n];
      var c := Corrected(r, l, s, ps[..n]);
      Corrected(r, l, s, ps[..n + 1]) == c[b := Add(c[b], Magnitude(l, s, Exp(ps[n])))]
  {
    hide Magnitude, Add, Exp;
    assert ps[..n + 1] == ps[..n] + [ps[n]];
    assert ps[n] !in ps[..n];
  }

  // ----- why a refusal is right: with a codeword near, no phase can fail

  lemma DegreeRefuses(r: seq<bv8>, l: seq<bv8>, length: nat, degree: nat)
    requires |r| == CODEWORD && IsLocator(l, length, Syndromes(r)) && !IsCodeword(r)
    requires degree < COEFFICIENTS && Zeros(l, degree + 1)
    requires degree == 0 || degree > MAX_ERRORS
    requires degree > 0 ==> l[degree] != 0
    ensures NoCodewordNear(r)
  {
    hide Syndromes, IsLocator, Distance, Corrected, RootPositions;
    LocatorStart(l, length, Syndromes(r));
    forall c: seq<bv8> | IsCodeword(c) ensures Distance(r, c) > MAX_ERRORS {
      if Distance(r, c) <= MAX_ERRORS {
        DecodingTheorem(r, c, l, length);
        DistanceZero(r, c);
      }
    }
  }

  lemma DegreeIsDistance(r: seq<bv8>, c: seq<bv8>, l: seq<bv8>, length: nat, degree: nat)
    requires |r| == CODEWORD && IsLocator(l, length, Syndromes(r))
    requires IsCodeword(c) && Distance(r, c) <= MAX_ERRORS
    requires 0 < degree < COEFFICIENTS && Zeros(l, degree + 1) && l[degree] != 0
    ensures Distance(r, c) == degree
  {
    hide Syndromes, IsLocator, Distance, Corrected, RootPositions;
    LocatorStart(l, length, Syndromes(r));
    DecodingTheorem(r, c, l, length);
  }

  lemma CountRefuses(r: seq<bv8>, l: seq<bv8>, length: nat, degree: nat)
    requires |r| == CODEWORD && IsLocator(l, length, Syndromes(r))
    requires 0 < degree < COEFFICIENTS && Zeros(l, degree + 1) && l[degree] != 0
    requires |RootPositions(l, CODEWORD)| != degree
    ensures NoCodewordNear(r)
  {
    hide Syndromes, IsLocator, Distance, Corrected, RootPositions;
    LocatorStart(l, length, Syndromes(r));
    forall c: seq<bv8> | IsCodeword(c) ensures Distance(r, c) > MAX_ERRORS {
      if Distance(r, c) <= MAX_ERRORS {
        DecodingTheorem(r, c, l, length);
        DegreeIsDistance(r, c, l, length, degree);
      }
    }
  }

  lemma DerivativeRefuses(r: seq<bv8>, l: seq<bv8>, length: nat)
    requires |r| == CODEWORD && IsLocator(l, length, Syndromes(r))
    requires var ps := RootPositions(l, CODEWORD);
      exists k :: 0 <= k < |ps| && OddPart(l, Inv(Exp(ps[k]))) == 0
    ensures NoCodewordNear(r)
  {
    hide Syndromes, IsLocator, Distance, Corrected, RootPositions, OddPart, Inv, Exp;
    LocatorStart(l, length, Syndromes(r));
    forall c: seq<bv8> | IsCodeword(c) ensures Distance(r, c) > MAX_ERRORS {
      if Distance(r, c) <= MAX_ERRORS {
        DecodingTheorem(r, c, l, length);
      }
    }
  }

  lemma SyndromesRefuse(r: seq<bv8>, l: seq<bv8>, length: nat)
    requires |r| == CODEWORD && IsLocator(l, length, Syndromes(r)) && |l| == COEFFICIENTS
    requires !IsCodeword(Corrected(r, l, Syndromes(r), RootPositions(l, CODEWORD)))
    ensures NoCodewordNear(r)
  {
    hide Syndromes, IsLocator, Distance, Corrected, RootPositions;
    LocatorStart(l, length, Syndromes(r));
    forall c: seq<bv8> | IsCodeword(c) ensures Distance(r, c) > MAX_ERRORS {
      if Distance(r, c) <= MAX_ERRORS {
        DecodingTheorem(r, c, l, length);
      }
    }
  }

  // A clean result is a codeword, no further off than the positions changed, so it is exactly
  // as far off as the locator's degree.
  lemma Accepted(r: seq<bv8>, c: seq<bv8>, l: seq<bv8>, length: nat, degree: nat)
    requires |r| == CODEWORD && IsLocator(l, length, Syndromes(r)) && |l| == COEFFICIENTS
    requires 0 < degree <= MAX_ERRORS && Zeros(l, degree + 1) && l[degree] != 0
    requires |RootPositions(l, CODEWORD)| == degree
    requires c == Corrected(r, l, Syndromes(r), RootPositions(l, CODEWORD)) && IsCodeword(c)
    ensures Distance(r, c) == degree
  {
    hide Syndromes, IsLocator, RootPositions, Distance;
    var ps := RootPositions(l, CODEWORD);
    RootPositionsAscend(l, CODEWORD);
    ChangesBoundWeight(r, c, ps);
    DegreeIsDistance(r, c, l, length, degree);
  }

  lemma ChangesBoundWeight(r: seq<bv8>, c: seq<bv8>, ps: seq<nat>)
    requires |r| == |c| == CODEWORD
    requires forall b :: 0 <= b < CODEWORD && CODEWORD - 1 - b !in ps ==> c[b] == r[b]
    ensures Distance(r, c) <= |ps|
  {
    hide Add;
    var e := Difference(r, c);
    PatternShape(e);
    var mine := Positions(e);
    forall k | 0 <= k < |mine| ensures mine[k] in ps {
      AddLaws(r[CODEWORD - 1 - mine[k]], 0, 0);
    }
    ElementsSize(mine);
    SubsetSize(Elements(mine), Elements(ps));
    ElementsSize(ps);
  }

  lemma FirstTerm(l: seq<bv8>, s: seq<bv8>, j: nat)
    requires j < |s| && 0 < |l| && l[0] == 1
    ensures Convolve(l, s, j, 1) == s[j]
  {
    hide Mul, Add;
    MulUnits(s[j]);
    AddLaws(s[j], 0, 0);
    assert Convolve(l, s, j, 0) == 0;
  }

  lemma PrefixOfOne(l: seq<bv8>, x: bv8)
    requires |l| > 0 && l[0] == 1
    ensures Eval(l[..1], x) == 1 && Pow(x, 0) == 1
  {
    hide Mul, Add;
    assert l[..1] == [l[0]];
    assert Eval([l[0]], x) == Add(1, Mul(x, 0));
    MulUnits(x);
    AddLaws(1, 0, 0);
  }

  lemma StartHolds(r: Registers, s: seq<bv8>)
    requires |s| == PARITY && |r.locator| == COEFFICIENTS && r.previous == r.locator
    requires r.length == 0 && r.shift == 1 && r.last == 1
    requires r.locator[0] == 1 && Zeros(r.locator, 1)
    ensures Invariant(r, s, 0) && NoLongerThanPatterns(0, s)
  {}

  function Index(b: bv8): (i: nat)
    ensures i < 256
  {
    b as int
  }

  lemma IndexOneToOne(a: bv8, b: bv8)
    ensures Index(a) == Index(b) ==> a == b
  {
    ByteNumber(a, b);
  }

  lemma IndexesDistinct(i: nat)
    requires i < 255
    ensures forall k: nat :: k < i ==> Index(Exp(k)) != Index(Exp(i))
  {
    hide Exp, Index;
    forall k: nat | k < i ensures Index(Exp(k)) != Index(Exp(i)) {
      ExpDistinct(k, i);
      IndexOneToOne(Exp(k), Exp(i));
    }
  }

  lemma NoIndexIsZero()
    ensures forall k: nat :: Index(Exp(k)) != Index(0)
  {
    hide Exp, Index;
    forall k: nat ensures Index(Exp(k)) != Index(0) {
      ExpNonzero(k);
      IndexOneToOne(Exp(k), 0);
    }
  }

  ghost predicate TablesHold(antilogarithm: seq<bv8>, logarithm: seq<nat>) {
    && |antilogarithm| == 512 && |logarithm| == 256
    && (forall i :: 0 <= i < 512 ==> antilogarithm[i] == Exp(i))
    && (forall b: bv8 :: logarithm[Index(b)] == Log(b))
  }

  function TableProduct(antilogarithm: seq<bv8>, logarithm: seq<nat>, left: bv8, right: bv8): (product: bv8)
    requires TablesHold(antilogarithm, logarithm)
    ensures product == Mul(left, right)
  {
    if left == 0 || right == 0 then 0
    else antilogarithm[logarithm[Index(left)] + logarithm[Index(right)]]
  }

  function Narrow(element: bv16): bv8
    requires element < 256
  {
    element as bv8
  }

  function Broad(b: bv8): (element: bv16)
    ensures element < 256
  {
    b as bv16
  }

  lemma NarrowReturns(b: bv8)
    ensures Narrow(Broad(b)) == b
  {}

  method BuildTables() returns (antilogarithm: seq<bv8>, logarithm: seq<nat>)
    ensures TablesHold(antilogarithm, logarithm)
  {
    hide Exp, Log, Index;
    var a := new bv8[512];
    var l := new nat[256];
    FillPowers(a, l);
    for i := 255 to 512
      invariant forall k :: 0 <= k < i ==> a[k] == Exp(k)
      invariant forall k :: 0 <= k < 255 ==> l[Index(Exp(k))] == k
    {
      a[i] := a[i - 255];
      ExpWraps(i - 255);
    }
    NoIndexIsZero();
    l[Index(0)] := 0;
    antilogarithm, logarithm := a[..], l[..];
    forall b: bv8 ensures logarithm[Index(b)] == Log(b) {
      assert b == 0 || Exp(Log(b)) == b;
    }
  }

  // The first loop: each power and its exponent.
  method FillPowers(a: array<bv8>, l: array<nat>)
    requires a.Length == 512 && l.Length == 256
    modifies a, l
    ensures forall k :: 0 <= k < 255 ==> a[k] == Exp(k) && l[Index(Exp(k))] == k
  {
    hide Exp, Log, Doubled, Xtime, Index, Narrow, Broad;
    var element: bv16 := 1;
    ExpZero();
    FirstElement();
    for i := 0 to 255
      invariant element == Broad(Exp(i))
      invariant forall k :: 0 <= k < i ==> a[k] == Exp(k)
      invariant forall k :: 0 <= k < i ==> l[Index(Exp(k))] == k
    {
      NarrowReturns(Exp(i));
      a[i] := Narrow(element);
      l[Index(Narrow(element))] := i;
      IndexesDistinct(i);
      NextElement(Exp(i));
      element := Doubled(element);
      ExpNext(i);
    }
  }

  lemma FirstElement()
    ensures Broad(1) == 1
  {}

  lemma NextElement(b: bv8)
    ensures Doubled(Broad(b)) == Broad(Xtime(b))
  {
    hide Doubled, Xtime;
    DoubledIsXtime(b as bv16, b);
  }

  method BuildGenerator(antilogarithm: seq<bv8>, logarithm: seq<nat>) returns (generator: seq<bv8>)
    requires TablesHold(antilogarithm, logarithm)
    ensures generator == Generator(PARITY)
  {
    hide Exp, Mul, Add, TimesRoot;
    var g := new bv8[PARITY + 1];
    g[0] := 1;
    for i := 0 to PARITY
      invariant g[..i + 1] == Generator(i)
    {
      g[i + 1] := 0;
      assert g[..i + 1] == Generator(i);
      MultiplyByRoot(antilogarithm, logarithm, g, i, antilogarithm[i]);
    }
    generator := g[..];
  }

  // g[..i + 1] times x + root, in place, the coefficients taken from the top.
  method MultiplyByRoot(antilogarithm: seq<bv8>, logarithm: seq<nat>, g: array<bv8>, i: nat, root: bv8)
    requires TablesHold(antilogarithm, logarithm)
    requires i + 1 < g.Length && g[i + 1] == 0
    modifies g
    ensures g[..i + 2] == TimesRoot(old(g[..i + 1]), root)
  {
    hide Exp, Mul, Add;
    ghost var was := g[..];
    for j := i + 2 downto 1
      invariant forall k :: j <= k < i + 2 ==> g[k] == Add(was[k - 1], Mul(was[k], root))
      invariant forall k :: 0 <= k < j ==> g[k] == was[k]
    {
      g[j] := Add(g[j - 1], TableProduct(antilogarithm, logarithm, g[j], root));
    }
    g[0] := TableProduct(antilogarithm, logarithm, g[0], root);
    ghost var product := TimesRoot(was[..i + 1], root);
    forall k | 0 <= k < |product| ensures g[k] == product[k] {
      MulCommutes(was[k], root);
      AddLaws(Mul(root, was[k]), 0, 0);
    }
  }
}
