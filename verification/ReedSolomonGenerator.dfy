/**
 The generator polynomial and the systematic encoder of firmware/core/fec/reed_solomon, as
 functions on sequences: the generator's roots are the first 32 powers of x, and data followed
 by what the feedback register holds is a codeword, the only one with that data.
 */
module ReedSolomonGenerator {
  import opened GaloisField
  import opened Polynomials
  import opened ShiftRegister
  import opened ReedSolomonCode

  // One turn of the table loop: uint16_t element <<= 1; if it passes 0xFF, fold by 0x11D.
  function Doubled(element: bv16): bv16 {
    var shifted := element << 1;
    if shifted & 0x100 != 0 then shifted ^ 0x11D else shifted
  }

  // The same, without the branch.
  function Folded(element: bv16): bv16 {
    (element << 1) ^ ((((element << 1) >> 8) & 1) * 0x11D)
  }

  lemma DoubledIsFolded(element: bv16)
    ensures Doubled(element) == Folded(element)
  {
    var shifted := element << 1;
    if shifted & 0x100 != 0 {
      assert (shifted >> 8) & 1 == 1;
    } else {
      assert (shifted >> 8) & 1 == 0;
    }
  }

  lemma DoubledIsXtime(element: bv16, b: bv8)
    requires element == b as bv16
    ensures Doubled(element) == Xtime(b) as bv16
  {
    DoubledIsFolded(element);
  }

  // g times x + r: the coefficients moved up one place, plus r times them.
  ghost function TimesRoot(g: seq<bv8>, r: bv8): (p: seq<bv8>)
    ensures |p| == |g| + 1
  {
    Combined([0] + g, r, g + [0])
  }

  // The product of x + x^k for the first n powers.
  ghost function Generator(n: nat): (g: seq<bv8>)
    ensures |g| == n + 1
  {
    if n == 0 then [1] else TimesRoot(Generator(n - 1), Exp(n - 1))
  }

  lemma TimesRootEval(g: seq<bv8>, r: bv8, x: bv8)
    ensures Eval(TimesRoot(g, r), x) == Mul(Add(x, r), Eval(g, x))
  {
    hide Mul, Add, Combined;
    EvalCombined([0] + g, r, g + [0], x);
    assert ([0] + g)[1..] == g;
    assert Eval([0] + g, x) == Add(0, Mul(x, Eval(g, x)));
    AddLaws(Mul(x, Eval(g, x)), 0, 0);
    EvalExtends(g, 0, x);
    MulUnits(Pow(x, |g|));
    AddLaws(Eval(g, x), 0, 0);
    MulDistributes(Eval(g, x), x, r);
  }

  lemma {:induction false} GeneratorRoots(n: nat, k: nat)
    requires k < n
    ensures Eval(Generator(n), Exp(k)) == 0
  {
    hide Mul, Add, Exp, TimesRoot;
    TimesRootEval(Generator(n - 1), Exp(n - 1), Exp(k));
    if k == n - 1 {
      AddLaws(Exp(k), 0, 0);
      MulUnits(Eval(Generator(n - 1), Exp(k)));
    } else {
      GeneratorRoots(n - 1, k);
      MulUnits(Add(Exp(k), Exp(n - 1)));
    }
  }

  lemma TimesRootLast(g: seq<bv8>, r: bv8)
    requires |g| > 0
    ensures TimesRoot(g, r)[|g|] == g[|g| - 1]
  {
    hide Mul, Add;
    MulUnits(r);
    AddLaws(g[|g| - 1], 0, 0);
  }

  lemma {:induction false} GeneratorMonic(n: nat)
    ensures Generator(n)[n] == 1
  {
    hide TimesRoot, Exp;
    if n > 0 {
      GeneratorMonic(n - 1);
      TimesRootLast(Generator(n - 1), Exp(n - 1));
    }
  }

  // ----- encoding

  ghost function Reversed(g: seq<bv8>): (h: seq<bv8>)
    ensures |h| == |g|
  {
    seq(|g|, j requires 0 <= j < |g| => g[|g| - 1 - j])
  }

  lemma {:induction false} HornerReversed(g: seq<bv8>, x: bv8)
    ensures Horner(Reversed(g), x) == Eval(g, x)
  {
    if |g| > 0 {
      hide Mul, Add;
      HornerReversed(g[1..], x);
      assert Reversed(g)[..|g| - 1] == Reversed(g[1..]);
      MulCommutes(x, Eval(g[1..], x));
    }
  }

  lemma {:induction false} HornerCombined(p: seq<bv8>, c: bv8, q: seq<bv8>, x: bv8)
    requires |p| == |q|
    ensures Horner(Combined(p, c, q), x) == Add(Horner(p, x), Mul(c, Horner(q, x)))
  {
    hide Mul, Add;
    if |p| == 0 {
      MulUnits(c);
      AddLaws(0, 0, 0);
    } else {
      var n := |p| - 1;
      HornerCombined(p[..n], c, q[..n], x);
      assert Combined(p, c, q)[..n] == Combined(p[..n], c, q[..n]);
      var a, b := Horner(p[..n], x), Horner(q[..n], x);
      MulDistributes(x, a, Mul(c, b));
      MulAssociates(c, b, x);
      MulDistributes(c, q[n], Mul(b, x));
      AddExchange(p[n], Mul(c, q[n]), Mul(a, x), Mul(c, Mul(b, x)));
    }
  }

  // The generator without its leading one, highest coefficient first.
  ghost function GeneratorTail(): (h: seq<bv8>)
    ensures |h| == PARITY
  {
    Reversed(Generator(PARITY)[..PARITY])
  }

  lemma GeneratorTailValue(k: nat)
    requires k < PARITY
    ensures Horner(GeneratorTail(), Exp(k)) == Pow(Exp(k), PARITY)
  {
    hide Mul, Add, Exp, Generator, Reversed, Horner, Eval, Pow;
    var g, x := Generator(PARITY), Exp(k);
    HornerReversed(g[..PARITY], x);
    GeneratorRoots(PARITY, k);
    GeneratorMonic(PARITY);
    assert g == g[..PARITY] + [1];
    EvalExtends(g[..PARITY], 1, x);
    MulUnits(Pow(x, PARITY));
    AddLaws(Eval(g[..PARITY], x), Pow(x, PARITY), 0);
  }

  // One data byte through the feedback register.
  ghost function ParityStep(parity: seq<bv8>, d: bv8): (p: seq<bv8>)
    requires |parity| == PARITY
    ensures |p| == PARITY
  {
    Combined(parity[1..] + [0], Add(d, parity[0]), GeneratorTail())
  }

  ghost function ParityOf(data: seq<bv8>): (p: seq<bv8>)
    ensures |p| == PARITY
  {
    if |data| == 0 then seq(PARITY, _ => 0)
    else ParityStep(ParityOf(data[..|data| - 1]), data[|data| - 1])
  }

  lemma ParityStepValue(parity: seq<bv8>, d: bv8, k: nat)
    requires |parity| == PARITY && k < PARITY
    ensures Horner(ParityStep(parity, d), Exp(k))
         == Add(Mul(Horner(parity, Exp(k)), Exp(k)), Mul(d, Pow(Exp(k), PARITY)))
  {
    hide Mul, Add, Exp, GeneratorTail, Combined;
    var x, first, rest := Exp(k), parity[0], parity[1..];
    var w, h := Pow(x, PARITY), Horner(rest, x);
    HornerCombined(rest + [0], Add(d, first), GeneratorTail(), x);
    GeneratorTailValue(k);
    assert (rest + [0])[..|rest|] == rest;
    AddLaws(Mul(h, x), 0, 0);
    assert Horner(rest + [0], x) == Mul(h, x);
    assert [first] + rest == parity;
    HornerHead(first, rest, x);
    var v := Pow(x, |rest|);
    assert w == Mul(x, v);
    MulDistributes(x, Mul(first, v), h);
    MulAssociates(first, v, x);
    MulCommutes(v, x);
    assert Mul(Horner(parity, x), x) == Add(Mul(first, w), Mul(h, x));
    MulDistributes(w, d, first);
    AddLaws(Mul(d, w), Mul(first, w), 0);
    AddLaws(Mul(first, w), Mul(h, x), 0);
    AddLaws(Mul(h, x), Mul(first, w), Mul(d, w));
  }

  lemma {:induction false} ParityValue(data: seq<bv8>, k: nat)
    requires k < PARITY
    ensures Horner(ParityOf(data), Exp(k)) == Mul(Horner(data, Exp(k)), Pow(Exp(k), PARITY))
  {
    hide Mul, Add, Exp, ParityStep, Pow;
    var x := Exp(k);
    var w := Pow(x, PARITY);
    if |data| == 0 {
      HornerZero(PARITY, x);
      MulUnits(w);
    } else {
      var front, last := data[..|data| - 1], data[|data| - 1];
      ParityValue(front, k);
      ParityStepValue(ParityOf(front), last, k);
      var h := Horner(front, x);
      MulAssociates(h, w, x);
      MulCommutes(w, x);
      MulAssociates(h, x, w);
      MulDistributes(w, last, Mul(h, x));
      AddLaws(Mul(last, w), Mul(Mul(h, x), w), 0);
    }
  }

  lemma {:induction false} HornerZero(n: nat, x: bv8)
    ensures Horner(seq(n, _ => 0 as bv8), x) == 0
  {
    hide Mul, Add;
    if n > 0 {
      HornerZero(n - 1, x);
      assert seq(n, _ => 0 as bv8)[..n - 1] == seq(n - 1, _ => 0 as bv8);
      MulUnits(x);
      AddLaws(0, 0, 0);
    }
  }

  // Data followed by its parity has zero syndromes.
  lemma EncodingIsCodeword(data: seq<bv8>)
    requires |data| == DATA
    ensures IsCodeword(data + ParityOf(data))
  {
    hide Mul, Add, Exp, ParityOf, Horner;
    var c := data + ParityOf(data);
    forall k | 0 <= k < PARITY ensures Syndromes(c)[k] == 0 {
      HornerJoins(data, ParityOf(data), Exp(k));
      ParityValue(data, k);
      AddLaws(Horner(ParityOf(data), Exp(k)), 0, 0);
    }
  }

  // The code has no other words: a word of zero syndromes is its own data, encoded.
  lemma CodewordsAreEncodings(c: seq<bv8>)
    requires IsCodeword(c)
    ensures c == c[..DATA] + ParityOf(c[..DATA])
  {
    hide ParityOf, Syndromes;
    var d := c[..DATA] + ParityOf(c[..DATA]);
    EncodingIsCodeword(c[..DATA]);
    if c != d {
      MinimumDistance(c, d);
      AgreementBoundsWeight(c, d, DATA);
    }
  }

  lemma {:induction false} WeightBound(e: seq<bv8>, n: nat)
    requires n <= |e| && AllZero(e[..n])
    ensures Weight(e) <= |e| - n
  {
    if n > 0 {
      assert e[..n][0] == e[0];
      assert e[1..][..n - 1] == e[..n][1..];
      WeightBound(e[1..], n - 1);
    } else if |e| > 0 {
      WeightBound(e[1..], 0);
    }
  }

  lemma AgreementBoundsWeight(a: seq<bv8>, b: seq<bv8>, n: nat)
    requires |a| == |b| && n <= |a| && a[..n] == b[..n]
    ensures Distance(a, b) <= |a| - n
  {
    hide Add;
    forall k | 0 <= k < n ensures Difference(a, b)[k] == 0 {
      assert a[..n][k] == b[..n][k];
      AddLaws(a[k], a[k], 0);
    }
    WeightBound(Difference(a, b), n);
  }
}
