/**
 The RS(255,223) code: words of 255 bytes, the first byte the coefficient of x^254, whose 32
 syndromes are zero.  Two codewords that differ at all differ in at least 33 bytes, and a word
 with at most 16 damaged bytes determines its codeword through the locator, the roots and
 Forney's values alone (DecodingTheorem).
 */
module ReedSolomonCode {
  import opened GaloisField
  import opened Pigeonhole
  import opened Polynomials
  import opened ShiftRegister
  import opened ErrorPatterns

  const CODEWORD: nat := 255
  const DATA: nat := 223
  const MAX_ERRORS: nat := 16

  // The word's value at x, highest coefficient first.
  ghost function Horner(c: seq<bv8>, x: bv8): bv8 {
    if |c| == 0 then 0 else Add(c[|c| - 1], Mul(Horner(c[..|c| - 1], x), x))
  }

  ghost function Syndromes(c: seq<bv8>): (s: seq<bv8>)
    ensures |s| == PARITY
  {
    seq(PARITY, i requires 0 <= i < PARITY => Horner(c, Exp(i)))
  }

  ghost predicate IsCodeword(c: seq<bv8>) {
    |c| == CODEWORD && AllZero(Syndromes(c))
  }

  ghost function Difference(a: seq<bv8>, b: seq<bv8>): (e: seq<bv8>)
    requires |a| == |b|
    ensures |e| == |a|
  {
    seq(|a|, i requires 0 <= i < |a| => Add(a[i], b[i]))
  }

  ghost function Weight(e: seq<bv8>): nat {
    if |e| == 0 then 0 else Weight(e[1..]) + if e[0] != 0 then 1 else 0
  }

  // How many bytes differ.
  ghost function Distance(a: seq<bv8>, b: seq<bv8>): nat
    requires |a| == |b|
  {
    Weight(Difference(a, b))
  }

  // ----- the value of a word

  lemma {:induction false} HornerHead(a: bv8, t: seq<bv8>, x: bv8)
    ensures Horner([a] + t, x) == Add(Mul(a, Pow(x, |t|)), Horner(t, x))
  {
    hide Mul, Add;
    var c := [a] + t;
    if |t| == 0 {
      assert c == [a] && c[..0] == [];
      MulUnits(x);
      MulUnits(a);
      AddLaws(a, 0, 0);
    } else {
      var front, last := t[..|t| - 1], t[|t| - 1];
      assert c[..|c| - 1] == [a] + front;
      HornerHead(a, front, x);
      var p, h := Pow(x, |front|), Horner(front, x);
      MulDistributes(x, Mul(a, p), h);
      MulAssociates(a, p, x);
      MulCommutes(p, x);
      AddLaws(Mul(a, Mul(x, p)), Mul(h, x), last);
      AddLaws(last, Add(Mul(a, Mul(x, p)), Mul(h, x)), 0);
      AddLaws(Mul(h, x), last, 0);
    }
  }

  lemma {:induction false} HornerJoins(a: seq<bv8>, b: seq<bv8>, x: bv8)
    ensures Horner(a + b, x) == Add(Mul(Horner(a, x), Pow(x, |b|)), Horner(b, x))
  {
    hide Mul, Add;
    if |b| == 0 {
      assert a + b == a;
      MulUnits(Horner(a, x));
      AddLaws(Horner(a, x), 0, 0);
    } else {
      var c, front, last := a + b, b[..|b| - 1], b[|b| - 1];
      assert c[..|c| - 1] == a + front;
      HornerJoins(a, front, x);
      var h, p, g := Horner(a, x), Pow(x, |front|), Horner(front, x);
      MulDistributes(x, Mul(h, p), g);
      MulAssociates(h, p, x);
      MulCommutes(p, x);
      AddLaws(last, Add(Mul(h, Mul(x, p)), Mul(g, x)), 0);
      AddLaws(Mul(h, Mul(x, p)), Mul(g, x), last);
      AddLaws(Mul(g, x), last, 0);
    }
  }

  lemma {:induction false} HornerDifference(a: seq<bv8>, b: seq<bv8>, x: bv8)
    requires |a| == |b|
    ensures Horner(Difference(a, b), x) == Add(Horner(a, x), Horner(b, x))
  {
    hide Mul, Add;
    if |a| == 0 {
      AddLaws(0, 0, 0);
    } else {
      var n := |a| - 1;
      HornerDifference(a[..n], b[..n], x);
      assert Difference(a, b)[..n] == Difference(a[..n], b[..n]);
      MulDistributes(x, Horner(a[..n], x), Horner(b[..n], x));
      AddExchange(a[n], b[n], Mul(Horner(a[..n], x), x), Mul(Horner(b[..n], x), x));
    }
  }

  // Damage shows in the syndromes exactly as it would on the zero word.
  lemma SyndromesOfDamage(r: seq<bv8>, c: seq<bv8>)
    requires IsCodeword(c) && |r| == CODEWORD
    ensures Syndromes(Difference(r, c)) == Syndromes(r)
  {
    hide Add, Horner;
    forall i | 0 <= i < PARITY ensures Syndromes(Difference(r, c))[i] == Syndromes(r)[i] {
      HornerDifference(r, c, Exp(i));
      assert Syndromes(c)[i] == 0;
      AddLaws(Horner(r, Exp(i)), 0, 0);
    }
  }

  // ----- the pattern of a damaged word: places ascending from the last byte

  ghost function Positions(e: seq<bv8>): (ps: seq<nat>) {
    if |e| == 0 then []
    else if e[0] != 0 then Positions(e[1..]) + [|e| - 1]
    else Positions(e[1..])
  }

  ghost function Values(e: seq<bv8>): (ys: seq<bv8>) {
    if |e| == 0 then []
    else if e[0] != 0 then Values(e[1..]) + [e[0]]
    else Values(e[1..])
  }

  ghost function Places(ps: seq<nat>): (xs: seq<bv8>)
    ensures |xs| == |ps|
  {
    seq(|ps|, k requires 0 <= k < |ps| => Exp(ps[k]))
  }

  lemma {:induction false} PatternShape(e: seq<bv8>)
    ensures |Positions(e)| == |Values(e)| == Weight(e)
    ensures forall k :: 0 <= k < |Positions(e)| ==>
      && Positions(e)[k] < |e|
      && Values(e)[k] == e[|e| - 1 - Positions(e)[k]]
      && Values(e)[k] != 0
    ensures forall i, j :: 0 <= i < j < |Positions(e)| ==> Positions(e)[i] < Positions(e)[j]
    ensures forall p: nat :: p < |e| && e[|e| - 1 - p] != 0 ==> p in Positions(e)
  {
    if |e| > 0 {
      PatternShape(e[1..]);
      forall p: nat | p < |e| && e[|e| - 1 - p] != 0 ensures p in Positions(e) {
        if p < |e| - 1 {
          assert e[1..][|e| - 2 - p] == e[|e| - 1 - p];
          assert p in Positions(e[1..]);
        }
      }
      forall k | 0 <= k < |Positions(e)|
        ensures Positions(e)[k] < |e| && Values(e)[k] == e[|e| - 1 - Positions(e)[k]] && Values(e)[k] != 0
      {
        if k < |Positions(e[1..])| {
          var p := Positions(e[1..])[k];
          assert e[1..][|e| - 2 - p] == e[|e| - 1 - p];
        }
      }
    }
  }

  lemma PowersSwap(i: nat, j: nat)
    ensures Pow(Exp(i), j) == Pow(Exp(j), i)
  {
    hide Exp, Pow;
    PowExp(i, j);
    PowExp(j, i);
    assert i * j == j * i;
  }

  lemma PowerSumExtends(ys: seq<bv8>, xs: seq<bv8>, y: bv8, x: bv8, j: nat)
    requires |ys| == |xs|
    ensures PowerSum(ys + [y], xs + [x], j) == Add(PowerSum(ys, xs, j), Mul(y, Pow(x, j)))
  {
    hide Mul, Add, Pow;
    assert (ys + [y])[..|ys|] == ys && (xs + [x])[..|xs|] == xs;
  }

  lemma PatternHead(e: seq<bv8>)
    requires |e| > 0
    ensures var t := e[1..];
      if e[0] == 0 then Values(e) == Values(t) && Positions(e) == Positions(t)
      else
        && Values(e) == Values(t) + [e[0]]
        && Places(Positions(e)) == Places(Positions(t)) + [Exp(|t|)]
  {
    hide Exp;
  }

  lemma NothingSums(e: seq<bv8>, i: nat)
    requires |e| == 0
    ensures Horner(e, Exp(i)) == PowerSum(Values(e), Places(Positions(e)), i) == 0
  {
    hide Mul, Add, Exp;
  }

  lemma {:induction false} PatternSums(e: seq<bv8>, i: nat)
    requires |Values(e)| == |Positions(e)|
    ensures Horner(e, Exp(i)) == PowerSum(Values(e), Places(Positions(e)), i)
  {
    hide Mul, Add, Exp, Horner, PowerSum, Pow, Values, Positions, Places;
    if |e| == 0 {
      NothingSums(e, i);
    } else {
      var t := e[1..];
      PatternShape(t);
      PatternHead(e);
      PatternSums(t, i);
      assert [e[0]] + t == e;
      HornerHead(e[0], t, Exp(i));
      var ys, xs := Values(t), Places(Positions(t));
      if e[0] == 0 {
        MulUnits(Pow(Exp(i), |t|));
        AddLaws(Horner(t, Exp(i)), 0, 0);
      } else {
        PowerSumExtends(ys, xs, e[0], Exp(|t|), i);
        PowersSwap(i, |t|);
        AddLaws(Mul(e[0], Pow(Exp(i), |t|)), Horner(t, Exp(i)), 0);
      }
    }
  }

  lemma PlacesDistinct(ps: seq<nat>)
    requires forall k :: 0 <= k < |ps| ==> ps[k] < 255
    requires forall i, j :: 0 <= i < j < |ps| ==> ps[i] < ps[j]
    ensures DistinctNonzero(Places(ps))
  {
    hide Exp;
    var xs := Places(ps);
    forall k | 0 <= k < |xs| ensures xs[k] != 0 {
      ExpNonzero(ps[k]);
    }
    forall i, j | 0 <= i < j < |xs| ensures xs[i] != xs[j] {
      ExpDistinct(ps[i], ps[j]);
    }
  }

  lemma PatternExplains(e: seq<bv8>)
    requires |e| == CODEWORD
    ensures |Values(e)| == |Positions(e)|
    ensures Explains(Values(e), Places(Positions(e)), Syndromes(e))
  {
    hide Exp, Horner, PowerSum;
    PatternShape(e);
    PlacesDistinct(Positions(e));
    forall i | 0 <= i < PARITY
      ensures Syndromes(e)[i] == PowerSum(Values(e), Places(Positions(e)), i)
    {
      PatternSums(e, i);
    }
  }

  // ----- distance

  lemma {:induction false} WeightZero(e: seq<bv8>)
    ensures Weight(e) == 0 <==> AllZero(e)
  {
    if |e| > 0 {
      WeightZero(e[1..]);
      assert e == [e[0]] + e[1..];
    }
  }

  lemma DistanceZero(a: seq<bv8>, b: seq<bv8>)
    requires |a| == |b|
    ensures Distance(a, b) == 0 <==> a == b
  {
    hide Add;
    var e := Difference(a, b);
    WeightZero(e);
    forall i | 0 <= i < |a| ensures e[i] == 0 <==> a[i] == b[i] {
      AddLaws(a[i], b[i], 0);
    }
  }

  // Two distinct codewords differ in at least 33 bytes.
  lemma MinimumDistance(a: seq<bv8>, b: seq<bv8>)
    requires IsCodeword(a) && IsCodeword(b) && a != b
    ensures Distance(a, b) >= 33
  {
    hide Syndromes, PowerSum, Add;
    var e := Difference(a, b);
    PatternShape(e);
    if Weight(e) <= PARITY {
      SyndromesOfDamage(a, b);
      PatternExplains(e);
      var ys := Values(e);
      if |ys| > 0 {
        var first := ys[0];
        WeightsVanish(ys, Places(Positions(e)), 0);
        assert false;
      }
      DistanceZero(a, b);
    }
  }

  // ----- the steps of decoding

  // The elements x^-i, as the source writes them.
  ghost function InversePower(i: nat): bv8
    requires i < 255
  {
    Exp((255 - i) % 255)
  }

  lemma InversePowerInverts(i: nat)
    requires i < 255
    ensures InversePower(i) == Inv(Exp(i))
  {
    hide Exp, Log;
    LogOfExp(i);
    ExpWraps(0);
    WrappedExponent(i);
  }

  lemma WrappedExponent(i: nat)
    requires i < 255
    ensures (255 - i) % 255 == if i == 0 then 0 else 255 - i
  {}

  // The places, below n, at which the locator has a root: Chien's search.
  ghost function RootPositions(l: seq<bv8>, n: nat): (ps: seq<nat>)
    requires n <= 255
  {
    if n == 0 then []
    else if Eval(l, InversePower(n - 1)) == 0 then RootPositions(l, n - 1) + [n - 1]
    else RootPositions(l, n - 1)
  }

  ghost function Corrected(r: seq<bv8>, l: seq<bv8>, s: seq<bv8>, ps: seq<nat>): (c: seq<bv8>)
    requires |r| == CODEWORD && |l| == COEFFICIENTS && |s| == PARITY
    ensures |c| == CODEWORD
  {
    seq(CODEWORD, b requires 0 <= b < CODEWORD =>
      if CODEWORD - 1 - b in ps then Add(r[b], Magnitude(l, s, Exp(CODEWORD - 1 - b))) else r[b])
  }

  // What Berlekamp-Massey delivers, for any syndromes.
  ghost predicate IsLocator(l: seq<bv8>, length: nat, s: seq<bv8>) {
    && |l| == COEFFICIENTS && |s| == PARITY && length <= PARITY && l[0] == 1
    && Zeros(l, length + 1) && Generates(l, s, length, PARITY)
    && NoLongerThanPatterns(length, s)
  }

  lemma DamageFinishes(r: seq<bv8>, c: seq<bv8>, l: seq<bv8>, length: nat)
    requires |r| == CODEWORD && IsCodeword(c) && Distance(r, c) <= MAX_ERRORS
    requires IsLocator(l, length, Syndromes(r))
    ensures var e := Difference(r, c);
      |Values(e)| == |Positions(e)| == Distance(r, c) &&
      Finished(l, length, Values(e), Places(Positions(e)), Syndromes(r))
  {
    hide Syndromes, PowerSum, Add, Discrepancy;
    var e := Difference(r, c);
    PatternShape(e);
    SyndromesOfDamage(r, c);
    PatternExplains(e);
  }

  // Place i is damaged exactly when the locator has its root there.
  lemma RootAtDamage(r: seq<bv8>, c: seq<bv8>, l: seq<bv8>, length: nat, i: nat)
    requires |r| == CODEWORD && IsCodeword(c) && Distance(r, c) <= MAX_ERRORS
    requires IsLocator(l, length, Syndromes(r)) && i < CODEWORD
    ensures Eval(l, InversePower(i)) == 0 <==> Difference(r, c)[CODEWORD - 1 - i] != 0
  {
    hide Syndromes, PowerSum, Add, Discrepancy, Exp, Inv, Eval;
    var e := Difference(r, c);
    var ps := Positions(e);
    var xs := Places(ps);
    DamageFinishes(r, c, l, length);
    PatternShape(e);
    LocatorRoots(l, length, Values(e), xs, Syndromes(r), InversePower(i));
    InversePowerInverts(i);
    if e[CODEWORD - 1 - i] != 0 {
      assert i in ps;
      var k :| 0 <= k < |ps| && ps[k] == i;
      assert Inverses(xs)[k] == Inv(Exp(i));
    } else if Inv(Exp(i)) in Inverses(xs) {
      var k :| 0 <= k < |xs| && Inverses(xs)[k] == Inv(Exp(i));
      InverseOneToOne(Exp(ps[k]), Exp(i), ps[k], i);
    }
  }

  lemma InverseOneToOne(x: bv8, y: bv8, i: nat, j: nat)
    requires i < 255 && j < 255 && x == Exp(i) && y == Exp(j) && Inv(x) == Inv(y)
    ensures i == j
  {
    hide Exp, Mul;
    LogOfExp(i);
    LogOfExp(j);
    ExpNonzero(i);
    ExpNonzero(j);
    InvCancels(x);
    InvCancels(y);
    MulAssociates(x, Inv(x), y);
    MulUnits(x);
    MulUnits(y);
  }

  lemma {:induction false} RootsAreDamage(r: seq<bv8>, c: seq<bv8>, l: seq<bv8>, length: nat, n: nat)
    requires |r| == CODEWORD && IsCodeword(c) && Distance(r, c) <= MAX_ERRORS
    requires IsLocator(l, length, Syndromes(r)) && n <= CODEWORD
    ensures RootPositions(l, n) == Positions(Difference(r, c)[CODEWORD - n..])
  {
    hide Syndromes, Add, Eval, InversePower, IsLocator, Distance;
    var e := Difference(r, c);
    if n > 0 {
      RootsAreDamage(r, c, l, length, n - 1);
      RootAtDamage(r, c, l, length, n - 1);
      var t := e[CODEWORD - n..];
      assert t[1..] == e[CODEWORD - (n - 1)..];
      assert t[0] == e[CODEWORD - n];
    }
  }

  // A word with at most 16 damaged bytes: degree, roots, derivatives and values are all those
  // of the damage, so correcting gives the codeword back.
  lemma DecodingTheorem(r: seq<bv8>, c: seq<bv8>, l: seq<bv8>, length: nat)
    requires |r| == CODEWORD && IsCodeword(c) && Distance(r, c) <= MAX_ERRORS
    requires IsLocator(l, length, Syndromes(r))
    ensures l[Distance(r, c)] != 0 && Zeros(l, Distance(r, c) + 1)
    ensures |RootPositions(l, CODEWORD)| == Distance(r, c)
    ensures forall k :: 0 <= k < |RootPositions(l, CODEWORD)| ==>
      OddPart(l, Inv(Exp(RootPositions(l, CODEWORD)[k]))) != 0
    ensures Corrected(r, l, Syndromes(r), RootPositions(l, CODEWORD)) == c
  {
    hide Syndromes, PowerSum, Add, Discrepancy, Exp, Inv, Eval, OddPart, Magnitude, Corrected;
    var e, s := Difference(r, c), Syndromes(r);
    var ps := Positions(e);
    var xs := Places(ps);
    DamageFinishes(r, c, l, length);
    PatternShape(e);
    LocatorDegree(l, length, Values(e), xs, s);
    RootsAreDamage(r, c, l, length, CODEWORD);
    assert e[0..] == e;
    forall k | 0 <= k < |ps|
      ensures OddPart(l, Inv(Exp(ps[k]))) != 0
      ensures Magnitude(l, s, Exp(ps[k])) == e[CODEWORD - 1 - ps[k]]
    {
      ForneyGivesTheValue(l, length, Values(e), xs, s, k);
    }
    CorrectedIsCodeword(r, c, l, s, ps);
  }

  lemma CorrectedIsCodeword(r: seq<bv8>, c: seq<bv8>, l: seq<bv8>, s: seq<bv8>, ps: seq<nat>)
    requires |r| == |c| == CODEWORD && |l| == COEFFICIENTS && |s| == PARITY
    requires ps == Positions(Difference(r, c))
    requires forall k :: 0 <= k < |ps| ==>
      ps[k] < CODEWORD && Magnitude(l, s, Exp(ps[k])) == Difference(r, c)[CODEWORD - 1 - ps[k]]
    ensures Corrected(r, l, s, ps) == c
  {
    hide Add, Exp, Magnitude, Positions;
    PatternShape(Difference(r, c));
    forall b | 0 <= b < CODEWORD ensures Corrected(r, l, s, ps)[b] == c[b] {
      AddLaws(r[b], c[b], 0);
      var p := CODEWORD - 1 - b;
      if p in ps {
        var k :| 0 <= k < |ps| && ps[k] == p;
      } else {
        assert Difference(r, c)[CODEWORD - 1 - p] == 0;
        AddLaws(r[b], 0, 0);
      }
    }
  }
}
