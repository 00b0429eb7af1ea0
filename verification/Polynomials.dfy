/**
 Polynomials over the field, lowest coefficient first, and the two facts about them that carry
 Reed-Solomon decoding: a polynomial with more roots than its degree is zero, and a sum of
 weighted powers of distinct nonzero elements that vanishes for as many consecutive exponents
 as it has terms has only zero weights.
 */
module Polynomials {
  import opened GaloisField
  import opened Pigeonhole

  ghost function Pow(x: bv8, n: nat): bv8 {
    if n == 0 then 1 else Mul(x, Pow(x, n - 1))
  }

  lemma {:induction false} PowNonzero(x: bv8, n: nat)
    requires x != 0
    ensures Pow(x, n) != 0
  {
    hide Mul;
    if n > 0 {
      PowNonzero(x, n - 1);
      MulNonzero(x, Pow(x, n - 1));
    }
  }

  lemma {:induction false} PowExp(i: nat, n: nat)
    ensures Pow(Exp(i), n) == Exp(i * n)
  {
    hide Mul, Exp;
    if n == 0 {
      ExpZero();
    } else {
      PowExp(i, n - 1);
      MulExp(i, i * (n - 1));
      assert i + i * (n - 1) == i * n;
    }
  }

  // ----- evaluation

  ghost function Eval(p: seq<bv8>, x: bv8): bv8 {
    if |p| == 0 then 0 else Add(p[0], Mul(x, Eval(p[1..], x)))
  }

  ghost predicate AllZero(s: seq<bv8>) {
    forall k :: 0 <= k < |s| ==> s[k] == 0
  }

  lemma {:induction false} EvalAllZero(p: seq<bv8>, x: bv8)
    requires AllZero(p)
    ensures Eval(p, x) == 0
  {
    hide Mul, Add;
    if |p| > 0 {
      EvalAllZero(p[1..], x);
      MulUnits(x);
      AddLaws(0, 0, 0);
    }
  }

  lemma {:induction false} EvalExtends(p: seq<bv8>, a: bv8, x: bv8)
    ensures Eval(p + [a], x) == Add(Eval(p, x), Mul(a, Pow(x, |p|)))
  {
    hide Mul, Add;
    if |p| == 0 {
      assert p + [a] == [a];
      assert Eval([a], x) == Add(a, Mul(x, 0));
      MulUnits(x);
      MulUnits(a);
      AddLaws(a, 0, 0);
    } else {
      assert (p + [a])[1..] == p[1..] + [a];
      EvalExtends(p[1..], a, x);
      var t, u := Eval(p[1..], x), Mul(a, Pow(x, |p| - 1));
      MulDistributes(x, t, u);
      MulAssociates(x, a, Pow(x, |p| - 1));
      MulCommutes(x, a);
      MulAssociates(a, x, Pow(x, |p| - 1));
      AddLaws(p[0], Mul(x, t), Mul(x, u));
    }
  }

  // Coefficients past place n are zero, so the first n decide the value.
  lemma {:induction false} EvalTrims(p: seq<bv8>, n: nat, x: bv8)
    requires n <= |p| && AllZero(p[n..])
    ensures Eval(p, x) == Eval(p[..n], x)
    decreases n
  {
    if n == 0 {
      assert p[n..] == p;
      EvalAllZero(p, x);
    } else {
      hide Mul, Add;
      assert p[1..][n - 1..] == p[n..];
      assert p[1..][..n - 1] == p[..n][1..];
      EvalTrims(p[1..], n - 1, x);
    }
  }

  // ----- combinations

  // p + c * q, coefficient by coefficient.
  ghost function Combined(p: seq<bv8>, c: bv8, q: seq<bv8>): (t: seq<bv8>)
    requires |p| == |q|
    ensures |t| == |p|
  {
    seq(|p|, i requires 0 <= i < |p| => Add(p[i], Mul(c, q[i])))
  }

  lemma {:induction false} EvalCombined(p: seq<bv8>, c: bv8, q: seq<bv8>, u: bv8)
    requires |p| == |q|
    ensures Eval(Combined(p, c, q), u) == Add(Eval(p, u), Mul(c, Eval(q, u)))
  {
    hide Mul, Add;
    if |p| == 0 {
      MulUnits(c);
      AddLaws(0, 0, 0);
    } else {
      EvalCombined(p[1..], c, q[1..], u);
      assert Combined(p, c, q)[1..] == Combined(p[1..], c, q[1..]);
      var a, b := Eval(p[1..], u), Eval(q[1..], u);
      MulDistributes(u, a, Mul(c, b));
      MulAssociates(u, c, b);
      MulCommutes(u, c);
      MulAssociates(c, u, b);
      MulDistributes(c, q[0], Mul(u, b));
      AddExchange(p[0], Mul(c, q[0]), Mul(u, a), Mul(c, Mul(u, b)));
    }
  }

  // ----- division by x + r

  ghost function Quotient(p: seq<bv8>, r: bv8): (q: seq<bv8>)
    requires |p| > 0
    ensures |q| == |p| - 1
  {
    seq(|p| - 1, k requires 0 <= k < |p| - 1 => Eval(p[k + 1..], r))
  }

  lemma QuotientTail(p: seq<bv8>, r: bv8)
    requires |p| > 1
    ensures Quotient(p, r) == [Eval(p[1..], r)] + Quotient(p[1..], r)
  {
    var q := Quotient(p[1..], r);
    forall k | 0 <= k < |q| ensures q[k] == Quotient(p, r)[k + 1] {
      assert p[1..][k + 1..] == p[k + 2..];
    }
  }

  // Each coefficient in terms of the quotient's.
  lemma QuotientCoefficient(p: seq<bv8>, r: bv8, k: nat)
    requires 0 < k < |p|
    ensures p[k] == Add(Quotient(p, r)[k - 1],
                        Mul(r, if k < |p| - 1 then Quotient(p, r)[k] else 0))
  {
    hide Mul, Add;
    assert p[k..][1..] == p[k + 1..];
    AddLaws(Mul(r, Eval(p[k + 1..], r)), p[k], 0);
    AddLaws(p[k], Mul(r, Eval(p[k + 1..], r)), 0);
  }

  lemma {:induction false} QuotientLaw(p: seq<bv8>, r: bv8, x: bv8)
    requires |p| > 0
    ensures Add(Eval(p, x), Eval(p, r)) == Mul(Add(x, r), Eval(Quotient(p, r), x))
  {
    hide Mul, Add, Quotient;
    if |p| == 1 {
      assert Quotient(p, r) == [];
      assert p[1..] == [];
      MulUnits(x);
      MulUnits(r);
      MulUnits(Add(x, r));
      AddLaws(p[0], 0, 0);
    } else {
      QuotientLaw(p[1..], r, x);
      QuotientTail(p, r);
      var ex, er := Eval(p[1..], x), Eval(p[1..], r);
      var q := Eval(Quotient(p[1..], r), x);
      assert ([er] + Quotient(p[1..], r))[1..] == Quotient(p[1..], r);
      assert Eval(Quotient(p, r), x) == Add(er, Mul(x, q));
      DivisionStep(p[0], ex, er, q, x, r);
    }
  }

  lemma DivisionStep(a: bv8, ex: bv8, er: bv8, q: bv8, x: bv8, r: bv8)
    requires Add(ex, er) == Mul(Add(x, r), q)
    ensures Add(Add(a, Mul(x, ex)), Add(a, Mul(r, er))) == Mul(Add(x, r), Add(er, Mul(x, q)))
  {
    hide Mul, Add;
    var s := Add(x, r);
    // the right side is s * er + x * (ex + er), and s * er is x * er + r * er
    MulDistributes(s, er, Mul(x, q));
    MulAssociates(s, x, q);
    MulCommutes(s, x);
    MulAssociates(x, s, q);
    MulDistributes(x, ex, er);
    MulDistributes(er, x, r);
    AddExchange(Mul(x, er), Mul(r, er), Mul(x, ex), Mul(x, er));
    AddLaws(Mul(x, er), Mul(x, ex), 0);
    AddExchange(Mul(x, er), Mul(r, er), Mul(x, er), Mul(x, ex));
    AddLaws(Mul(x, er), 0, 0);
    AddLaws(Add(Mul(r, er), Mul(x, ex)), 0, 0);
    // the left side drops the two a's
    AddExchange(a, Mul(x, ex), a, Mul(r, er));
    AddLaws(a, 0, 0);
    AddLaws(Add(Mul(x, ex), Mul(r, er)), 0, 0);
    AddLaws(Mul(x, ex), Mul(r, er), 0);
  }

  lemma QuotientAllZero(p: seq<bv8>, r: bv8)
    requires |p| > 0 && AllZero(Quotient(p, r)) && Eval(p, r) == 0
    ensures AllZero(p)
  {
    hide Mul, Add, Quotient;
    MulUnits(r);
    AddLaws(0, 0, 0);
    forall k | 0 < k < |p| ensures p[k] == 0 {
      QuotientCoefficient(p, r, k);
    }
    EvalAllZero(p[1..], r);
    AddLaws(p[0], 0, 0);
  }

  // A polynomial with at least as many distinct roots as it may have nonzero coefficients.
  lemma {:induction false} TooManyRoots(p: seq<bv8>, roots: seq<bv8>)
    requires Distinct(roots)
    requires forall i :: 0 <= i < |roots| ==> Eval(p, roots[i]) == 0
    requires forall k :: |roots| <= k < |p| ==> p[k] == 0
    ensures AllZero(p)
    decreases |roots|
  {
    if |roots| > 0 && |p| > 0 {
      var r, rest := roots[0], roots[1..];
      var q := Quotient(p, r);
      forall i | 0 <= i < |rest| ensures Eval(q, rest[i]) == 0 {
        hide Mul, Add;
        QuotientLaw(p, r, rest[i]);
        AddLaws(0, 0, 0);
        AddLaws(rest[i], r, 0);
        MulNonzero(Add(rest[i], r), Eval(q, rest[i]));
        assert roots[i + 1] != roots[0];
      }
      forall k | |rest| <= k < |q| ensures q[k] == 0 {
        EvalAllZero(p[k + 1..], r);
      }
      TooManyRoots(q, rest);
      QuotientAllZero(p, r);
    }
  }

  // ----- the derivative at a root, as the sum of the odd coefficients

  ghost function OddPart(p: seq<bv8>, x: bv8): bv8 {
    if |p| < 2 then 0 else Add(p[1], Mul(Mul(x, x), OddPart(p[2..], x)))
  }

  lemma {:induction false} QuotientAtItsRoot(p: seq<bv8>, r: bv8)
    requires |p| > 0
    ensures Eval(Quotient(p, r), r) == OddPart(p, r)
  {
    if |p| == 1 {
    } else if |p| == 2 {
      hide Mul, Add;
      assert p[1..] == [p[1]];
      assert Quotient(p, r) == [Eval([p[1]], r)];
      MulUnits(r);
      MulUnits(Mul(r, r));
      AddLaws(p[1], 0, 0);
    } else {
      hide Mul, Add, Quotient;
      QuotientAtItsRoot(p[2..], r);
      QuotientTail(p, r);
      QuotientTail(p[1..], r);
      assert p[1..][1..] == p[2..];
      var e2, d := Eval(p[2..], r), OddPart(p[2..], r);
      assert ([e2] + Quotient(p[2..], r))[1..] == Quotient(p[2..], r);
      assert Eval(Quotient(p[1..], r), r) == Add(e2, Mul(r, d));
      var e1 := Eval(p[1..], r);
      assert e1 == Add(p[1], Mul(r, e2));
      assert ([e1] + Quotient(p[1..], r))[1..] == Quotient(p[1..], r);
      assert Eval(Quotient(p, r), r) == Add(e1, Mul(r, Add(e2, Mul(r, d))));
      MulDistributes(r, e2, Mul(r, d));
      MulAssociates(r, r, d);
      AddLaws(p[1], Mul(r, e2), Add(Mul(r, e2), Mul(Mul(r, r), d)));
      AddLaws(Mul(r, e2), Mul(Mul(r, r), d), 0);
    }
  }

  // ----- sums of weighted powers

  ghost function PowerSum(ys: seq<bv8>, xs: seq<bv8>, j: nat): bv8
    requires |ys| == |xs|
  {
    if |xs| == 0 then 0
    else
      var n := |xs| - 1;
      Add(PowerSum(ys[..n], xs[..n], j), Mul(ys[n], Pow(xs[n], j)))
  }

  // Each weight multiplied by the distance of its element from c.
  ghost function Eliminated(ys: seq<bv8>, xs: seq<bv8>, c: bv8): (zs: seq<bv8>)
    requires |ys| == |xs|
    ensures |zs| == |ys|
  {
    seq(|ys|, k requires 0 <= k < |ys| => Mul(ys[k], Add(xs[k], c)))
  }

  lemma {:induction false} EliminationLaw(ys: seq<bv8>, xs: seq<bv8>, c: bv8, j: nat)
    requires |ys| == |xs|
    ensures PowerSum(Eliminated(ys, xs, c), xs, j)
         == Add(PowerSum(ys, xs, j + 1), Mul(c, PowerSum(ys, xs, j)))
  {
    hide Mul, Add;
    if |xs| == 0 {
      MulUnits(c);
      AddLaws(0, 0, 0);
    } else {
      var n := |xs| - 1;
      EliminationLaw(ys[..n], xs[..n], c, j);
      assert Eliminated(ys, xs, c)[..n] == Eliminated(ys[..n], xs[..n], c);
      var y, x, pw := ys[n], xs[n], Pow(xs[n], j);
      var s1, s0 := PowerSum(ys[..n], xs[..n], j + 1), PowerSum(ys[..n], xs[..n], j);
      assert PowerSum(ys, xs, j + 1) == Add(s1, Mul(y, Mul(x, pw)));
      MulDistributes(c, s0, Mul(y, pw));
      EliminationTerm(y, x, c, pw);
      AddExchange(s1, Mul(y, Mul(x, pw)), Mul(c, s0), Mul(c, Mul(y, pw)));
    }
  }

  lemma EliminationTerm(y: bv8, x: bv8, c: bv8, pw: bv8)
    ensures Mul(Mul(y, Add(x, c)), pw) == Add(Mul(y, Mul(x, pw)), Mul(c, Mul(y, pw)))
  {
    hide Mul, Add;
    MulAssociates(y, Add(x, c), pw);
    MulDistributes(pw, x, c);
    MulDistributes(y, Mul(x, pw), Mul(c, pw));
    MulAssociates(y, c, pw);
    MulCommutes(y, c);
    MulAssociates(c, y, pw);
  }

  lemma {:induction false} PowerSumAllZero(ys: seq<bv8>, xs: seq<bv8>, j: nat)
    requires |ys| == |xs| && AllZero(ys)
    ensures PowerSum(ys, xs, j) == 0
  {
    hide Mul, Add;
    if |xs| > 0 {
      PowerSumAllZero(ys[..|xs| - 1], xs[..|xs| - 1], j);
      MulUnits(Pow(xs[|xs| - 1], j));
      AddLaws(0, 0, 0);
    }
  }

  ghost predicate DistinctNonzero(xs: seq<bv8>) {
    Distinct(xs) && forall k :: 0 <= k < |xs| ==> xs[k] != 0
  }

  // The Vandermonde argument: as many vanishing sums in a row as there are terms.
  lemma {:induction false} WeightsVanish(ys: seq<bv8>, xs: seq<bv8>, first: nat)
    requires |ys| == |xs| && DistinctNonzero(xs)
    requires forall j :: first <= j < first + |xs| ==> PowerSum(ys, xs, j) == 0
    ensures AllZero(ys)
    decreases |xs|
  {
    if |xs| > 0 {
      hide Mul, Add;
      var n := |xs| - 1;
      var c, zs := xs[n], Eliminated(ys, xs, xs[n]);
      AddLaws(c, 0, 0);
      MulUnits(c);
      MulUnits(ys[n]);
      forall j | first <= j < first + n ensures PowerSum(zs[..n], xs[..n], j) == 0 {
        EliminationLaw(ys, xs, c, j);
        AddLaws(PowerSum(zs[..n], xs[..n], j), 0, 0);
        AddLaws(0, 0, 0);
        MulUnits(Pow(c, j));
      }
      WeightsVanish(zs[..n], xs[..n], first);
      forall k | 0 <= k < n ensures ys[k] == 0 {
        assert zs[..n][k] == 0;
        AddLaws(xs[k], c, 0);
        MulNonzero(ys[k], Add(xs[k], c));
      }
      PowerSumAllZero(ys[..n], xs[..n], first);
      assert PowerSum(ys, xs, first) == 0;
      AddLaws(Mul(ys[n], Pow(c, first)), 0, 0);
      PowNonzero(c, first);
      MulNonzero(ys[n], Pow(c, first));
    }
  }
}
