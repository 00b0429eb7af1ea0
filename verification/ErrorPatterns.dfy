/**
 Error patterns: values ys at distinct places, each place named by its element of xs, and the
 syndromes they give, which are sums of weighted powers.

 For any pattern that explains the syndromes, the Berlekamp-Massey register is no longer than
 the pattern (ShortestRegister), and when the syndromes are twice as many as the errors the
 locator's roots are the inverses of the places and nothing else (LocatorRoots), its degree is
 the number of errors (LocatorDegree), and Forney's quotient at each place is the error's
 value (ForneyGivesTheValue).
 */
module ErrorPatterns {
  import opened GaloisField
  import opened Pigeonhole
  import opened Polynomials
  import opened ShiftRegister

  ghost predicate Explains(ys: seq<bv8>, xs: seq<bv8>, s: seq<bv8>) {
    && |ys| == |xs| && DistinctNonzero(xs)
    && forall i :: 0 <= i < |s| ==> s[i] == PowerSum(ys, xs, i)
  }

  // The sum of l[i] * x^(j - i) over the coefficients up to j.
  ghost function Partial(l: seq<bv8>, x: bv8, j: nat): bv8
    requires j < |l|
  {
    if j == 0 then l[0] else Add(Mul(x, Partial(l, x, j - 1)), l[j])
  }

  ghost function Weights(ys: seq<bv8>, xs: seq<bv8>, l: seq<bv8>, j: nat): (zs: seq<bv8>)
    requires |ys| == |xs| && j < |l|
    ensures |zs| == |ys|
  {
    seq(|ys|, k requires 0 <= k < |ys| => Mul(ys[k], Partial(l, xs[k], j)))
  }

  ghost function Times(ys: seq<bv8>, xs: seq<bv8>): (zs: seq<bv8>)
    requires |ys| == |xs|
    ensures |zs| == |ys|
  {
    seq(|ys|, k requires 0 <= k < |ys| => Mul(ys[k], xs[k]))
  }

  // ----- a discrepancy is a sum of weighted powers

  lemma {:induction false} TimesRaises(ys: seq<bv8>, xs: seq<bv8>, j: nat)
    requires |ys| == |xs|
    ensures PowerSum(Times(ys, xs), xs, j) == PowerSum(ys, xs, j + 1)
  {
    if |xs| > 0 {
      hide Mul, Add;
      var n := |xs| - 1;
      TimesRaises(ys[..n], xs[..n], j);
      assert Times(ys, xs)[..n] == Times(ys[..n], xs[..n]);
      MulAssociates(ys[n], xs[n], Pow(xs[n], j));
    }
  }

  lemma {:induction false} ConvolveShifts(l: seq<bv8>, s: seq<bv8>, j: nat, n: nat)
    requires 0 < j < |s| && n <= j && n <= |l|
    ensures Convolve(l, s, j, n) == Convolve(l, s[1..], j - 1, n)
  {
    if n > 0 {
      hide Mul, Add;
      ConvolveShifts(l, s, j, n - 1);
      assert s[1..][j - 1 - (n - 1)] == s[j - (n - 1)];
    }
  }

  lemma {:induction false} WeightsStep(ys: seq<bv8>, xs: seq<bv8>, l: seq<bv8>, j: nat)
    requires |ys| == |xs| && 0 < j < |l|
    ensures PowerSum(Weights(ys, xs, l, j), xs, 0)
         == Add(PowerSum(Weights(Times(ys, xs), xs, l, j - 1), xs, 0), Mul(l[j], PowerSum(ys, xs, 0)))
  {
    hide Mul, Add;
    if |xs| == 0 {
      MulUnits(l[j]);
      AddLaws(0, 0, 0);
    } else {
      var n := |xs| - 1;
      WeightsStep(ys[..n], xs[..n], l, j);
      assert Weights(ys, xs, l, j)[..n] == Weights(ys[..n], xs[..n], l, j);
      assert Weights(Times(ys, xs), xs, l, j - 1)[..n] == Weights(Times(ys[..n], xs[..n]), xs[..n], l, j - 1);
      var y, x, p := ys[n], xs[n], Partial(l, xs[n], j - 1);
      MulUnits(Mul(y, Partial(l, x, j)));
      MulUnits(Mul(Mul(y, x), p));
      MulUnits(y);
      MulDistributes(y, Mul(x, p), l[j]);
      MulAssociates(y, x, p);
      MulCommutes(y, l[j]);
      var a := PowerSum(Weights(Times(ys[..n], xs[..n]), xs[..n], l, j - 1), xs[..n], 0);
      var b := PowerSum(ys[..n], xs[..n], 0);
      MulDistributes(l[j], b, y);
      AddExchange(a, Mul(l[j], b), Mul(Mul(y, x), p), Mul(l[j], y));
      assert Weights(ys, xs, l, j)[n] == Mul(y, Partial(l, x, j));
      assert Weights(Times(ys, xs), xs, l, j - 1)[n] == Mul(Mul(y, x), p);
      assert Pow(x, 0) == 1;
    }
  }

  lemma {:induction false} WeightsBase(ys: seq<bv8>, xs: seq<bv8>, l: seq<bv8>)
    requires |ys| == |xs| && 0 < |l|
    ensures PowerSum(Weights(ys, xs, l, 0), xs, 0) == Mul(l[0], PowerSum(ys, xs, 0))
  {
    hide Mul, Add;
    if |xs| == 0 {
      MulUnits(l[0]);
    } else {
      var n := |xs| - 1;
      WeightsBase(ys[..n], xs[..n], l);
      assert Weights(ys, xs, l, 0)[..n] == Weights(ys[..n], xs[..n], l, 0);
      assert Weights(ys, xs, l, 0)[n] == Mul(ys[n], l[0]);
      assert Pow(xs[n], 0) == 1;
      MulUnits(ys[n]);
      MulUnits(Mul(ys[n], l[0]));
      MulCommutes(ys[n], l[0]);
      MulDistributes(l[0], PowerSum(ys[..n], xs[..n], 0), ys[n]);
    }
  }

  lemma {:induction false} DiscrepancyIsWeighted(ys: seq<bv8>, xs: seq<bv8>, s: seq<bv8>, l: seq<bv8>, j: nat)
    requires Explains(ys, xs, s) && j < |s| && j < |l|
    ensures Discrepancy(l, s, j) == PowerSum(Weights(ys, xs, l, j), xs, 0)
    decreases j
  {
    hide Mul, Add, Weights;
    if j == 0 {
      assert Convolve(l, s, 0, 0) == 0;
      assert Discrepancy(l, s, 0) == Add(0, Mul(l[0], s[0]));
      WeightsBase(ys, xs, l);
      AddLaws(Mul(l[0], s[0]), 0, 0);
    } else {
      var zs := Times(ys, xs);
      forall i | 0 <= i < |s[1..]| ensures s[1..][i] == PowerSum(zs, xs, i) {
        TimesRaises(ys, xs, i);
      }
      DiscrepancyIsWeighted(zs, xs, s[1..], l, j - 1);
      ConvolveShifts(l, s, j, j);
      WeightsStep(ys, xs, l, j);
    }
  }

  // Past the locator's degree, one more power of x for every place.
  lemma {:induction false} PartialGrows(l: seq<bv8>, x: bv8, from: nat, j: nat)
    requires from <= j < |l| && Zeros(l, from + 1)
    ensures Partial(l, x, j) == Mul(Partial(l, x, from), Pow(x, j - from))
  {
    hide Mul, Add;
    var p := Partial(l, x, from);
    if j == from {
      MulUnits(p);
    } else {
      PartialGrows(l, x, from, j - 1);
      var e := Pow(x, j - 1 - from);
      AddLaws(Mul(x, Partial(l, x, j - 1)), 0, 0);
      MulAssociates(x, p, e);
      MulCommutes(x, p);
      MulAssociates(p, x, e);
    }
  }

  lemma {:induction false} WeightsGrow(ys: seq<bv8>, xs: seq<bv8>, l: seq<bv8>, from: nat, j: nat)
    requires |ys| == |xs| && from <= j < |l| && Zeros(l, from + 1)
    ensures PowerSum(Weights(ys, xs, l, j), xs, 0) == PowerSum(Weights(ys, xs, l, from), xs, j - from)
  {
    if |xs| > 0 {
      hide Mul, Add;
      var n := |xs| - 1;
      WeightsGrow(ys[..n], xs[..n], l, from, j);
      assert Weights(ys, xs, l, j)[..n] == Weights(ys[..n], xs[..n], l, j);
      assert Weights(ys, xs, l, from)[..n] == Weights(ys[..n], xs[..n], l, from);
      var p := Partial(l, xs[n], from);
      PartialGrows(l, xs[n], from, j);
      MulAssociates(ys[n], p, Pow(xs[n], j - from));
      MulUnits(Mul(ys[n], Partial(l, xs[n], j)));
      assert Weights(ys, xs, l, j)[n] == Mul(ys[n], Partial(l, xs[n], j));
      assert Weights(ys, xs, l, from)[n] == Mul(ys[n], p);
      assert Pow(xs[n], 0) == 1;
    }
  }

  lemma DiscrepancyPowers(ys: seq<bv8>, xs: seq<bv8>, s: seq<bv8>, l: seq<bv8>, from: nat, j: nat)
    requires Explains(ys, xs, s) && from <= j < |s| && j < |l| && Zeros(l, from + 1)
    ensures Discrepancy(l, s, j) == PowerSum(Weights(ys, xs, l, from), xs, j - from)
  {
    hide Mul, Add, Weights, Discrepancy;
    DiscrepancyIsWeighted(ys, xs, s, l, j);
    WeightsGrow(ys, xs, l, from, j);
  }

  // A register that has generated as many syndromes as there are errors is finished.
  lemma WeightsAreZero(ys: seq<bv8>, xs: seq<bv8>, s: seq<bv8>, l: seq<bv8>, from: nat, until: nat)
    requires Explains(ys, xs, s) && until <= |s| && until <= |l| && from < |l| && Zeros(l, from + 1)
    requires Generates(l, s, from, until) && from + |xs| <= until
    ensures AllZero(Weights(ys, xs, l, from))
  {
    hide Mul, Add, Weights, Discrepancy;
    var zs := Weights(ys, xs, l, from);
    forall j | 0 <= j < |xs| ensures PowerSum(zs, xs, j) == 0 {
      DiscrepancyPowers(ys, xs, s, l, from, from + j);
      assert Discrepancy(l, s, from + j) == 0;
    }
    WeightsVanish(zs, xs, 0);
  }

  // Massey's bound: where a register fails, every explanation is longer than it can reach.
  lemma FailureBoundsPattern(ys: seq<bv8>, xs: seq<bv8>, s: seq<bv8>, r: Registers, n: nat)
    requires Explains(ys, xs, s) && Invariant(r, s, n) && n < PARITY
    requires Discrepancy(r.locator, s, n) != 0
    ensures n + 1 - r.length <= |xs|
  {
    if n - r.length >= |xs| {
      hide Mul, Add, Weights, Discrepancy;
      WeightsAreZero(ys, xs, s, r.locator, r.length, n);
      DiscrepancyPowers(ys, xs, s, r.locator, r.length, n);
      PowerSumAllZero(Weights(ys, xs, r.locator, r.length), xs, n - r.length);
    }
  }

  ghost predicate NoLongerThanPatterns(length: nat, s: seq<bv8>) {
    forall ys: seq<bv8>, xs: seq<bv8> :: Explains(ys, xs, s) ==> length <= |xs|
  }

  lemma ShortestRegister(r: Registers, s: seq<bv8>, n: nat)
    requires Invariant(r, s, n) && n < PARITY && NoLongerThanPatterns(r.length, s)
    ensures NoLongerThanPatterns(Step(r, s, n).length, s)
  {
    hide Mul, Add, Inv, Discrepancy, Explains;
    if Discrepancy(r.locator, s, n) != 0 {
      forall ys: seq<bv8>, xs: seq<bv8> | Explains(ys, xs, s)
        ensures Step(r, s, n).length <= |xs|
      {
        FailureBoundsPattern(ys, xs, s, r, n);
      }
    }
  }

  // ----- the finished locator

  // x times r is one and the register's sum at x vanishes, so r is a root of the locator.
  lemma {:induction false} PartialIsEval(l: seq<bv8>, x: bv8, r: bv8, j: nat)
    requires j < |l| && Mul(x, r) == 1
    ensures Mul(Pow(r, j), Partial(l, x, j)) == Eval(l[..j + 1], r)
  {
    hide Mul, Add;
    if j == 0 {
      assert l[..1] == [l[0]];
      assert Eval([l[0]], r) == Add(l[0], Mul(r, 0));
      MulUnits(r);
      MulUnits(l[0]);
      AddLaws(l[0], 0, 0);
    } else {
      PartialIsEval(l, x, r, j - 1);
      assert l[..j + 1] == l[..j] + [l[j]];
      EvalExtends(l[..j], l[j], r);
      var p, e := Partial(l, x, j - 1), Pow(r, j - 1);
      MulDistributes(Mul(r, e), Mul(x, p), l[j]);
      MulCommutes(Mul(r, e), l[j]);
      MulCommutes(r, e);
      MulAssociates(e, r, Mul(x, p));
      MulAssociates(r, x, p);
      MulCommutes(r, x);
      MulUnits(p);
    }
  }

  ghost function Inverses(xs: seq<bv8>): (rs: seq<bv8>)
    ensures |rs| == |xs|
  {
    seq(|xs|, k requires 0 <= k < |xs| => Inv(xs[k]))
  }

  lemma InversesDistinct(xs: seq<bv8>)
    requires DistinctNonzero(xs)
    ensures Distinct(Inverses(xs))
  {
    hide Mul, Inv;
    var rs := Inverses(xs);
    forall i, j | 0 <= i < j < |rs| ensures rs[i] != rs[j] {
      InvCancels(xs[i]);
      InvCancels(xs[j]);
      MulAssociates(xs[i], rs[i], xs[j]);
      MulCommutes(rs[j], xs[j]);
      MulUnits(xs[i]);
      MulUnits(xs[j]);
    }
  }

  // The registers when every syndrome has been taken in, and a pattern that explains them.
  ghost predicate Finished(l: seq<bv8>, length: nat, ys: seq<bv8>, xs: seq<bv8>, s: seq<bv8>) {
    && |l| == COEFFICIENTS && |s| == PARITY && l[0] == 1
    && Explains(ys, xs, s) && (forall k :: 0 <= k < |ys| ==> ys[k] != 0)
    && 2 * |xs| <= PARITY && length <= |xs|
    && Zeros(l, length + 1) && Generates(l, s, length, PARITY)
  }

  lemma PlacesAreRoots(l: seq<bv8>, length: nat, ys: seq<bv8>, xs: seq<bv8>, s: seq<bv8>, k: nat)
    requires Finished(l, length, ys, xs, s) && k < |xs|
    ensures Eval(l, Inverses(xs)[k]) == 0
  {
    hide Mul, Add, Discrepancy, Inv;
    WeightsAreZero(ys, xs, s, l, length, PARITY);
    var x, r := xs[k], Inv(xs[k]);
    assert Mul(ys[k], Partial(l, x, length)) == Weights(ys, xs, l, length)[k] == 0;
    MulNonzero(ys[k], Partial(l, x, length));
    InvCancels(x);
    PartialIsEval(l, x, r, length);
    MulUnits(Pow(r, length));
    EvalTrims(l, length + 1, r);
  }

  lemma LocatorRoots(l: seq<bv8>, length: nat, ys: seq<bv8>, xs: seq<bv8>, s: seq<bv8>, u: bv8)
    requires Finished(l, length, ys, xs, s)
    ensures Eval(l, u) == 0 <==> u in Inverses(xs)
  {
    hide Inv;
    var rs := Inverses(xs);
    forall k | 0 <= k < |rs| ensures Eval(l, rs[k]) == 0 {
      PlacesAreRoots(l, length, ys, xs, s, k);
    }
    if Eval(l, u) == 0 && u !in rs {
      InversesDistinct(xs);
      TooManyRoots(l, rs + [u]);
    }
  }

  lemma LocatorDegree(l: seq<bv8>, length: nat, ys: seq<bv8>, xs: seq<bv8>, s: seq<bv8>)
    requires Finished(l, length, ys, xs, s)
    ensures l[|xs|] != 0 && Zeros(l, |xs| + 1)
  {
    hide Inv;
    if l[|xs|] == 0 {
      var rs := Inverses(xs);
      forall k | 0 <= k < |rs| ensures Eval(l, rs[k]) == 0 {
        PlacesAreRoots(l, length, ys, xs, s, k);
      }
      InversesDistinct(xs);
      TooManyRoots(l, rs);
    }
  }

  // The quotient of the locator by one of its roots does not vanish there: roots are simple.
  lemma RootsAreSimple(l: seq<bv8>, length: nat, ys: seq<bv8>, xs: seq<bv8>, s: seq<bv8>, k: nat)
    requires Finished(l, length, ys, xs, s) && k < |xs|
    ensures Eval(Quotient(l, Inverses(xs)[k]), Inverses(xs)[k]) != 0
  {
    hide Inv;
    var rs := Inverses(xs);
    var r := rs[k];
    var q := Quotient(l, r);
    if Eval(q, r) == 0 {
      InversesDistinct(xs);
      PlacesAreRoots(l, length, ys, xs, s, k);
      forall i | 0 <= i < |rs| ensures Eval(q, rs[i]) == 0 {
        if i != k {
          OtherRootsOfQuotient(l, length, ys, xs, s, k, i);
        }
      }
      forall i | |rs| <= i < |q| ensures q[i] == 0 {
        EvalAllZero(l[i + 1..], r);
      }
      TooManyRoots(q, rs);
      QuotientAllZero(l, r);
    }
  }

  lemma OtherRootsOfQuotient(l: seq<bv8>, length: nat, ys: seq<bv8>, xs: seq<bv8>, s: seq<bv8>, k: nat, i: nat)
    requires Finished(l, length, ys, xs, s) && k < |xs| && i < |xs| && i != k
    ensures Eval(Quotient(l, Inverses(xs)[k]), Inverses(xs)[i]) == 0
  {
    hide Mul, Add, Inv, Quotient;
    var rs := Inverses(xs);
    InversesDistinct(xs);
    PlacesAreRoots(l, length, ys, xs, s, k);
    PlacesAreRoots(l, length, ys, xs, s, i);
    assert rs[i] != rs[k] by {
      if i < k { assert rs[i] != rs[k]; } else { assert rs[k] != rs[i]; }
    }
    QuotientLaw(l, rs[k], rs[i]);
    AddLaws(0, 0, 0);
    AddLaws(rs[i], rs[k], 0);
    MulNonzero(Add(rs[i], rs[k]), Eval(Quotient(l, rs[k]), rs[i]));
  }

  // ----- Forney's values

  ghost function Partials(l: seq<bv8>, x: bv8, n: nat): (p: seq<bv8>)
    requires n <= |l|
    ensures |p| == n
  {
    seq(n, i requires 0 <= i < n => Partial(l, x, i))
  }

  // The error evaluator: the product of locator and syndromes, cut at n coefficients.
  ghost function Evaluator(l: seq<bv8>, s: seq<bv8>, n: nat): (p: seq<bv8>)
    requires n <= |s| && n <= |l|
    ensures |p| == n
  {
    seq(n, i requires 0 <= i < n => Discrepancy(l, s, i))
  }

  // At a root r of the locator the register's sums are r times the quotient by x + r.
  lemma {:induction false} PartialIsQuotient(l: seq<bv8>, x: bv8, r: bv8, i: nat)
    requires i < |l| - 1 && Mul(x, r) == 1 && Eval(l, r) == 0
    ensures Partial(l, x, i) == Mul(r, Quotient(l, r)[i])
  {
    hide Mul, Add, Quotient;
    var q := Quotient(l, r);
    if i == 0 {
      assert Eval(l, r) == Add(l[0], Mul(r, Eval(l[1..], r)));
      assert q[0] == Eval(l[1..], r) by { QuotientHead(l, r); }
      AddLaws(l[0], Mul(r, q[0]), 0);
    } else {
      PartialIsQuotient(l, x, r, i - 1);
      QuotientCoefficient(l, r, i);
      MulAssociates(x, r, q[i - 1]);
      MulUnits(q[i - 1]);
      AddLaws(q[i - 1], Mul(r, q[i]), 0);
    }
  }

  lemma QuotientHead(l: seq<bv8>, r: bv8)
    requires |l| > 1
    ensures Quotient(l, r)[0] == Eval(l[1..], r)
  {}

  // The evaluator, summed over the pattern instead of over the syndromes.
  ghost function PatternEvaluator(ys: seq<bv8>, xs: seq<bv8>, l: seq<bv8>, n: nat): (p: seq<bv8>)
    requires |ys| == |xs| && n <= |l|
    ensures |p| == n
  {
    seq(n, i requires 0 <= i < n => PowerSum(Weights(ys, xs, l, i), xs, 0))
  }

  lemma PatternEvaluatorStep(ys: seq<bv8>, xs: seq<bv8>, l: seq<bv8>, n: nat, m: nat)
    requires |ys| == |xs| && n <= |l| && m == |xs| - 1
    ensures PatternEvaluator(ys, xs, l, n)
         == Combined(PatternEvaluator(ys[..m], xs[..m], l, n), ys[m], Partials(l, xs[m], n))
  {
    hide Mul, Add;
    forall i | 0 <= i < n
      ensures PatternEvaluator(ys, xs, l, n)[i]
           == Combined(PatternEvaluator(ys[..m], xs[..m], l, n), ys[m], Partials(l, xs[m], n))[i]
    {
      assert Weights(ys, xs, l, i)[..m] == Weights(ys[..m], xs[..m], l, i);
      assert Weights(ys, xs, l, i)[m] == Mul(ys[m], Partial(l, xs[m], i));
      assert Pow(xs[m], 0) == 1;
      MulUnits(Mul(ys[m], Partial(l, xs[m], i)));
    }
  }

  // At u, every place but one contributes nothing.
  lemma {:induction false} OnePlaceCounts(ys: seq<bv8>, xs: seq<bv8>, l: seq<bv8>, n: nat, u: bv8, k: nat)
    requires |ys| == |xs| && n <= |l|
    requires forall m :: 0 <= m < |xs| && m != k ==> Eval(Partials(l, xs[m], n), u) == 0
    ensures Eval(PatternEvaluator(ys, xs, l, n), u)
         == if k < |xs| then Mul(ys[k], Eval(Partials(l, xs[k], n), u)) else 0
    decreases |xs|
  {
    hide Mul, Add, Partials;
    if |xs| == 0 {
      assert AllZero(PatternEvaluator(ys, xs, l, n)) by {
        forall i | 0 <= i < n ensures PatternEvaluator(ys, xs, l, n)[i] == 0 {}
      }
      EvalAllZero(PatternEvaluator(ys, xs, l, n), u);
    } else {
      var m := |xs| - 1;
      OnePlaceCounts(ys[..m], xs[..m], l, n, u, k);
      PatternEvaluatorStep(ys, xs, l, n, m);
      EvalCombined(PatternEvaluator(ys[..m], xs[..m], l, n), ys[m], Partials(l, xs[m], n), u);
      MulUnits(ys[m]);
      AddLaws(Mul(ys[m], Eval(Partials(l, xs[m], n), u)), 0, 0);
      AddLaws(Eval(PatternEvaluator(ys[..m], xs[..m], l, n), u), 0, 0);
    }
  }

  lemma PartialsAreQuotient(l: seq<bv8>, x: bv8, u: bv8)
    requires |l| == COEFFICIENTS && x != 0 && Eval(l, Inv(x)) == 0
    ensures Eval(Partials(l, x, PARITY), u) == Mul(Inv(x), Eval(Quotient(l, Inv(x)), u))
  {
    hide Mul, Add, Inv, Quotient;
    var r := Inv(x);
    var q := Quotient(l, r);
    InvCancels(x);
    var zero := seq(PARITY, i => 0 as bv8);
    forall i | 0 <= i < PARITY ensures Partials(l, x, PARITY)[i] == Combined(zero, r, q)[i] {
      PartialIsQuotient(l, x, r, i);
      AddLaws(Mul(r, q[i]), 0, 0);
    }
    assert Partials(l, x, PARITY) == Combined(zero, r, q);
    EvalCombined(zero, r, q, u);
    EvalAllZero(zero, u);
    AddLaws(Mul(r, Eval(q, u)), 0, 0);
  }

  // The value decode computes for the place x: x times the evaluator over the derivative.
  ghost function Magnitude(l: seq<bv8>, s: seq<bv8>, x: bv8): bv8
    requires |l| == COEFFICIENTS && |s| == PARITY
  {
    Mul(x, Mul(Eval(Evaluator(l, s, PARITY), Inv(x)), Inv(OddPart(l, Inv(x)))))
  }

  lemma ForneyGivesTheValue(l: seq<bv8>, length: nat, ys: seq<bv8>, xs: seq<bv8>, s: seq<bv8>, k: nat)
    requires Finished(l, length, ys, xs, s) && k < |xs|
    ensures OddPart(l, Inv(xs[k])) != 0
    ensures Magnitude(l, s, xs[k]) == ys[k]
  {
    hide Mul, Add, Inv, Quotient, Partials, OddPart, Discrepancy;
    var x, r := xs[k], Inv(xs[k]);
    assert Inverses(xs)[k] == r;
    PlacesAreRoots(l, length, ys, xs, s, k);
    RootsAreSimple(l, length, ys, xs, s, k);
    QuotientAtItsRoot(l, r);
    var d := OddPart(l, r);
    assert d != 0;
    forall m | 0 <= m < |xs| && m != k ensures Eval(Partials(l, xs[m], PARITY), r) == 0 {
      PlacesAreRoots(l, length, ys, xs, s, m);
      PartialsAreQuotient(l, xs[m], r);
      OtherRootsOfQuotient(l, length, ys, xs, s, m, k);
      MulUnits(Inv(xs[m]));
    }
    OnePlaceCounts(ys, xs, l, PARITY, r, k);
    PartialsAreQuotient(l, x, r);
    EvaluatorOfPattern(ys, xs, s, l);
    assert Eval(Evaluator(l, s, PARITY), r) == Mul(ys[k], Mul(r, d));
    ForneyCancels(x, ys[k], r, d);
  }

  lemma EvaluatorOfPattern(ys: seq<bv8>, xs: seq<bv8>, s: seq<bv8>, l: seq<bv8>)
    requires Explains(ys, xs, s) && |s| == PARITY && |l| == COEFFICIENTS
    ensures Evaluator(l, s, PARITY) == PatternEvaluator(ys, xs, l, PARITY)
  {
    hide Discrepancy, Weights, PowerSum;
    forall i | 0 <= i < PARITY
      ensures Evaluator(l, s, PARITY)[i] == PatternEvaluator(ys, xs, l, PARITY)[i]
    {
      DiscrepancyIsWeighted(ys, xs, s, l, i);
    }
  }

  lemma ForneyCancels(x: bv8, y: bv8, r: bv8, d: bv8)
    requires x != 0 && r == Inv(x) && d != 0
    ensures Mul(x, Mul(Mul(y, Mul(r, d)), Inv(d))) == y
  {
    hide Mul, Inv;
    InvCancels(x);
    InvCancels(d);
    MulAssociates(y, Mul(r, d), Inv(d));
    MulAssociates(r, d, Inv(d));
    MulUnits(r);
    MulCommutes(y, r);
    MulAssociates(x, r, y);
    MulUnits(y);
  }
}
