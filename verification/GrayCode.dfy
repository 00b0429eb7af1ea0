/**
 The reflected binary order in which AdslPacket::correct sweeps its marked bits: each number
 differs from the one before in one place, and the first 2^n numbers are all the masks of n bits.
 */
module GrayCode {

  function BitXor(a: nat, b: nat): nat {
    if a == 0 && b == 0 then 0 else Parity(a, b) + 2 * BitXor(a / 2, b / 2)
  }

  // The last bit of the exclusive or.
  function Parity(a: nat, b: nat): (p: nat)
    ensures p < 2
  {
    if a % 2 == b % 2 then 0 else 1
  }

  // Whether bit j of n is set.
  ghost predicate Bit(n: nat, j: nat) {
    if j == 0 then n % 2 == 1 else Bit(n / 2, j - 1)
  }

  function Ones(n: nat): nat {
    if n == 0 then 0 else n % 2 + Ones(n / 2)
  }

  ghost function Power2(n: nat): (p: nat)
    ensures p > 0
  {
    if n == 0 then 1 else 2 * Power2(n - 1)
  }

  function Gray(i: nat): nat {
    BitXor(i, i / 2)
  }

  // The place in which Gray(i) differs from Gray(i - 1).
  ghost function Place(i: nat): nat
    requires i > 0
  {
    if i % 2 == 1 then 0 else 1 + Place(i / 2)
  }

  lemma GrayHalves(i: nat)
    ensures Gray(i) == Parity(i, i / 2) + 2 * Gray(i / 2)
  {}

  lemma {:induction false} BitXorSelf(a: nat)
    ensures BitXor(a, a) == 0
  {
    if a > 0 {
      BitXorSelf(a / 2);
    }
  }

  lemma {:induction false} GrayStep(i: nat)
    requires i > 0
    ensures BitXor(Gray(i), Gray(i - 1)) == Power2(Place(i))
    decreases i
  {
    hide Gray, BitXor, Parity;
    var a, c := i / 2, (i - 1) / 2;
    GrayHalves(i);
    GrayHalves(i - 1);
    BitXorDigits(Parity(i, a), Parity(i - 1, c), Gray(a), Gray(c));
    LastBits(i);
    if i % 2 == 1 {
      BitXorSelf(Gray(a));
    } else {
      GrayStep(a);
    }
  }

  lemma BitXorDigits(d: nat, e: nat, y: nat, z: nat)
    requires d < 2 && e < 2
    ensures BitXor(d + 2 * y, e + 2 * z) == Parity(d, e) + 2 * BitXor(y, z)
  {
    Halves(d + 2 * y, y, d);
    Halves(e + 2 * z, z, e);
  }

  // Codes of successive numbers agree in their last bit exactly when the greater number is even.
  lemma LastBits(i: nat)
    requires i > 0
    ensures (i - 1) / 2 == if i % 2 == 1 then i / 2 else i / 2 - 1
    ensures Parity(Parity(i, i / 2), Parity(i - 1, (i - 1) / 2)) == i % 2
  {
    var a := i / 2;
    if i % 2 == 1 {
      assert i - 1 == 2 * a;
    } else {
      assert i - 1 == 2 * (a - 1) + 1;
    }
  }

  lemma {:induction false} PlaceBound(i: nat, n: nat)
    requires 0 < i < Power2(n)
    ensures Place(i) < n
  {
    if i % 2 == 0 {
      PlaceBound(i / 2, n - 1);
    }
  }

  // Which bits the next number has.
  lemma {:induction false} BitXorAt(a: nat, b: nat, p: nat, j: nat)
    requires BitXor(a, b) == Power2(p)
    ensures Bit(a, j) == if j == p then !Bit(b, j) else Bit(b, j)
    decreases j
  {
    assert Power2(p) > 0;
    assert BitXor(a, b) == Parity(a, b) + 2 * BitXor(a / 2, b / 2);
    if p == 0 {
      assert BitXor(a / 2, b / 2) == 0;
      BitXorZero(a / 2, b / 2);
    } else {
      assert BitXor(a / 2, b / 2) == Power2(p - 1);
      if j > 0 {
        BitXorAt(a / 2, b / 2, p - 1, j - 1);
      }
    }
  }

  lemma {:induction false} BitXorZero(a: nat, b: nat)
    requires BitXor(a, b) == 0
    ensures a == b
  {
    if a != 0 || b != 0 {
      BitXorZero(a / 2, b / 2);
    }
  }

  // The number whose reflected code is g.
  ghost function Ungray(g: nat): nat {
    if g == 0 then 0
    else
      var h := Ungray(g / 2);
      2 * h + Parity(g, h)
  }

  lemma {:induction false} UngrayInverts(g: nat, n: nat)
    requires g < Power2(n)
    ensures Gray(Ungray(g)) == g && Ungray(g) < Power2(n)
    ensures Ungray(g) == 0 <==> g == 0
  {
    hide Gray;
    if g == 0 {
      GrayZero();
    } else {
      UngrayInverts(g / 2, n - 1);
      UngrayDigit(g);
    }
  }

  lemma UngrayDigit(g: nat)
    requires Gray(Ungray(g / 2)) == g / 2 && g > 0
    ensures Gray(Ungray(g)) == g && Ungray(g) / 2 == Ungray(g / 2)
  {
    hide Gray, Parity;
    var h, u := Ungray(g / 2), Ungray(g);
    assert u == 2 * h + Parity(g, h);
    hide Ungray;
    ParityCancels(g, h);
    GrayHalves(u);
  }

  lemma ParityCancels(x: nat, y: nat)
    ensures (2 * y + Parity(x, y)) / 2 == y
    ensures Parity(2 * y + Parity(x, y), y) == x % 2
  {
    Halves(2 * y + Parity(x, y), y, Parity(x, y));
  }

  lemma Halves(u: nat, h: nat, b: nat)
    requires u == 2 * h + b && b < 2
    ensures u / 2 == h && u % 2 == b
  {}

  lemma GrayZero()
    ensures Gray(0) == 0
  {}

  lemma {:induction false} GrayBound(i: nat, n: nat)
    requires i < Power2(n)
    ensures Gray(i) < Power2(n)
  {
    hide Gray;
    if n == 0 {
      GrayZero();
    } else {
      GrayHalves(i);
      GrayBound(i / 2, n - 1);
    }
  }
}
