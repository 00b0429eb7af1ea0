/**
 The field of 256 elements that firmware/core/fec/reed_solomon computes in: bytes, with
 exclusive or as addition and products taken modulo x^8 + x^4 + x^3 + x^2 + 1 (0x11D).

 Mul has the form the source uses, a sum of two logarithms.  Everything the decoder needs of
 it (commutative, associative, distributive, no zero divisors, inverses) is proved here, and
 TableProductIsFieldProduct ties it to the shift-and-add product that defines the field.
 */
module GaloisField {
  import Pigeonhole

  function Add(a: bv8, b: bv8): bv8 {
    a ^ b
  }

  // Multiplication by x: shift, and fold the ninth bit back in.
  function Xtime(b: bv8): bv8 {
    (b << 1) ^ ((b >> 7) * 0x1D)
  }

  // The k-th power of the generator x.
  function Exp(k: nat): bv8 {
    if k == 0 then 1 else Xtime(Exp(k - 1))
  }

  // b multiplied k times by x.
  function Shifted(b: bv8, k: nat): bv8 {
    if k == 0 then b else Xtime(Shifted(b, k - 1))
  }

  // ----- addition

  lemma AddLaws(a: bv8, b: bv8, c: bv8)
    ensures Add(a, b) == Add(b, a)
    ensures Add(Add(a, b), c) == Add(a, Add(b, c))
    ensures Add(a, 0) == a && Add(0, a) == a
    ensures Add(a, a) == 0
    ensures Add(a, Add(a, b)) == b && Add(Add(b, a), a) == b
    ensures Add(a, b) == 0 <==> a == b
  {
    hide Add;
    AddBasics(a, b, c);
    AddBasics(a, a, b);
    AddBasics(b, a, a);
    AddBasics(a, b, b);
    AddBasics(b, b, b);
  }

  lemma AddBasics(a: bv8, b: bv8, c: bv8)
    ensures Add(a, b) == Add(b, a)
    ensures Add(Add(a, b), c) == Add(a, Add(b, c))
    ensures Add(a, 0) == a && Add(0, a) == a && Add(a, a) == 0
  {
    assert a ^ b == b ^ a && (a ^ b) ^ c == a ^ (b ^ c);
  }

  lemma AddExchange(a: bv8, b: bv8, c: bv8, d: bv8)
    ensures Add(Add(a, b), Add(c, d)) == Add(Add(a, c), Add(b, d))
  {
    hide Add;
    AddLaws(a, b, Add(c, d));
    AddLaws(b, c, d);
    AddLaws(c, b, d);
    AddLaws(a, c, Add(b, d));
  }

  // ----- Xtime is linear and one-to-one

  lemma XtimeAdd(a: bv8, b: bv8)
    ensures Xtime(Add(a, b)) == Add(Xtime(a), Xtime(b))
  {}

  lemma XtimeZero(a: bv8)
    ensures Xtime(a) == 0 <==> a == 0
  {}

  lemma XtimeOneToOne(a: bv8, b: bv8)
    requires Xtime(a) == Xtime(b)
    ensures a == b
  {
    hide Xtime, Add;
    XtimeAdd(a, b);
    XtimeZero(Add(a, b));
    AddLaws(Xtime(a), Xtime(b), 0);
    AddLaws(a, b, 0);
  }

  lemma {:induction false} ShiftedAdd(a: bv8, b: bv8, k: nat)
    ensures Shifted(Add(a, b), k) == Add(Shifted(a, k), Shifted(b, k))
  {
    hide Xtime, Add;
    if k > 0 {
      ShiftedAdd(a, b, k - 1);
      XtimeAdd(Shifted(a, k - 1), Shifted(b, k - 1));
    }
  }

  lemma {:induction false} ShiftedExp(j: nat, k: nat)
    ensures Shifted(Exp(j), k) == Exp(j + k)
  {
    hide Xtime;
    if k > 0 {
      ShiftedExp(j, k - 1);
    }
  }

  lemma {:induction false} ExpNonzero(k: nat)
    ensures Exp(k) != 0
  {
    hide Xtime;
    if k > 0 {
      ExpNonzero(k - 1);
      XtimeZero(Exp(k - 1));
    }
  }

  // ----- the generator has order exactly 255

  // Squaring spreads the bits to even places and folds the upper half back in.
  function Square(b: bv8): bv8 {
    (b & 1) ^ ((b & 2) << 1) ^ ((b & 4) << 2) ^ ((b & 8) << 3)
    ^ (((b >> 4) & 1) * 0x1D) ^ (((b >> 5) & 1) * 0x74) ^ (((b >> 6) & 1) * 0xCD) ^ ((b >> 7) * 0x13)
  }

  lemma SquareXtime(b: bv8)
    ensures Square(Xtime(b)) == Xtime(Xtime(Square(b)))
  {}

  lemma {:induction false} ExpDoubles(k: nat)
    ensures Exp(2 * k) == Square(Exp(k))
  {
    if k > 0 {
      hide Xtime, Square;
      ExpDoubles(k - 1);
      SquareXtime(Exp(k - 1));
      assert Exp(2 * k) == Xtime(Exp(2 * k - 1));
      assert Exp(2 * k - 1) == Xtime(Exp(2 * (k - 1)));
    } else {
      assert Exp(0) == 1;
    }
  }

  lemma ExpNext(k: nat)
    ensures Exp(k + 1) == Xtime(Exp(k))
  {}

  // Powers by doubling; 15, 51 and 85 are the maximal proper divisors of 255.
  lemma PowersOfTheGenerator()
    ensures Exp(15) == 0x26 && Exp(51) == 0x0A && Exp(85) == 0xD6 && Exp(255) == 1
  {
    hide Exp;
    assert Exp(3) == 8 && Exp(5) == 0x20 by { SmallPowers(); }
    ExpDoubles(3);   ExpNext(6);   ExpDoubles(7);   ExpNext(14);
    assert Exp(15) == 0x26;
    ExpDoubles(15);  ExpNext(30);  ExpDoubles(31);  ExpNext(62);
    ExpDoubles(63);  ExpNext(126); ExpDoubles(127); ExpNext(254);
    assert Exp(255) == 1;
    ExpDoubles(6);   ExpDoubles(12);  ExpNext(24);  ExpDoubles(25); ExpNext(50);
    assert Exp(51) == 0x0A;
    ExpDoubles(5);   ExpDoubles(10);  ExpNext(20);  ExpDoubles(21); ExpDoubles(42); ExpNext(84);
    assert Exp(85) == 0xD6;
  }

  lemma SmallPowers()
    ensures Exp(3) == 8 && Exp(5) == 0x20
  {}

  // When the g-th power is one, exponents count modulo g.
  lemma {:induction false} ExpPeriods(g: nat, q: nat, r: nat)
    requires Exp(g) == 1
    ensures Exp(q * g + r) == Exp(r)
  {
    hide Exp, Shifted;
    if q > 0 {
      var n := (q - 1) * g + r;
      assert q * g + r == g + n;
      ShiftedExp(g, n);
      ShiftedExp(0, n);
      ExpZero();
      ExpPeriods(g, q - 1, r);
    }
  }

  lemma ExpPeriod(g: nat, n: nat)
    requires g > 0 && Exp(g) == 1
    ensures Exp(n) == Exp(n % g)
  {
    hide Exp;
    ExpPeriods(g, n / g, n % g);
  }

  lemma ExpZero()
    ensures Exp(0) == 1
  {}

  predicate DividesAMaximal(g: nat)
    requires g > 0
  {
    15 % g == 0 || 51 % g == 0 || 85 % g == 0
  }

  lemma DivisorsOf255(g: nat)
    requires 0 < g < 255 && 255 % g == 0
    ensures DividesAMaximal(g)
  {
    var q := 255 / g;
    assert g * q == 255;
    if g < 16 {
      assert g == 1 || g == 3 || g == 5 || g == 15;
    } else {
      assert 16 * q <= g * q;
      assert q == 3 || q == 5 || q == 15;
      assert g == 85 || g == 51 || g == 17;
    }
  }

  // The least exponent, at most d, whose power is one.
  lemma {:induction false} LeastPeriod(d: nat) returns (g: nat)
    requires d > 0 && Exp(d) == 1
    ensures 0 < g <= d && Exp(g) == 1
    ensures forall e :: 0 < e < g ==> Exp(e) != 1
  {
    hide Exp;
    if e :| 0 < e < d && Exp(e) == 1 {
      g := LeastPeriod(e);
    } else {
      g := d;
    }
  }

  lemma GeneratorOrder(d: nat)
    requires 0 < d < 255
    ensures Exp(d) != 1
  {
    hide Exp;
    if Exp(d) == 1 {
      var g := LeastPeriod(d);
      PowersOfTheGenerator();
      ExpZero();
      ExpPeriod(g, 255);
      DivisorsOf255(g);
      ExpPeriod(g, 15);
      ExpPeriod(g, 51);
      ExpPeriod(g, 85);
    }
  }

  lemma {:induction false} ExpDistinct(i: nat, j: nat)
    requires i < j < 255
    ensures Exp(i) != Exp(j)
  {
    if i == 0 {
      GeneratorOrder(j);
    } else {
      hide Xtime;
      ExpDistinct(i - 1, j - 1);
      if Exp(i) == Exp(j) {
        XtimeOneToOne(Exp(i - 1), Exp(j - 1));
      }
    }
  }

  // ----- logarithms

  lemma ByteNumber(a: bv8, b: bv8)
    ensures 0 <= a as int < 256
    ensures a as int == b as int ==> a == b
    ensures a as int == 0 ==> a == 0
  {}

  lemma LogExists(b: bv8)
    requires b != 0
    ensures exists k: nat :: k < 255 && Exp(k) == b
  {
    hide Exp;
    forall k: nat | k < 255 ensures 1 <= Exp(k) as int < 256 {
      ExpNonzero(k);
      ByteNumber(Exp(k), 0);
    }
    ByteNumber(b, 0);
    var s := seq(255, (k: nat) requires k < 255 => Exp(k) as int - 1);
    forall i, j | 0 <= i < j < 255 ensures s[i] != s[j] {
      ExpDistinct(i, j);
      ByteNumber(Exp(i), Exp(j));
    }
    Pigeonhole.Covers(s, b as int - 1);
    var k :| 0 <= k < 255 && s[k] == b as int - 1;
    ByteNumber(b, Exp(k));
  }

  ghost function Log(b: bv8): (k: nat)
    ensures k < 255
    ensures if b == 0 then k == 0 else Exp(k) == b
  {
    if b == 0 then 0
    else
      LogExists(b);
      var k: nat :| k < 255 && Exp(k) == b;
      k
  }

  lemma LogOfExp(k: nat)
    requires k < 255
    ensures Log(Exp(k)) == k
  {
    hide Exp;
    ExpNonzero(k);
    var l := Log(Exp(k));
    if l < k { ExpDistinct(l, k); } else if k < l { ExpDistinct(k, l); }
  }

  // ----- multiplication

  ghost function Mul(a: bv8, b: bv8): bv8 {
    if a == 0 || b == 0 then 0 else Exp(Log(a) + Log(b))
  }

  ghost function Inv(a: bv8): bv8 {
    Exp(255 - Log(a))
  }

  lemma ExpWraps(k: nat)
    ensures Exp(k + 255) == Exp(k)
  {
    hide Exp, Shifted;
    PowersOfTheGenerator();
    ExpZero();
    ShiftedExp(255, k);
    ShiftedExp(0, k);
  }

  lemma MulExp(i: nat, j: nat)
    ensures Mul(Exp(i), Exp(j)) == Exp(i + j)
  {
    hide Exp, Shifted;
    ExpNonzero(i);
    ExpNonzero(j);
    var l, m := Log(Exp(i)), Log(Exp(j));
    ShiftedExp(l, m);
    ShiftedExp(i, m);
    ShiftedExp(m, i);
    ShiftedExp(j, i);
    assert Exp(l + m) == Shifted(Exp(i), m) == Exp(i + m);
    assert Exp(m + i) == Shifted(Exp(j), i) == Exp(j + i);
    assert m + i == i + m;
  }

  lemma MulShifts(i: nat, b: bv8)
    ensures Mul(Exp(i), b) == Shifted(b, i)
  {
    hide Exp, Shifted;
    if b == 0 {
      ShiftedZero(i);
      ExpNonzero(i);
    } else {
      MulExp(i, Log(b));
      ShiftedExp(Log(b), i);
      assert Log(b) + i == i + Log(b);
    }
  }

  lemma {:induction false} ShiftedZero(k: nat)
    ensures Shifted(0, k) == 0
  {
    hide Xtime;
    if k > 0 {
      ShiftedZero(k - 1);
      XtimeZero(0);
    }
  }

  lemma MulCommutes(a: bv8, b: bv8)
    ensures Mul(a, b) == Mul(b, a)
  {
    hide Exp;
    assert Log(a) + Log(b) == Log(b) + Log(a);
  }

  lemma MulUnits(a: bv8)
    ensures Mul(a, 0) == 0 && Mul(0, a) == 0
    ensures Mul(a, 1) == a && Mul(1, a) == a
  {
    hide Exp;
    ExpZero();
    LogOfExp(0);
  }

  lemma MulAssociates(a: bv8, b: bv8, c: bv8)
    ensures Mul(Mul(a, b), c) == Mul(a, Mul(b, c))
  {
    hide Exp;
    if a != 0 && b != 0 && c != 0 {
      var i, j, k := Log(a), Log(b), Log(c);
      MulExp(i, j);
      MulExp(i + j, k);
      MulExp(j, k);
      MulExp(i, j + k);
      hide Mul;
      assert i + j + k == i + (j + k);
    }
  }

  lemma MulDistributes(a: bv8, b: bv8, c: bv8)
    ensures Mul(a, Add(b, c)) == Add(Mul(a, b), Mul(a, c))
    ensures Mul(Add(b, c), a) == Add(Mul(b, a), Mul(c, a))
  {
    hide Exp, Shifted, Add;
    if a == 0 {
      AddLaws(0, 0, 0);
    } else {
      var i := Log(a);
      MulShifts(i, b);
      MulShifts(i, c);
      MulShifts(i, Add(b, c));
      ShiftedAdd(b, c, i);
    }
    MulCommutes(a, Add(b, c));
    MulCommutes(a, b);
    MulCommutes(a, c);
  }

  lemma MulNonzero(a: bv8, b: bv8)
    ensures Mul(a, b) == 0 <==> a == 0 || b == 0
  {
    hide Exp;
    ExpNonzero(Log(a) + Log(b));
  }

  lemma InvCancels(a: bv8)
    requires a != 0
    ensures Inv(a) != 0
    ensures Mul(a, Inv(a)) == 1 && Mul(Inv(a), a) == 1
  {
    hide Exp;
    ExpNonzero(255 - Log(a));
    MulExp(Log(a), 255 - Log(a));
    PowersOfTheGenerator();
    MulCommutes(a, Inv(a));
  }

  // ----- the defining product

  // The product of a and the lowest n bits of b: shift and add, modulo 0x11D.
  ghost function ShiftAndAdd(a: bv8, b: bv8, n: nat): bv8
    requires n <= 8
  {
    if n == 0 then 0
    else Add(ShiftAndAdd(a, b, n - 1), if Bit(b, n - 1) then Shifted(a, n - 1) else 0)
  }

  ghost predicate Bit(b: bv8, n: nat)
    requires n < 8
  {
    (b >> n) & 1 == 1
  }

  // The bits of b below place n.
  ghost function LowBits(b: bv8, n: nat): bv8
    requires n <= 8
  {
    if n == 0 then 0 else Add(LowBits(b, n - 1), if Bit(b, n - 1) then Exp(n - 1) else 0)
  }

  lemma BitSum(b: bv8)
    ensures LowBits(b, 8) == b
  {
    assert Exp(1) == 2 && Exp(2) == 4 && Exp(3) == 8 && Exp(4) == 16 by {
      ExpZero(); ExpNext(0); ExpNext(1); ExpNext(2); ExpNext(3);
    }
    assert Exp(5) == 32 && Exp(6) == 64 && Exp(7) == 128 by {
      ExpNext(4); ExpNext(5); ExpNext(6);
    }
    hide Exp;
    assert LowBits(b, 2) == b & 3 by { assert LowBits(b, 1) == b & 1; }
    assert LowBits(b, 4) == b & 15 by { assert LowBits(b, 3) == b & 7; }
    assert LowBits(b, 6) == b & 63 by { assert LowBits(b, 5) == b & 31; }
    assert LowBits(b, 8) == b by { assert LowBits(b, 7) == b & 127; }
  }

  lemma {:induction false} MulByLowBits(a: bv8, b: bv8, n: nat)
    requires n <= 8
    ensures Mul(a, LowBits(b, n)) == ShiftAndAdd(a, b, n)
  {
    hide Exp, Shifted, Add, Mul, Bit;
    MulUnits(a);
    if n > 0 {
      MulByLowBits(a, b, n - 1);
      var term := if Bit(b, n - 1) then Exp(n - 1) else 0;
      MulDistributes(a, LowBits(b, n - 1), term);
      MulShifts(n - 1, a);
      MulCommutes(a, Exp(n - 1));
    }
  }

  // The table product of the source is the field product modulo 0x11D.
  lemma TableProductIsFieldProduct(a: bv8, b: bv8)
    ensures Mul(a, b) == ShiftAndAdd(a, b, 8)
  {
    hide Mul, Add, Bit;
    BitSum(b);
    MulByLowBits(a, b, 8);
  }
}
