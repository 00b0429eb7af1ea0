/**
 AdslPacket::correct of firmware/core/protocol/adsl.cpp: repairs a 24-byte block whose receiver
 marked some bits as unreadable, by sweeping the marked bits in reflected binary order and
 looking for one more wrong bit at every stop.
 */
module BitSets {
  import opened AdslCrc
  import opened Pigeonhole
  import opened GrayCode

  ghost predicate BitOf(d: seq<bv8>, i: nat)
    requires i < 8 * |d|
  {
    BitSet(d[i / 8], i % 8)
  }

  predicate Meets(b: bv8, mask: bv8) {
    b & mask != 0
  }

  predicate BitSet(b: bv8, k: nat) {
    Meets(b, Mask(k))
  }

  // The bits in which two blocks differ.
  ghost function Changed(a: seq<bv8>, b: seq<bv8>): set<nat>
    requires |a| == |b| == DATA_BYTES
  {
    set i | i in Range(BITS) && BitOf(a, i) != BitOf(b, i)
  }

  ghost function Toggled(s: set<nat>, x: nat): set<nat> {
    if x in s then s - {x} else s + {x}
  }

  // ----- flipping

  lemma FlipByte(b: bv8, k: nat, j: nat)
    requires k < 8 && j < 8
    ensures BitSet(Xor8(b, Mask(k)), j) == if j == k then !BitSet(b, k) else BitSet(b, j)
  {
    hide Mask, Xor8, Single;
    MaskCases(k);
    if j == k {
      SameMask(b, Mask(k));
    } else {
      OtherMask(b, Mask(k), Mask(j));
    }
  }

  predicate Single(m: bv8) {
    m == 0x80 || m == 0x40 || m == 0x20 || m == 0x10 || m == 8 || m == 4 || m == 2 || m == 1
  }

  lemma MaskCases(k: nat)
    requires k < 8
    ensures Single(Mask(k))
    ensures forall j: nat :: j < 8 && j != k ==> Mask(k) & Mask(j) == 0
  {}

  lemma SameMask(b: bv8, m: bv8)
    requires Single(m)
    ensures Xor8(b, m) & m != 0 <==> b & m == 0
  {}

  lemma OtherMask(b: bv8, m: bv8, n: bv8)
    requires m & n == 0
    ensures Xor8(b, m) & n == b & n
  {}

  lemma FlipBit(d: seq<bv8>, i: nat, k: nat)
    requires i < 8 * |d| && k < 8 * |d|
    ensures BitOf(Flip(d, i), k) == if k == i then !BitOf(d, i) else BitOf(d, k)
  {
    hide Mask, Xor8, BitSet;
    FlipByte(d[i / 8], i % 8, k % 8);
    assert i == 8 * (i / 8) + i % 8 && k == 8 * (k / 8) + k % 8;
  }

  lemma FlipToggles(a: seq<bv8>, d: seq<bv8>, i: nat)
    requires |a| == |d| == DATA_BYTES && i < BITS
    ensures Changed(a, Flip(d, i)) == Toggled(Changed(a, d), i)
  {
    hide BitOf, Flip;
    forall k: nat | k < BITS
      ensures k in Changed(a, Flip(d, i)) <==> k in Toggled(Changed(a, d), i)
    {
      FlipBit(d, i, k);
    }
  }

  lemma ByteFromBits(a: bv8, b: bv8)
    requires forall k: nat :: k < 8 ==> BitSet(a, k) == BitSet(b, k)
    ensures a == b
  {
    assert BitSet(a, 0) == BitSet(b, 0) && BitSet(a, 1) == BitSet(b, 1);
    assert BitSet(a, 2) == BitSet(b, 2) && BitSet(a, 3) == BitSet(b, 3);
    assert BitSet(a, 4) == BitSet(b, 4) && BitSet(a, 5) == BitSet(b, 5);
    assert BitSet(a, 6) == BitSet(b, 6) && BitSet(a, 7) == BitSet(b, 7);
  }

  lemma UnchangedIsEqual(a: seq<bv8>, b: seq<bv8>)
    requires |a| == |b| == DATA_BYTES && Changed(a, b) == {}
    ensures a == b
  {
    hide BitSet;
    forall i | 0 <= i < DATA_BYTES ensures a[i] == b[i] {
      forall k: nat | k < 8 ensures BitSet(a[i], k) == BitSet(b[i], k) {
        var bit := 8 * i + k;
        assert bit / 8 == i && bit % 8 == k;
        assert bit in Range(BITS) && bit !in Changed(a, b);
      }
      ByteFromBits(a[i], b[i]);
    }
  }

  lemma ChangedChain(a: seq<bv8>, b: seq<bv8>, c: seq<bv8>)
    requires |a| == |b| == |c| == DATA_BYTES
    ensures Changed(b, c) == (Changed(a, b) - Changed(a, c)) + (Changed(a, c) - Changed(a, b))
  {
    hide BitOf;
  }

  // A block one bit away is that bit flipped.
  lemma OneChange(a: seq<bv8>, b: seq<bv8>, i: nat)
    requires |a| == |b| == DATA_BYTES && i < BITS && Changed(a, b) == {i}
    ensures b == Flip(a, i)
  {
    hide BitOf, Flip, Changed;
    assert Changed(b, a) == {i} by { ChangedSwaps(a, b); }
    FlipToggles(b, a, i);
    UnchangedIsEqual(b, Flip(a, i));
  }

  lemma ChangedSwaps(a: seq<bv8>, b: seq<bv8>)
    requires |a| == |b| == DATA_BYTES
    ensures Changed(a, b) == Changed(b, a)
  {
    hide BitOf;
  }

  // ----- masks over a list of bits

  ghost function Chosen(bits: seq<nat>, mask: nat): set<nat> {
    if |bits| == 0 then {}
    else (if mask % 2 == 1 then {bits[0]} else {}) + Chosen(bits[1..], mask / 2)
  }

  lemma {:induction false} ChosenHas(bits: seq<nat>, mask: nat, x: nat)
    ensures x in Chosen(bits, mask) <==> exists j :: 0 <= j < |bits| && bits[j] == x && Bit(mask, j)
  {
    if |bits| > 0 {
      ChosenHas(bits[1..], mask / 2, x);
      if x in Chosen(bits, mask) {
        if mask % 2 == 1 && x == bits[0] {
          assert Bit(mask, 0);
        } else {
          var j :| 0 <= j < |bits[1..]| && bits[1..][j] == x && Bit(mask / 2, j);
          assert bits[j + 1] == x && Bit(mask, j + 1);
        }
      }
      if j :| 0 <= j < |bits| && bits[j] == x && Bit(mask, j) {
        if j > 0 {
          assert bits[1..][j - 1] == x && Bit(mask / 2, j - 1);
        }
      }
    }
  }

  lemma {:induction false} ChosenSize(bits: seq<nat>, mask: nat)
    requires Distinct(bits) && mask < Power2(|bits|)
    ensures |Chosen(bits, mask)| == Ones(mask)
  {
    if |bits| > 0 {
      ChosenSize(bits[1..], mask / 2);
      ChosenHas(bits[1..], mask / 2, bits[0]);
    }
  }

  lemma ChosenToggles(bits: seq<nat>, mask: nat, before: nat, p: nat)
    requires Distinct(bits) && p < |bits| && BitXor(mask, before) == Power2(p)
    ensures Chosen(bits, mask) == Toggled(Chosen(bits, before), bits[p])
  {
    hide Bit, Chosen;
    forall x: nat ensures x in Chosen(bits, mask) <==> x in Toggled(Chosen(bits, before), bits[p]) {
      ChosenHas(bits, mask, x);
      ChosenHas(bits, before, x);
      forall j: nat ensures Bit(mask, j) == if j == p then !Bit(before, j) else Bit(before, j) {
        BitXorAt(mask, before, p, j);
      }
    }
  }

  ghost function MaskOf(bits: seq<nat>, s: set<nat>): nat {
    if |bits| == 0 then 0 else (if bits[0] in s then 1 else 0) + 2 * MaskOf(bits[1..], s)
  }

  lemma {:induction false} MaskChooses(bits: seq<nat>, s: set<nat>)
    ensures MaskOf(bits, s) < Power2(|bits|)
    ensures Chosen(bits, MaskOf(bits, s)) == s * Elements(bits)
  {
    if |bits| > 0 {
      MaskChooses(bits[1..], s);
      var m := MaskOf(bits, s);
      assert m / 2 == MaskOf(bits[1..], s);
      assert Elements(bits) == {bits[0]} + Elements(bits[1..]);
    }
  }
}

module AdslCorrect {
  import opened AdslCrc
  import opened SyndromeSearch
  import opened Pigeonhole
  import opened GrayCode
  import opened BitSets

  const MAX_ERASURES: int := 16

  // The marked bits below n, ascending.
  ghost function Marked(erasures: seq<bv8>, n: nat): (bits: seq<nat>)
    requires n <= 8 * |erasures|
    ensures |bits| <= n
    ensures forall j :: 0 <= j < |bits| ==> bits[j] < n
  {
    if n == 0 then []
    else if BitOf(erasures, n - 1) then Marked(erasures, n - 1) + [n - 1]
    else Marked(erasures, n - 1)
  }

  ghost function MarkedSet(erasures: seq<bv8>): set<nat>
    requires |erasures| == DATA_BYTES
  {
    Elements(Marked(erasures, BITS))
  }

  lemma {:induction false} MarkedDistinct(erasures: seq<bv8>, n: nat)
    requires n <= 8 * |erasures|
    ensures Distinct(Marked(erasures, n))
  {
    hide BitOf;
    if n > 0 {
      MarkedDistinct(erasures, n - 1);
    }
  }

  lemma {:induction false} MarkedGrows(erasures: seq<bv8>, m: nat, n: nat)
    requires m <= n <= 8 * |erasures|
    ensures |Marked(erasures, m)| <= |Marked(erasures, n)|
  {
    hide BitOf;
    if m < n {
      MarkedGrows(erasures, m, n - 1);
    }
  }

  ghost predicate IsClean(d: seq<bv8>) {
    |d| == DATA_BYTES && Check(d) == 0
  }

  // The damage from a clean block that correct is built for: any of the marked bits, and at
  // most one other.
  ghost predicate Within(d: seq<bv8>, clean: seq<bv8>, marked: set<nat>)
    requires |d| == DATA_BYTES
  {
    IsClean(clean) && exists extra: set<nat> :: |extra| <= 1 && Changed(d, clean) <= marked + extra
  }

  ghost predicate Repairable(d: seq<bv8>, marked: set<nat>)
    requires |d| == DATA_BYTES
  {
    exists clean: seq<bv8> :: Within(d, clean, marked)
  }

  // ----- one bit away

  lemma NearSyndrome(d: seq<bv8>, clean: seq<bv8>, bit: nat)
    requires |d| == DATA_BYTES && IsClean(clean) && bit < BITS && Changed(d, clean) == {bit}
    ensures Check(d) == CrcSyndrome(bit) && clean == Flip(d, bit)
  {
    hide Check, Changed, Flip, CrcSyndrome, Xor;
    OneChange(d, clean, bit);
    CheckFlip(d, bit);
    XorZero(Check(d), CrcSyndrome(bit));
  }

  // At a stop of the sweep that has put the marked bits right, what is left is clean or one bit
  // away, and the search finds it.
  lemma SmallRemainder(d: seq<bv8>, clean: seq<bv8>)
    requires |d| == DATA_BYTES && IsClean(clean) && |Changed(d, clean)| <= 1
    ensures Check(d) == 0 || exists bit: nat :: bit < BITS && Check(d) == CrcSyndrome(bit)
  {
    hide Check, Flip, CrcSyndrome, BitOf;
    var c := Changed(d, clean);
    if c == {} {
      UnchangedIsEqual(d, clean);
    } else {
      var bit :| bit in c;
      SingleElement(c, bit);
      NearSyndrome(d, clean, bit);
    }
  }

  lemma SingleElement(c: set<nat>, x: nat)
    requires |c| <= 1 && x in c
    ensures c == {x}
  {
    SubsetSize({x}, c);
    if y :| y in c && y != x {
      SubsetSize({x, y}, c);
    }
  }

  // What the sweep has left when it has flipped exactly the marked bits that were wrong.
  lemma MarkedPutRight(a: seq<bv8>, d: seq<bv8>, clean: seq<bv8>, marked: set<nat>, extra: set<nat>)
    requires |a| == |d| == |clean| == DATA_BYTES && |extra| <= 1
    requires Changed(a, clean) <= marked + extra && Changed(a, d) == Changed(a, clean) * marked
    ensures |Changed(d, clean)| <= 1
  {
    hide Changed;
    ChangedChain(a, d, clean);
    SubsetSize(Changed(d, clean), extra);
  }

  // ----- the sweep

  // No stop numbered below n, the start among them, was clean or one bit away.
  ghost predicate Fruitless(a: seq<bv8>, bits: seq<nat>, n: nat)
    requires |a| == DATA_BYTES
  {
    forall i: nat, d: seq<bv8> :: i < n && |d| == DATA_BYTES && Changed(a, d) == Chosen(bits, Gray(i)) ==>
      Check(d) != 0 && NoBitHas(Check(d))
  }

  // The stop that has put right exactly the marked bits that were wrong is one of the sweep's.
  lemma SweepReaches(a: seq<bv8>, bits: seq<nat>, clean: seq<bv8>, stop: seq<bv8>, extra: set<nat>) returns (i: nat)
    requires |a| == |stop| == DATA_BYTES
    requires IsClean(clean) && |extra| <= 1 && Changed(a, clean) <= Elements(bits) + extra
    requires Changed(a, stop) == Changed(a, clean) * Elements(bits)
    ensures i < Power2(|bits|) && Changed(a, stop) == Chosen(bits, Gray(i))
    ensures Check(stop) == 0 || !NoBitHas(Check(stop))
  {
    hide Check, Changed, Chosen, Gray, CrcSyndrome;
    var mask := MaskOf(bits, Changed(a, clean));
    i := Ungray(mask);
    MaskChooses(bits, Changed(a, clean));
    UngrayInverts(mask, |bits|);
    MarkedPutRight(a, stop, clean, Elements(bits), extra);
    SmallRemainder(stop, clean);
  }

  // Some block differs from a in exactly these bits.
  lemma {:induction false} StopExists(a: seq<bv8>, s: set<nat>) returns (d: seq<bv8>)
    requires |a| == DATA_BYTES && forall x :: x in s ==> x < BITS
    ensures |d| == DATA_BYTES && Changed(a, d) == s
    decreases |s|
  {
    hide BitOf, Flip;
    if s == {} {
      d := a;
    } else {
      var x :| x in s;
      var e := StopExists(a, s - {x});
      d := Flip(e, x);
      FlipToggles(a, e, x);
    }
  }

  lemma SweepDecides(a: seq<bv8>, bits: seq<nat>)
    requires |a| == DATA_BYTES && Fruitless(a, bits, Power2(|bits|))
    requires forall j :: 0 <= j < |bits| ==> bits[j] < BITS
    ensures !Repairable(a, Elements(bits))
  {
    hide Check, BitOf, Chosen, Gray, NoBitHas;
    if clean :| Within(a, clean, Elements(bits)) {
      var extra: set<nat> :| |extra| <= 1 && Changed(a, clean) <= Elements(bits) + extra;
      var stop := StopExists(a, Changed(a, clean) * Elements(bits));
      var i := SweepReaches(a, bits, clean, stop, extra);
    }
  }

  // ----- results

  // What a non-negative return promises.
  ghost predicate Repaired(was: seq<bv8>, now: seq<bv8>, marked: set<nat>, count: int)
    requires |was| == |now| == DATA_BYTES
  {
    && IsClean(now) && |Changed(was, now)| == count
    && exists extra: set<nat> :: |extra| <= 1 && Changed(was, now) <= marked + extra
  }

  // Every clean block within one bit is the one that comes back.
  ghost predicate NearestComesBack(was: seq<bv8>, now: seq<bv8>, count: int)
    requires |was| == |now| == DATA_BYTES
  {
    forall clean: seq<bv8> :: IsClean(clean) && |Changed(was, clean)| <= 1 ==>
      now == clean && count == |Changed(was, clean)|
  }

  // The marked bits correct will sweep: all of them, or none if they are too many.
  ghost function Sweepable(erasures: seq<bv8>, maxErasures: int): set<nat>
    requires |erasures| == DATA_BYTES
  {
    if |MarkedSet(erasures)| <= maxErasures && |MarkedSet(erasures)| <= 16
    then MarkedSet(erasures) else {}
  }

  lemma ChangedSelf(d: seq<bv8>)
    requires |d| == DATA_BYTES
    ensures Changed(d, d) == {}
  {}

  lemma NearCases(d: seq<bv8>, clean: seq<bv8>)
    requires |d| == DATA_BYTES && IsClean(clean) && |Changed(d, clean)| <= 1
    ensures clean == d || exists bit: nat ::
      bit < BITS && Changed(d, clean) == {bit} && Check(d) == CrcSyndrome(bit) && clean == Flip(d, bit)
  {
    hide Check, Flip, CrcSyndrome, BitOf;
    var c := Changed(d, clean);
    if c == {} {
      UnchangedIsEqual(d, clean);
    } else {
      var bit :| bit in c;
      SingleElement(c, bit);
      NearSyndrome(d, clean, bit);
    }
  }

  lemma AlreadyClean(d: seq<bv8>, marked: set<nat>)
    requires IsClean(d)
    ensures Repaired(d, d, marked, 0) && Repairable(d, marked) && NearestComesBack(d, d, 0)
  {
    hide Check, CrcSyndrome, Flip, Changed;
    ChangedSelf(d);
    assert Changed(d, d) <= marked + {};
    assert Within(d, d, marked);
    forall clean: seq<bv8> | IsClean(clean) && |Changed(d, clean)| <= 1 ensures clean == d {
      NearCases(d, clean);
      if clean != d {
        var bit: nat :| bit < BITS && Check(d) == CrcSyndrome(bit);
        SyndromeNonzero(bit);
      }
    }
  }

  lemma OneBitAway(d: seq<bv8>, bit: nat, marked: set<nat>)
    requires |d| == DATA_BYTES && bit < BITS && Check(d) == CrcSyndrome(bit)
    ensures Repaired(d, Flip(d, bit), marked, 1) && Repairable(d, marked) && NearestComesBack(d, Flip(d, bit), 1)
  {
    hide Check, CrcSyndrome, Flip, Changed, Xor;
    var f := Flip(d, bit);
    CheckFlip(d, bit);
    XorZero(Check(d), CrcSyndrome(bit));
    ChangedSelf(d);
    FlipToggles(d, d, bit);
    assert Changed(d, f) == {bit};
    assert Changed(d, f) <= marked + {bit};
    assert Within(d, f, marked);
    SyndromeNonzero(bit);
    forall clean: seq<bv8> | IsClean(clean) && |Changed(d, clean)| <= 1
      ensures clean == f && 1 == |Changed(d, clean)|
    {
      NearCases(d, clean);
      if clean != d {
        var other: nat :| other < BITS && Check(d) == CrcSyndrome(other) && clean == Flip(d, other);
        SyndromesDistinct(bit, other);
      }
    }
  }

  // With neither, nothing clean is near, and the sweep has met its first stop.
  lemma NothingNear(d: seq<bv8>, bits: seq<nat>)
    requires |d| == DATA_BYTES && Check(d) != 0 && NoBitHas(Check(d))
    ensures NearestComesBack(d, d, 0) && !Repairable(d, {}) && Fruitless(d, bits, 1)
    ensures forall now: seq<bv8>, count: int :: |now| == DATA_BYTES ==> NearestComesBack(d, now, count)
  {
    hide Check, CrcSyndrome, Flip, Changed, Chosen, Gray;
    forall clean: seq<bv8> | IsClean(clean) ensures |Changed(d, clean)| > 1 {
      if |Changed(d, clean)| <= 1 { NearCases(d, clean); }
    }
    if clean :| Within(d, clean, {}) {
      var extra: set<nat> :| |extra| <= 1 && Changed(d, clean) <= {} + extra;
      SubsetSize(Changed(d, clean), extra);
    }
    forall i: nat, e: seq<bv8> | i < 1 && |e| == DATA_BYTES && Changed(d, e) == Chosen(bits, Gray(i))
      ensures e == d
    {
      GrayZero();
      ChosenNone(bits);
      UnchangedIsEqual(d, e);
    }
  }

  lemma {:induction false} ChosenNone(bits: seq<nat>)
    ensures Chosen(bits, 0) == {}
  {
    if |bits| > 0 { ChosenNone(bits[1..]); }
  }

  lemma SameChangesSameBlock(a: seq<bv8>, d: seq<bv8>, e: seq<bv8>)
    requires |a| == |d| == |e| == DATA_BYTES && Changed(a, d) == Changed(a, e)
    ensures d == e
  {
    hide Changed;
    ChangedChain(a, d, e);
    UnchangedIsEqual(d, e);
  }

  // One more stop that was neither.
  lemma StopFruitless(a: seq<bv8>, bits: seq<nat>, i: nat, d: seq<bv8>)
    requires |a| == |d| == DATA_BYTES && Fruitless(a, bits, i)
    requires Changed(a, d) == Chosen(bits, Gray(i)) && Check(d) != 0 && NoBitHas(Check(d))
    ensures Fruitless(a, bits, i + 1)
  {
    hide Check, Changed, Chosen, Gray, NoBitHas;
    forall k: nat, e: seq<bv8> | k < i + 1 && |e| == DATA_BYTES && Changed(a, e) == Chosen(bits, Gray(k))
      ensures Check(e) != 0 && NoBitHas(Check(e))
    {
      if k == i { SameChangesSameBlock(a, d, e); }
    }
  }

  lemma {:induction false} ChosenWithin(bits: seq<nat>, mask: nat)
    ensures Chosen(bits, mask) <= Elements(bits)
  {
    if |bits| > 0 {
      ChosenWithin(bits[1..], mask / 2);
      assert Elements(bits) == {bits[0]} + Elements(bits[1..]);
    }
  }

  lemma StopClean(a: seq<bv8>, bits: seq<nat>, i: nat, d: seq<bv8>)
    requires |a| == DATA_BYTES && Distinct(bits) && i < Power2(|bits|) && IsClean(d)
    requires Changed(a, d) == Chosen(bits, Gray(i))
    ensures Repaired(a, d, Elements(bits), Ones(Gray(i))) && Repairable(a, Elements(bits))
  {
    hide Check, Changed, Chosen, Gray;
    GrayBound(i, |bits|);
    ChosenSize(bits, Gray(i));
    ChosenWithin(bits, Gray(i));
    assert Changed(a, d) <= Elements(bits) + {};
    assert Within(a, d, Elements(bits));
  }

  // These are the marks of stop j, but for one at most.
  ghost predicate NearStop(bits: seq<nat>, j: nat, marks: set<nat>) {
    Chosen(bits, Gray(j)) == marks || exists x :: x in bits && Chosen(bits, Gray(j)) == Toggled(marks, x)
  }

  lemma ChosenAtStop(bits: seq<nat>, i: nat)
    requires |bits| > 0 && Distinct(bits)
    ensures Chosen(bits, Gray(i)) ==
      (if Parity(i, i / 2) == 1 then {bits[0]} else {}) + Chosen(bits[1..], Gray(i / 2))
    ensures bits[0] !in Chosen(bits[1..], Gray(i / 2)) && Distinct(bits[1..])
  {
    hide Gray, Parity, Chosen;
    var rest := bits[1..];
    GrayHalves(i);
    Halves(Gray(i), Gray(i / 2), Parity(i, i / 2));
    ChosenUnfolds(bits, Gray(i));
    ChosenWithin(rest, Gray(i / 2));
    assert bits[0] !in Elements(rest);
  }

  lemma ChosenUnfolds(bits: seq<nat>, mask: nat)
    requires |bits| > 0
    ensures Chosen(bits, mask) == (if mask % 2 == 1 then {bits[0]} else {}) + Chosen(bits[1..], mask / 2)
  {}

  lemma EarlierFirst(bits: seq<nat>, i: nat) returns (j: nat)
    requires |bits| > 0 && Distinct(bits) && i < Power2(|bits|) && bits[0] in Chosen(bits, Gray(i))
    ensures j < i && NearStop(bits, j, Chosen(bits, Gray(i)) - {bits[0]})
  {
    hide Gray, Chosen;
    ChosenAtStop(bits, i);
    j := if i % 2 == 1 then i - 1 else i - 2;
    ChosenAtStop(bits, j);
    if i % 2 == 0 {
      var h := i / 2;
      GrayStep(h);
      assert Power2(0) == 1 && Place(h) == 0;
      ChosenToggles(bits[1..], Gray(h), Gray(h - 1), 0);
      assert bits[1] in bits;
    }
  }

  lemma EarlierRest(bits: seq<nat>, i: nat, bit: nat, k: nat) returns (j: nat)
    requires |bits| > 0 && Distinct(bits) && bit != bits[0] && bit in Chosen(bits, Gray(i))
    requires k < i / 2 && NearStop(bits[1..], k, Chosen(bits[1..], Gray(i / 2)) - {bit})
    ensures j < i && NearStop(bits, j, Chosen(bits, Gray(i)) - {bit})
  {
    hide Gray, Chosen, Parity;
    var rest, left := bits[1..], Chosen(bits[1..], Gray(i / 2)) - {bit};
    ChosenAtStop(bits, i);
    ParityCancels(Parity(i, i / 2), k);
    j := 2 * k + Parity(Parity(i, i / 2), k);
    ChosenAtStop(bits, j);
    if Chosen(rest, Gray(k)) != left {
      var x :| x in rest && Chosen(rest, Gray(k)) == Toggled(left, x);
      assert x in bits && x != bits[0];
      assert Chosen(bits, Gray(j)) == Toggled(Chosen(bits, Gray(i)) - {bit}, x);
    }
  }

  // The marks put right at a stop, less one of them, were the marks of an earlier stop, or are one
  // mark away from those of one.
  lemma {:induction false} EarlierStop(bits: seq<nat>, i: nat, bit: nat) returns (j: nat)
    requires Distinct(bits) && i < Power2(|bits|) && bit in Chosen(bits, Gray(i))
    ensures j < i && NearStop(bits, j, Chosen(bits, Gray(i)) - {bit})
  {
    hide Gray, NearStop;
    if bit == bits[0] {
      j := EarlierFirst(bits, i);
    } else {
      hide Chosen;
      ChosenAtStop(bits, i);
      var k := EarlierStop(bits[1..], i / 2, bit);
      j := EarlierRest(bits, i, bit, k);
    }
  }

  // A stop at most one mark from a clean block is clean or one bit away.
  lemma NearStopFound(a: seq<bv8>, bits: seq<nat>, j: nat, clean: seq<bv8>)
    requires |a| == DATA_BYTES && IsClean(clean) && NearStop(bits, j, Changed(a, clean))
    requires forall k :: 0 <= k < |bits| ==> bits[k] < BITS
    ensures !Fruitless(a, bits, j + 1)
  {
    hide Check, Changed, Chosen, Gray, CrcSyndrome, Flip, Xor;
    if Chosen(bits, Gray(j)) != Changed(a, clean) {
      var x :| x in bits && Chosen(bits, Gray(j)) == Toggled(Changed(a, clean), x);
      CheckFlip(clean, x);
      XorCommutes(CrcSyndrome(x), Check(clean));
      FlipToggles(a, clean, x);
      assert Changed(a, Flip(clean, x)) == Chosen(bits, Gray(j)) && !NoBitHas(Check(Flip(clean, x)));
    }
  }

  // At the first stop that is one bit from clean, that bit is not one the sweep has flipped.
  lemma FreshBit(a: seq<bv8>, bits: seq<nat>, i: nat, d: seq<bv8>, bit: nat)
    requires |a| == |d| == DATA_BYTES && Distinct(bits) && i < Power2(|bits|) && Fruitless(a, bits, i)
    requires forall j :: 0 <= j < |bits| ==> bits[j] < BITS
    requires Changed(a, d) == Chosen(bits, Gray(i)) && bit < BITS && Check(d) == CrcSyndrome(bit)
    ensures bit !in Chosen(bits, Gray(i))
  {
    hide Check, Changed, Chosen, Gray, CrcSyndrome, Flip, Xor, NearStop;
    CheckFlip(d, bit);
    XorZero(Check(d), CrcSyndrome(bit));
    FlipToggles(a, d, bit);
    if bit in Chosen(bits, Gray(i)) {
      var j := EarlierStop(bits, i, bit);
      NearStopFound(a, bits, j, Flip(d, bit));
    }
  }

  lemma StopOneBitAway(a: seq<bv8>, bits: seq<nat>, i: nat, d: seq<bv8>, bit: nat)
    requires |a| == |d| == DATA_BYTES && Distinct(bits) && i < Power2(|bits|) && Fruitless(a, bits, i)
    requires forall j :: 0 <= j < |bits| ==> bits[j] < BITS
    requires Changed(a, d) == Chosen(bits, Gray(i)) && bit < BITS && Check(d) == CrcSyndrome(bit)
    ensures Repaired(a, Flip(d, bit), Elements(bits), Ones(Gray(i)) + 1) && Repairable(a, Elements(bits))
  {
    hide Check, Changed, Chosen, Gray, CrcSyndrome, Flip, Xor;
    var f := Flip(d, bit);
    CheckFlip(d, bit);
    XorZero(Check(d), CrcSyndrome(bit));
    FlipToggles(a, d, bit);
    GrayBound(i, |bits|);
    ChosenSize(bits, Gray(i));
    ChosenWithin(bits, Gray(i));
    FreshBit(a, bits, i, d, bit);
    assert Changed(a, f) <= Elements(bits) + {bit};
    assert Within(a, f, Elements(bits));
  }

  // The sweep went no further than it had to: of the stops in their order the first that was clean,
  // or one bit from clean, is the one put right.
  ghost predicate FirstStop(was: seq<bv8>, now: seq<bv8>, bits: seq<nat>) {
    |was| == |now| == DATA_BYTES && exists i: nat :: StopsAt(was, now, bits, i)
  }

  ghost predicate StopsAt(was: seq<bv8>, now: seq<bv8>, bits: seq<nat>, i: nat)
    requires |was| == |now| == DATA_BYTES
  {
    && i < Power2(|bits|) && Fruitless(was, bits, i) && IsClean(now)
    && exists d: seq<bv8> :: |d| == DATA_BYTES && Changed(was, d) == Chosen(bits, Gray(i)) && IsRestOf(d, now)
  }

  // Nothing is left to do, or one bit.
  ghost predicate IsRestOf(d: seq<bv8>, now: seq<bv8>) {
    now == d || exists bit: nat :: bit < BITS && |d| == DATA_BYTES && now == Flip(d, bit)
  }

  lemma RestIsNear(d: seq<bv8>, now: seq<bv8>)
    requires |d| == DATA_BYTES && IsClean(now) && IsRestOf(d, now)
    ensures now == d ==> Check(d) == 0
    ensures now != d ==> exists bit: nat :: bit < BITS && now == Flip(d, bit) && Check(d) == CrcSyndrome(bit)
  {
    hide Check, CrcSyndrome, Flip, Xor;
    if now != d {
      var bit: nat :| bit < BITS && now == Flip(d, bit);
      CheckFlip(d, bit);
      XorZero(Check(d), CrcSyndrome(bit));
    }
  }

  lemma StopIsFirst(a: seq<bv8>, bits: seq<nat>, i: nat, d: seq<bv8>, now: seq<bv8>)
    requires |a| == |d| == DATA_BYTES && i < Power2(|bits|) && Fruitless(a, bits, i) && IsClean(now)
    requires Changed(a, d) == Chosen(bits, Gray(i)) && IsRestOf(d, now)
    ensures FirstStop(a, now, bits)
  {
    hide Check, Changed, Chosen, Gray, Fruitless, IsRestOf;
    assert StopsAt(a, now, bits, i);
  }

  lemma StartIsStop(a: seq<bv8>, bits: seq<nat>, now: seq<bv8>)
    requires |a| == DATA_BYTES && IsClean(now) && (now == a || IsRestOf(a, now))
    ensures FirstStop(a, now, bits)
  {
    hide Check, Changed, Chosen, Gray;
    ChangedSelf(a);
    GrayZero();
    ChosenNone(bits);
    assert IsRestOf(a, now);
    StopIsFirst(a, bits, 0, a, now);
  }

  lemma RestFlipped(d: seq<bv8>, bit: nat)
    requires |d| == DATA_BYTES && bit < BITS && Check(d) == CrcSyndrome(bit)
    ensures IsRestOf(d, Flip(d, bit)) && IsRestOf(d, d) && IsClean(Flip(d, bit))
  {
    hide Check, CrcSyndrome, Flip, Xor;
    CheckFlip(d, bit);
    XorZero(Check(d), CrcSyndrome(bit));
  }

  // So there is only one block it can end with.
  lemma FirstStopIsOne(was: seq<bv8>, x: seq<bv8>, y: seq<bv8>, bits: seq<nat>)
    requires FirstStop(was, x, bits) && FirstStop(was, y, bits)
    ensures x == y
  {
    hide Check, CrcSyndrome, Flip, Changed, Chosen, Gray, IsRestOf, Fruitless;
    var i: nat :| StopsAt(was, x, bits, i);
    var j: nat :| StopsAt(was, y, bits, j);
    var d: seq<bv8> :| |d| == DATA_BYTES && Changed(was, d) == Chosen(bits, Gray(i)) && IsRestOf(d, x);
    var e: seq<bv8> :| |e| == DATA_BYTES && Changed(was, e) == Chosen(bits, Gray(j)) && IsRestOf(e, y);
    StopBefore(was, bits, i, j, d, x);
    StopBefore(was, bits, j, i, e, y);
    SameChangesSameBlock(was, d, e);
    RestIsNear(d, x);
    RestIsNear(d, y);
    RestIsOne(d, x, y);
  }

  lemma StopBefore(was: seq<bv8>, bits: seq<nat>, i: nat, j: nat, d: seq<bv8>, x: seq<bv8>)
    requires |was| == |d| == DATA_BYTES && Changed(was, d) == Chosen(bits, Gray(i))
    requires IsClean(x) && IsRestOf(d, x) && Fruitless(was, bits, j)
    ensures j <= i
  {
    hide Check, CrcSyndrome, Flip, Changed, Chosen, Gray, IsRestOf;
    RestIsNear(d, x);
  }

  lemma RestIsOne(d: seq<bv8>, x: seq<bv8>, y: seq<bv8>)
    requires |d| == DATA_BYTES
    requires if x == d then Check(d) == 0
      else exists bit: nat :: bit < BITS && x == Flip(d, bit) && Check(d) == CrcSyndrome(bit)
    requires if y == d then Check(d) == 0
      else exists bit: nat :: bit < BITS && y == Flip(d, bit) && Check(d) == CrcSyndrome(bit)
    ensures x == y
  {
    hide Check, CrcSyndrome, Flip;
    if x != d {
      var b: nat :| b < BITS && x == Flip(d, b) && Check(d) == CrcSyndrome(b);
      SyndromeNonzero(b);
      var c: nat :| c < BITS && y == Flip(d, c) && Check(d) == CrcSyndrome(c);
      SyndromesDistinct(b, c);
    } else if y != d {
      var c: nat :| c < BITS && y == Flip(d, c) && Check(d) == CrcSyndrome(c);
      SyndromeNonzero(c);
    }
  }

  // ----- the method

  method Correct(data: array<bv8>, erasures: seq<bv8>, maxErasures: int) returns (count: int)
    requires data.Length == DATA_BYTES && |erasures| == DATA_BYTES
    modifies data
    ensures count >= -1
    ensures count >= 0 <==> Repairable(old(data[..]), Sweepable(erasures, maxErasures))
    ensures count >= 0 ==> Repaired(old(data[..]), data[..], Sweepable(erasures, maxErasures), count)
    ensures NearestComesBack(old(data[..]), data[..], count)
    ensures count >= 0 ==> FirstStop(old(data[..]), data[..], Marked(erasures, BITS))
  {
    hide FirstStop, IsRestOf, Check, CrcSyndrome, Flip, Changed, Repaired, Repairable, NearestComesBack, NoBitHas, Fruitless;
    ghost var a, sweepable := data[..], Sweepable(erasures, maxErasures);
    ghost var bits := Marked(erasures, BITS);
    var crc := AdslCrcCheck(data);
    if crc == 0 {
      AlreadyClean(a, sweepable);
      StartIsStop(a, bits, a);
      return 0;
    }
    var single := FindCrcSyndrome(crc);
    if single != NO_BIT {
      OneBitAway(a, single, sweepable);
      RestFlipped(a, single);
      StartIsStop(a, bits, Flip(a, single));
      FlipInPlace(data, single);
      return 1;
    }
    var most := if maxErasures < MAX_ERASURES then maxErasures else MAX_ERASURES;
    NothingNear(a, bits);
    MarkedDistinct(erasures, BITS);
    ElementsSize(bits);
    var marked, index, mask, syndromes := CollectMarks(erasures, most);
    if marked > most {
      return -1;
    }
    count := Sweep(data, crc, marked, index, mask, syndromes, bits);
    NothingNear(a, bits);
  }

  method AdslCrcCheck(data: array<bv8>) returns (crc: bv32)
    ensures crc == Check(data[..])
  {
    hide Pass;
    crc := 0;
    for i := 0 to data.Length
      invariant crc == Register(data[..i])
    {
      assert data[..i + 1][..i] == data[..i];
      crc := AdslCrcPass(crc, data[i]);
    }
    assert data[..data.Length] == data[..];
    crc := Upper(crc);
  }

  method FlipInPlace(data: array<bv8>, bit: nat)
    requires bit < 8 * data.Length
    modifies data
    ensures data[..] == Flip(old(data[..]), bit)
  {
    hide Mask, Xor8;
    data[bit / 8] := Xor8(data[bit / 8], Mask(bit % 8));
  }

  // The place, the mask and the syndrome of each of the first bits.
  ghost predicate Describes(bits: seq<nat>, most: int, index: seq<nat>, mask: seq<bv8>, syndromes: seq<bv32>) {
    && |index| == |mask| == |syndromes| == MAX_ERASURES
    && forall j :: 0 <= j < |bits| && j < most && j < MAX_ERASURES ==>
      index[j] == bits[j] / 8 && mask[j] == Mask(bits[j] % 8) && syndromes[j] == CrcSyndrome(bits[j])
  }

  lemma MaskShift(k: nat)
    requires k < 7
    ensures Mask(k) >> 1 == Mask(k + 1)
  {}

  // Counts the marked bits and describes them, giving up at the end of a byte once they are too many.
  method CollectMarks(erasures: seq<bv8>, most: int)
      returns (marked: nat, index: seq<nat>, mask: seq<bv8>, syndromes: seq<bv32>)
    requires |erasures| == DATA_BYTES && most <= MAX_ERASURES
    ensures marked > most <==> |Marked(erasures, BITS)| > most
    ensures marked <= most ==> |index| == |mask| == |syndromes| == MAX_ERASURES && marked == |Marked(erasures, BITS)|
    ensures marked <= most ==> forall j :: 0 <= j < marked ==>
      var bit := Marked(erasures, BITS)[j];
      index[j] == bit / 8 && mask[j] == Mask(bit % 8) && syndromes[j] == CrcSyndrome(bit)
  {
    hide Mask, CrcSyndrome, Describes, BitOf;
    marked, index, mask, syndromes := 0, seq(MAX_ERASURES, _ => 0), seq(MAX_ERASURES, _ => 0), seq(MAX_ERASURES, _ => 0);
    NothingDescribed(most, index, mask, syndromes);
    for byteIndex := 0 to DATA_BYTES
      invariant marked == |Marked(erasures, 8 * byteIndex)|
      invariant Describes(Marked(erasures, 8 * byteIndex), most, index, mask, syndromes)
    {
      marked, index, mask, syndromes := CollectByte(erasures, byteIndex, most, marked, index, mask, syndromes);
      if marked > most {
        MarkedGrows(erasures, 8 * (byteIndex + 1), BITS);
        return;
      }
    }
    AllDescribed(Marked(erasures, BITS), most, index, mask, syndromes);
  }

  method CollectByte(erasures: seq<bv8>, byteIndex: nat, most: int, marked0: nat,
                     index0: seq<nat>, mask0: seq<bv8>, syndromes0: seq<bv32>)
      returns (marked: nat, index: seq<nat>, mask: seq<bv8>, syndromes: seq<bv32>)
    requires |erasures| == DATA_BYTES && byteIndex < DATA_BYTES && most <= MAX_ERASURES
    requires marked0 == |Marked(erasures, 8 * byteIndex)|
    requires Describes(Marked(erasures, 8 * byteIndex), most, index0, mask0, syndromes0)
    ensures marked == |Marked(erasures, 8 * byteIndex + 8)|
    ensures Describes(Marked(erasures, 8 * byteIndex + 8), most, index, mask, syndromes)
  {
    hide Mask, CrcSyndrome, Describes, Meets;
    marked, index, mask, syndromes := marked0, index0, mask0, syndromes0;
    var byte, bitMask := erasures[byteIndex], Mask(0);
    for bitIndex := 0 to 8
      invariant bitIndex < 8 ==> bitMask == Mask(bitIndex)
      invariant marked == |Marked(erasures, 8 * byteIndex + bitIndex)|
      invariant Describes(Marked(erasures, 8 * byteIndex + bitIndex), most, index, mask, syndromes)
    {
      PlaceOfBit(byteIndex, bitIndex);
      if Meets(byte, bitMask) {
        index, mask, syndromes := CollectBit(Marked(erasures, 8 * byteIndex + bitIndex), byteIndex, bitIndex, bitMask,
                                             most, marked, index, mask, syndromes);
        marked := marked + 1;
      }
      bitMask := NextMask(bitMask, bitIndex);
    }
  }

  method CollectBit(ghost bits: seq<nat>, byteIndex: nat, bitIndex: nat, bitMask: bv8, most: int, marked: nat,
                    index0: seq<nat>, mask0: seq<bv8>, syndromes0: seq<bv32>)
      returns (index: seq<nat>, mask: seq<bv8>, syndromes: seq<bv32>)
    requires byteIndex < DATA_BYTES && bitIndex < 8 && bitMask == Mask(bitIndex)
    requires marked == |bits| && most <= MAX_ERASURES
    requires Describes(bits, most, index0, mask0, syndromes0)
    ensures Describes(bits + [8 * byteIndex + bitIndex], most, index, mask, syndromes)
  {
    hide Mask, CrcSyndrome, Describes;
    PlaceOfBit(byteIndex, bitIndex);
    DescribedLengths(bits, most, index0, mask0, syndromes0);
    index, mask, syndromes := index0, mask0, syndromes0;
    if marked < most {
      index, mask := index[marked := byteIndex], mask[marked := bitMask];
      syndromes := syndromes[marked := CrcSyndrome(byteIndex * 8 + bitIndex)];
    }
    OneMoreDescribed(bits, 8 * byteIndex + bitIndex, most, index0, mask0, syndromes0, index, mask, syndromes);
  }

  function NextMask(bitMask: bv8, ghost k: nat): (next: bv8)
    requires k < 8 && bitMask == Mask(k)
    ensures k < 7 ==> next == Mask(k + 1)
  {
    assert k < 7 ==> bitMask >> 1 == Mask(k + 1) by { if k < 7 { MaskShift(k); } }
    bitMask >> 1
  }

  lemma DescribedLengths(bits: seq<nat>, most: int, index: seq<nat>, mask: seq<bv8>, syndromes: seq<bv32>)
    requires Describes(bits, most, index, mask, syndromes)
    ensures |index| == |mask| == |syndromes| == MAX_ERASURES
  {}

  lemma PlaceOfBit(byteIndex: nat, k: nat)
    requires k < 8
    ensures (8 * byteIndex + k) / 8 == byteIndex && (8 * byteIndex + k) % 8 == k
  {}

  lemma NothingDescribed(most: int, index: seq<nat>, mask: seq<bv8>, syndromes: seq<bv32>)
    requires |index| == |mask| == |syndromes| == MAX_ERASURES
    ensures Describes([], most, index, mask, syndromes)
  {}

  lemma OneMoreDescribed(bits: seq<nat>, bit: nat, most: int, index: seq<nat>, mask: seq<bv8>, syndromes: seq<bv32>,
                         index': seq<nat>, mask': seq<bv8>, syndromes': seq<bv32>)
    requires Describes(bits, most, index, mask, syndromes) && most <= MAX_ERASURES
    requires |index'| == |mask'| == |syndromes'| == MAX_ERASURES
    requires
      if |bits| < most then
        && index' == index[|bits| := bit / 8] && mask' == mask[|bits| := Mask(bit % 8)]
        && syndromes' == syndromes[|bits| := CrcSyndrome(bit)]
      else index' == index && mask' == mask && syndromes' == syndromes
    ensures Describes(bits + [bit], most, index', mask', syndromes')
  {
    hide Mask, CrcSyndrome;
  }

  lemma AllDescribed(bits: seq<nat>, most: int, index: seq<nat>, mask: seq<bv8>, syndromes: seq<bv32>)
    requires Describes(bits, most, index, mask, syndromes) && most <= MAX_ERASURES
    ensures |index| == |mask| == |syndromes| == MAX_ERASURES
    ensures |bits| <= most ==> forall j :: 0 <= j < |bits| ==>
      index[j] == bits[j] / 8 && mask[j] == Mask(bits[j] % 8) && syndromes[j] == CrcSyndrome(bits[j])
  {
    hide Mask, CrcSyndrome;
  }

  method Sweep(data: array<bv8>, start: bv32, marked: nat, index: seq<nat>, mask: seq<bv8>,
               syndromes: seq<bv32>, ghost bits: seq<nat>) returns (count: int)
    requires data.Length == DATA_BYTES && start == Check(data[..])
    requires |index| == |mask| == |syndromes| == MAX_ERASURES && marked == |bits| <= MAX_ERASURES
    requires Distinct(bits) && forall j :: 0 <= j < marked ==> bits[j] < BITS
    requires forall j :: 0 <= j < marked ==>
      index[j] == bits[j] / 8 && mask[j] == Mask(bits[j] % 8) && syndromes[j] == CrcSyndrome(bits[j])
    requires Fruitless(data[..], bits, 1)
    modifies data
    ensures count >= -1
    ensures count >= 0 <==> Repairable(old(data[..]), Elements(bits))
    ensures count >= 0 ==> Repaired(old(data[..]), data[..], Elements(bits), count)
    ensures count >= 0 ==> FirstStop(old(data[..]), data[..], bits)
  {
    hide Check, CrcSyndrome, Flip, Changed, Repaired, Repairable, FirstStop, NoBitHas, Fruitless, Chosen, Gray, Mask, Xor, BitXor;
    ghost var a := data[..];
    var loops := Loops(marked);
    var crc, previousGray := start, 0;
    ChangedSelf(a);
    ChosenNone(bits);
    GrayZero();
    for i := 1 to loops
      invariant previousGray == Gray(i - 1) && crc == Check(data[..])
      invariant Changed(a, data[..]) == Chosen(bits, Gray(i - 1))
      invariant Fruitless(a, bits, i)
    {
      ghost var d := data[..];
      var gray := Gray(i);
      GrayStep(i);
      PlaceBound(i, marked);
      var bit := HighestBit(BitXor(gray, previousGray), Place(i));
      FlipStep(data, index[bit], mask[bit], bits[bit]);
      CheckFlip(d, bits[bit]);
      FlipToggles(a, d, bits[bit]);
      ChosenToggles(bits, gray, previousGray, bit);
      crc := Xor(crc, syndromes[bit]);
      if crc == 0 {
        StopClean(a, bits, i, data[..]);
        StopIsFirst(a, bits, i, data[..], data[..]);
        return Ones(gray);
      }
      var remaining := FindCrcSyndrome(crc);
      if remaining != NO_BIT {
        StopOneBitAway(a, bits, i, data[..], remaining);
        RestFlipped(data[..], remaining);
        StopIsFirst(a, bits, i, data[..], Flip(data[..], remaining));
        FlipInPlace(data, remaining);
        return Ones(gray) + 1;
      }
      StopFruitless(a, bits, i, data[..]);
      previousGray := gray;
    }
    SweepDecides(a, bits);
    count := -1;
  }

  method FlipStep(data: array<bv8>, index: nat, mask: bv8, ghost bit: nat)
    requires bit < 8 * data.Length && index == bit / 8 && mask == Mask(bit % 8)
    modifies data
    ensures data[..] == Flip(old(data[..]), bit)
  {
    hide Mask, Xor8;
    data[index] := Xor8(data[index], mask);
  }

  // 1 << marked.
  function Loops(marked: nat): (n: nat)
    ensures n == Power2(marked) && n >= 1
  {
    if marked == 0 then 1 else 2 * Loops(marked - 1)
  }

  method HighestBit(n: nat, ghost p: nat) returns (bit: nat)
    requires n == Power2(p)
    ensures bit == p
  {
    var changed := n / 2;
    bit := 0;
    while changed > 0
      invariant bit <= p && changed == if bit == p then 0 else Power2(p - bit - 1)
    {
      bit := bit + 1;
      changed := changed / 2;
    }
  }
}
