/**
 The keyless XXTEA of firmware/core/fec/scramble: each word in turn gets a mix of its two
 neighbours added, and descrambling takes the same mixes away in the opposite order.
 */
module Scramble {
  const DELTA: bv32 := 0x9e3779b9

  function MixKey0(next: bv32, previous: bv32, sum: bv32): bv32 {
    Plus((previous >> 5) ^ (next << 2), (next >> 3) ^ (previous << 4)) ^ Plus(sum ^ next, previous)
  }

  // uint32_t arithmetic, which wraps.
  function Plus(a: bv32, b: bv32): bv32 { a + b }

  function Minus(a: bv32, b: bv32): bv32 { a - b }

  lemma MinusTakesAway(x: bv32, a: bv32, m: bv32)
    requires x == a + m
    ensures Minus(x, m) == a
  {}

  lemma PlusPutsBack(x: bv32, a: bv32, m: bv32)
    requires x == a - m
    ensures Plus(x, m) == a
  {}

  lemma MinusUndoesPlus(a: bv32, m: bv32)
    ensures Minus(Plus(a, m), m) == a
  {
    hide Minus;
    MinusTakesAway(Plus(a, m), a, m);
  }

  lemma PlusUndoesMinus(a: bv32, m: bv32)
    ensures Plus(Minus(a, m), m) == a
  {
    hide Plus;
    PlusPutsBack(Minus(a, m), a, m);
  }

  // The sum the given loop mixes with.
  ghost function SumAt(loop: nat): bv32 {
    if loop == 0 then 0 else Plus(SumAt(loop - 1), DELTA)
  }

  lemma ByteZero(b: bv8)
    ensures b as int == 0 <==> b == 0
  {}

  lemma PreviousByte(b: bv8)
    requires b != 0
    ensures (b - 1) as int == b as int - 1
  {}

  function Product(loops: bv8): bv32 {
    (loops as bv32) * DELTA
  }

  lemma PreviousProduct(b: bv8)
    requires b != 0
    ensures Product(b) == Plus(Product(b - 1), DELTA)
  {}

  lemma ProductOfZero()
    ensures Product(0) == 0
  {}

  lemma {:induction false} SumIsProduct(n: nat, loops: bv8)
    requires n == loops as int
    ensures Product(loops) == SumAt(n)
  {
    hide Plus, Product;
    if n == 0 {
      assert loops == 0 by { ByteZero(loops); }
      ProductOfZero();
    } else {
      PreviousByte(loops);
      PreviousProduct(loops);
      SumIsProduct(n - 1, loops - 1);
    }
  }

  function Following(words: nat, k: nat): (i: nat)
    requires k < words
    ensures i < words
  {
    if k == words - 1 then 0 else k + 1
  }

  function Preceding(words: nat, k: nat): (i: nat)
    requires k < words
    ensures i < words
  {
    if k == 0 then words - 1 else k - 1
  }

  function Mixed(d: seq<bv32>, sum: bv32, k: nat): bv32
    requires k < |d|
  {
    MixKey0(d[Following(|d|, k)], d[Preceding(|d|, k)], sum)
  }

  // ----- one loop, as the first n words of it

  ghost function Mixing(d: seq<bv32>, sum: bv32, n: nat): (e: seq<bv32>)
    requires n <= |d|
    ensures |e| == |d|
  {
    if n == 0 then d
    else
      var e := Mixing(d, sum, n - 1);
      e[n - 1 := Plus(e[n - 1], Mixed(e, sum, n - 1))]
  }

  ghost function Unmixing(d: seq<bv32>, sum: bv32, n: nat): (e: seq<bv32>)
    requires n <= |d|
    ensures |e| == |d|
    decreases n
  {
    if n == 0 then d
    else Unmixing(d[n - 1 := Minus(d[n - 1], Mixed(d, sum, n - 1))], sum, n - 1)
  }

  // A word's own value is no part of its mix.
  lemma MixedApart(d: seq<bv32>, x: bv32, sum: bv32, k: nat)
    requires 2 <= |d| && k < |d|
    ensures Mixed(d[k := x], sum, k) == Mixed(d, sum, k)
  {
    hide MixKey0;
  }

  lemma {:induction false} UnmixingUndoes(d: seq<bv32>, sum: bv32, n: nat)
    requires n <= |d| && 2 <= |d|
    ensures Unmixing(Mixing(d, sum, n), sum, n) == d
  {
    hide Mixed, Plus, Minus;
    if n > 0 {
      var e := Mixing(d, sum, n - 1);
      var m := Mixed(e, sum, n - 1);
      var f := e[n - 1 := Plus(e[n - 1], m)];
      MixedApart(e, f[n - 1], sum, n - 1);
      MinusUndoesPlus(e[n - 1], m);
      assert f[n - 1 := Minus(f[n - 1], m)] == e;
      UnmixingUndoes(d, sum, n - 1);
    }
  }

  lemma {:induction false} MixingUndoes(d: seq<bv32>, sum: bv32, n: nat)
    requires n <= |d| && 2 <= |d|
    ensures Mixing(Unmixing(d, sum, n), sum, n) == d
    decreases n
  {
    hide Mixed, Plus, Minus;
    if n > 0 {
      var m := Mixed(d, sum, n - 1);
      var e := d[n - 1 := Minus(d[n - 1], m)];
      MixingUndoes(e, sum, n - 1);
      MixedApart(d, e[n - 1], sum, n - 1);
      PlusUndoesMinus(d[n - 1], m);
      assert e[n - 1 := Plus(e[n - 1], m)] == d;
    }
  }

  // ----- all the loops

  ghost function Scrambled(d: seq<bv32>, loops: nat): (e: seq<bv32>)
    ensures |e| == |d|
    decreases loops
  {
    if loops == 0 then d else Mixing(Scrambled(d, loops - 1), SumAt(loops), |d|)
  }

  ghost function Descrambled(d: seq<bv32>, loops: nat): (e: seq<bv32>)
    ensures |e| == |d|
    decreases loops
  {
    if loops == 0 then d else Descrambled(Unmixing(d, SumAt(loops), |d|), loops - 1)
  }

  lemma {:induction false} DescramblingInverts(d: seq<bv32>, loops: nat)
    requires 2 <= |d|
    ensures Descrambled(Scrambled(d, loops), loops) == d
    decreases loops
  {
    hide SumAt;
    if loops > 0 {
      UnmixingUndoes(Scrambled(d, loops - 1), SumAt(loops), |d|);
      DescramblingInverts(d, loops - 1);
    }
  }

  lemma {:induction false} ScramblingInverts(d: seq<bv32>, loops: nat)
    requires 2 <= |d|
    ensures Scrambled(Descrambled(d, loops), loops) == d
    decreases loops
  {
    hide SumAt;
    if loops > 0 {
      var e := Unmixing(d, SumAt(loops), |d|);
      ScramblingInverts(e, loops - 1);
      MixingUndoes(d, SumAt(loops), |d|);
    }
  }

  // ----- the methods

  method ScrambleKey0(data: array<bv32>, loops: bv8)
    requires 2 <= data.Length
    modifies data
    ensures data[..] == Scrambled(old(data[..]), loops as int)
  {
    hide MixKey0, Plus, Minus;
    var words := data.Length;
    var sum: bv32 := 0;
    ghost var start := data[..];
    var previous := data[words - 1];
    for done := 0 to loops as int
      invariant sum == SumAt(done)
      invariant data[..] == Scrambled(start, done)
      invariant previous == data[words - 1]
    {
      sum := Plus(sum, DELTA);
      ghost var was := data[..];
      for index := 0 to words - 1
        invariant data[..] == Mixing(was, sum, index)
        invariant previous == data[Preceding(words, index)]
      {
        var next := data[index + 1];
        data[index] := Plus(data[index], MixKey0(next, previous, sum));
        previous := data[index];
      }
      var next := data[0];
      data[words - 1] := Plus(data[words - 1], MixKey0(next, previous, sum));
      previous := data[words - 1];
      assert data[..] == Mixing(was, sum, words);
    }
  }

  method DescrambleKey0(data: array<bv32>, loops: bv8)
    requires 2 <= data.Length
    modifies data
    ensures data[..] == Descrambled(old(data[..]), loops as int)
  {
    hide MixKey0, Plus, Minus, Product, Unmixing;
    var sum := Product(loops);
    SumIsProduct(loops as int, loops);
    ghost var start := data[..];
    var next := data[0];
    for left := loops as int downto 0
      invariant sum == SumAt(left)
      invariant Descrambled(data[..], left) == Descrambled(start, loops as int)
      invariant next == data[0]
    {
      next := DescrambleOnce(data, next, sum);
      MinusUndoesPlus(SumAt(left), DELTA);
      sum := Minus(sum, DELTA);
    }
  }

  // One loop of it, the words from the last to the first.
  method DescrambleOnce(data: array<bv32>, first: bv32, sum: bv32) returns (next: bv32)
    requires 2 <= data.Length && first == data[0]
    modifies data
    ensures data[..] == Unmixing(old(data[..]), sum, data.Length) && next == data[0]
  {
    hide MixKey0, Plus, Minus;
    var words := data.Length;
    ghost var was := data[..];
    next := first;
    for index := words downto 1
      invariant Unmixing(data[..], sum, index) == Unmixing(was, sum, words)
      invariant next == data[Following(words, index - 1)]
    {
      var previous := data[index - 1];
      ghost var d := data[..];
      data[index] := Minus(data[index], MixKey0(next, previous, sum));
      next := data[index];
      assert data[..] == d[index := Minus(d[index], Mixed(d, sum, index))];
    }
    var previous := data[words - 1];
    ghost var d := data[..];
    data[0] := Minus(data[0], MixKey0(next, previous, sum));
    next := data[0];
    assert data[..] == d[0 := Minus(d[0], Mixed(d, sum, 0))];
  }
}

/** XXTEA as its authors give it, with any key of four words; the firmware's form is its zero key. */
module Xxtea {
  import opened Remainders
  import opened Scramble

  function Mx(y: bv32, z: bv32, sum: bv32, word: bv32): bv32 {
    Plus((z >> 5) ^ (y << 2), (y >> 3) ^ (z << 4)) ^ Plus(sum ^ y, Keyed(word, z))
  }

  function Keyed(word: bv32, z: bv32): bv32 {
    word ^ z
  }

  // The key word a place of the block is mixed with.
  function KeyWord(key: seq<bv32>, p: nat, sum: bv32): bv32
    requires |key| == 4
  {
    var e := (sum >> 2) & 3;
    var q := p % 4;
    var place := (if q == 0 then 0 else if q == 1 then 1 else if q == 2 then 2 else 3) ^ e;
    if place == 0 then key[0] else if place == 1 then key[1] else if place == 2 then key[2] else key[3]
  }

  // One round over the first n words, each taking a mix of the word after it and the one before.
  ghost function Round(v: seq<bv32>, key: seq<bv32>, sum: bv32, n: nat): (w: seq<bv32>)
    requires |key| == 4 && n <= |v|
    ensures |w| == |v|
  {
    if n == 0 then v else
      var w, p := Round(v, key, sum, n - 1), n - 1;
      w[p := Turned(w, key, sum, p)]
  }

  function Turned(w: seq<bv32>, key: seq<bv32>, sum: bv32, p: nat): bv32
    requires |key| == 4 && p < |w|
  {
    Plus(w[p], Mx(w[(p + 1) % |w|], w[(p + |w| - 1) % |w|], sum, KeyWord(key, p, sum)))
  }

  ghost function Multiple(rounds: nat): bv32 {
    if rounds == 0 then 0 else Plus(Multiple(rounds - 1), 0x9E3779B9)
  }

  ghost function Encrypted(v: seq<bv32>, key: seq<bv32>, rounds: nat): (w: seq<bv32>)
    requires |key| == 4
    ensures |w| == |v|
  {
    if rounds == 0 then v else Round(Encrypted(v, key, rounds - 1), key, Multiple(rounds), |v|)
  }

  const ZERO_KEY: seq<bv32> := [0, 0, 0, 0]

  lemma ZeroKeyWord(p: nat, sum: bv32)
    ensures KeyWord(ZERO_KEY, p, sum) == 0
  {}

  lemma ZeroKeyed(z: bv32)
    ensures Keyed(0, z) == z
  {}

  // Plus is the addition of words, which wraps.
  lemma PlusIs(a: bv32, b: bv32)
    ensures Plus(a, b) == a + b
  {}

  lemma ZeroMx(y: bv32, z: bv32, sum: bv32)
    ensures Mx(y, z, sum, 0) == MixKey0(y, z, sum)
  {
    hide Plus, Keyed;
    ZeroKeyed(z);
  }

  lemma Neighbours(words: nat, p: nat)
    requires p < words
    ensures (p + 1) % words == Following(words, p) && (p + words - 1) % words == Preceding(words, p)
  {
    if p + 1 < words { Remainder(0, words, p + 1); } else { Remainder(1, words, 0); }
    if p > 0 { Remainder(1, words, p - 1); } else { Remainder(0, words, words - 1); }
  }

  lemma TurnedIsMixed(w: seq<bv32>, sum: bv32, p: nat)
    requires p < |w|
    ensures Turned(w, ZERO_KEY, sum, p) == Plus(w[p], Mixed(w, sum, p))
  {
    hide Mx, MixKey0, KeyWord, Plus;
    Neighbours(|w|, p);
    ZeroKeyWord(p, sum);
    ZeroMx(w[Following(|w|, p)], w[Preceding(|w|, p)], sum);
  }

  lemma {:induction false} RoundIsMixing(d: seq<bv32>, sum: bv32, n: nat)
    requires n <= |d|
    ensures Round(d, ZERO_KEY, sum, n) == Mixing(d, sum, n)
  {
    hide Turned, Mixed, Plus;
    if n > 0 {
      RoundIsMixing(d, sum, n - 1);
      TurnedIsMixed(Mixing(d, sum, n - 1), sum, n - 1);
    }
  }

  lemma {:induction false} MultipleIsSum(loop: nat)
    ensures Multiple(loop) == SumAt(loop)
  {
    if loop > 0 { MultipleIsSum(loop - 1); }
  }

  // The scrambling is XXTEA with a key of four zero words.
  lemma {:induction false} ScrambledIsXxtea(d: seq<bv32>, loops: nat)
    ensures Scrambled(d, loops) == Encrypted(d, ZERO_KEY, loops)
    decreases loops
  {
    hide Mixing, Round, SumAt, Multiple;
    if loops > 0 {
      ScrambledIsXxtea(d, loops - 1);
      MultipleIsSum(loops);
      RoundIsMixing(Scrambled(d, loops - 1), SumAt(loops), |d|);
    }
  }
}
