/** Bytes as 32-bit words, lowest byte first. */
module WordBytes {

  function Word(a: bv8, b: bv8, c: bv8, d: bv8): bv32 {
    (a as bv32) | ((b as bv32) << 8) | ((c as bv32) << 16) | ((d as bv32) << 24)
  }

  function ByteOf(w: bv32, k: nat): bv8
    requires k < 4
  {
    if k == 0 then (w & 0xFF) as bv8
    else if k == 1 then ((w >> 8) & 0xFF) as bv8
    else if k == 2 then ((w >> 16) & 0xFF) as bv8
    else ((w >> 24) & 0xFF) as bv8
  }

  lemma WordOfBytes(w: bv32)
    ensures Word(ByteOf(w, 0), ByteOf(w, 1), ByteOf(w, 2), ByteOf(w, 3)) == w
  {}

  lemma BytesOfWord(a: bv8, b: bv8, c: bv8, d: bv8)
    ensures ByteOf(Word(a, b, c, d), 0) == a && ByteOf(Word(a, b, c, d), 1) == b
    ensures ByteOf(Word(a, b, c, d), 2) == c && ByteOf(Word(a, b, c, d), 3) == d
  {}

  lemma FourPlaces(i: nat)
    ensures 4 * i / 4 == i && (4 * i + 1) / 4 == i && (4 * i + 2) / 4 == i && (4 * i + 3) / 4 == i
    ensures 4 * i % 4 == 0 && (4 * i + 1) % 4 == 1 && (4 * i + 2) % 4 == 2 && (4 * i + 3) % 4 == 3
  {}

  // The first byte is the least significant.
  lemma WordInNumbers(a: bv8, b: bv8, c: bv8, d: bv8)
    ensures Word(a, b, c, d) == (a as bv32) + 0x100 * (b as bv32) + 0x1_0000 * (c as bv32) + 0x100_0000 * (d as bv32)
  {}
}
