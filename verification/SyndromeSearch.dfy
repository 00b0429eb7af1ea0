/**
 find_crc_syndrome of firmware/core/protocol/adsl.cpp: a table of every bit's syndrome, sorted,
 and the binary search over it.
 */
module SyndromeSearch {
  import opened AdslCrc
  import opened Pigeonhole

  // The syndrome in the upper 24 bits, its bit in the lowest eight.
  function SortedAt(m: bv8): bv32 {
    match m >> 4
    case 0 => (
      match m & 15
      case 0 => 0x000001BF case 1 => 0x000002BE case 2 => 0x000004BD case 3 => 0x000008BC
      case 4 => 0x000010BB case 5 => 0x000020BA case 6 => 0x000040B9 case 7 => 0x000080B8
      case 8 => 0x000100B7 case 9 => 0x000200B6 case 10 => 0x000400B5 case 11 => 0x000800B4
      case 12 => 0x001000B3 case 13 => 0x001C1BA6 case 14 => 0x002000B2 case _ => 0x003836A5)
    case 1 => (
      match m & 15
      case 0 => 0x004000B1 case 1 => 0x00706CA4 case 2 => 0x008000B0 case 3 => 0x00E0D8A3
      case 4 => 0x010000AF case 5 => 0x01856788 case 6 => 0x01C1B0A2 case 7 => 0x020000AE
      case 8 => 0x030ACE87 case 9 => 0x038360A1 case 10 => 0x040000AD case 11 => 0x049C816D
      case 12 => 0x06159C86 case 13 => 0x0706C0A0 case 14 => 0x080000AC case _ => 0x0939026C)
    case 2 => (
      match m & 15
      case 0 => 0x099DED1E case 1 => 0x0AF3852D case 2 => 0x0B0E2F5A case 3 => 0x0B60CF39
      case 4 => 0x0C2B3885 case 5 => 0x0DD44197 case 6 => 0x0E0D809F case 7 => 0x100000AB
      case 8 => 0x1272046B case 9 => 0x133BDA1D case 10 => 0x15B82D7E case 11 => 0x15E70A2C
      case 12 => 0x161C5E59 case 13 => 0x16C19E38 case 14 => 0x1826E724 case _ => 0x18567084)
    case 3 => (
      match m & 15
      case 0 => 0x1BA88296 case 1 => 0x1C1B009E case 2 => 0x1C9AF551 case 3 => 0x200000AA
      case 4 => 0x24E4086A case 5 => 0x2677B41C case 6 => 0x26B27D12 case 7 => 0x2B705A7D
      case 8 => 0x2BCE142B case 9 => 0x2BFD538F case 10 => 0x2C38BC58 case 11 => 0x2D833C37
      case 12 => 0x304DCE23 case 13 => 0x30A95D03 case 14 => 0x30ACE083 case _ => 0x34170561)
    case 4 => (
      match m & 15
      case 0 => 0x365B594D case 1 => 0x37510495 case 2 => 0x38132373 case 3 => 0x3836009D
      case 4 => 0x3935EA50 case 5 => 0x3E44099A case 6 => 0x3F6D1170 case 7 => 0x400000A9
      case 8 => 0x457C2992 case 9 => 0x4701E776 case 10 => 0x49C81069 case 11 => 0x4CEF681B
      case 12 => 0x4D2EC14A case 13 => 0x4D64FA11 case 14 => 0x4E5C9B66 case _ => 0x4FABBF32)
    case 5 => (
      match m & 15
      case 0 => 0x531B250C case 1 => 0x56E0B47C case 2 => 0x579C282A case 3 => 0x57FAA68E
      case 4 => 0x58717857 case 5 => 0x5A086F41 case 6 => 0x5A5C4545 case 7 => 0x5B067836
      case 8 => 0x5F4ACF3D case 9 => 0x5F4C215E case 10 => 0x609B9C22 case 11 => 0x6152BA02
      case 12 => 0x6159C082 case 13 => 0x62696516 case 14 => 0x6308D707 case _ => 0x67675B18)
    case 6 => (
      match m & 15
      case 0 => 0x682E0A60 case 1 => 0x696A1347 case 2 => 0x6B3BCB0E case 3 => 0x6CB6B24C
      case 4 => 0x6EA20894 case 5 => 0x70264672 case 6 => 0x706C009C case 7 => 0x726BD44F
      case 8 => 0x72F8C363 case 9 => 0x73D75505 case 10 => 0x76519D14 case 11 => 0x78DBBF53
      case 12 => 0x7A930980 case 13 => 0x7ABEE100 case 14 => 0x7C881299 case _ => 0x7D41E32F)
    case 7 => (
      match m & 15
      case 0 => 0x7D9A7920 case 1 => 0x7EDA226F case 2 => 0x800000A8 case 3 => 0x80665F8A
      case 4 => 0x82C48D5C case 5 => 0x82DF353B case 6 => 0x860EBF26 case 7 => 0x8AF85291
      case 8 => 0x8E03CE75 case 9 => 0x91C77F78 case 10 => 0x93902068 case 11 => 0x93EDE934
      case 12 => 0x96851D43 case 13 => 0x97D5B53F case 14 => 0x98C53309 case _ => 0x99DED01A)
    case 8 => (
      match m & 15
      case 0 => 0x9A5D8249 case 1 => 0x9AC9F410 case 2 => 0x9CB93665 case 3 => 0x9E31E955
      case 4 => 0x9F577E31 case 5 => 0xA01E918C case 6 => 0xA184A928 case 7 => 0xA476D97A
      case 8 => 0xA6364A0B case 9 => 0xADC1687B case 10 => 0xAF385029 case 11 => 0xAFF54C8D
      case 12 => 0xB0E2F056 case 13 => 0xB3989D0A case 14 => 0xB410DE40 case _ => 0xB4B88A44)
    case 9 => (
      match m & 15
      case 0 => 0xB60CF035 case 1 => 0xB719BB79 case 2 => 0xBCFD5B27 case 3 => 0xBE959E3C
      case 4 => 0xBE98425D case 5 => 0xBFC92B8B case 6 => 0xC1373821 case 7 => 0xC15AF530
      case 8 => 0xC2A57401 case 9 => 0xC2B38081 case 10 => 0xC397DB54 case 11 => 0xC4D2CA15
      case 12 => 0xC611AE06 case 13 => 0xC6866564 case 14 => 0xCA67E10F case _ => 0xCB4F0D48)
    case 10 => (
      match m & 15
      case 0 => 0xCC49A919 case 1 => 0xCE7E6F08 case 2 => 0xCECEB617 case 3 => 0xD05C145F
      case 4 => 0xD05F633E case 5 => 0xD2D42646 case 6 => 0xD2FE3342 case 7 => 0xD677960D
      case 8 => 0xD82FDB33 case 9 => 0xD8D44967 case 10 => 0xD96D644B case 11 => 0xDC7AF777
      case 12 => 0xDD441093 case 13 => 0xE04C8C71 case 14 => 0xE0D8009B case _ => 0xE3F39574)
    case 11 => (
      match m & 15
      case 0 => 0xE4D7A84E case 1 => 0xE5F18662 case 2 => 0xE7AEAA04 case 3 => 0xEA04AD90
      case 4 => 0xECA33A13 case 5 => 0xF1B77E52 case 6 => 0xF3E97725 case 7 => 0xF526127F
      case 8 => 0xF9102498 case 9 => 0xFA4A633A case 10 => 0xFA7D135B case 11 => 0xFA83C62E
      case 12 => 0xFB34F21F case 13 => 0xFDB4446E case 14 => 0xFF38B789 case _ => 0xFFF409A7)
    case _ => 0
  }

  function SortedEntry(m: nat): bv32 {
    if m < 256 then SortedAt(ByteOf(m)) else 0
  }

  function SyndromeIn(entry: bv32): bv32 { entry >> 8 }

  function LowByte(entry: bv32): bv8 { (entry & 0xFF) as bv8 }

  function BitIn(entry: bv32): nat {
    NumberOf(LowByte(entry))
  }

  // ----- every entry pairs a bit with that bit's own syndrome

  ghost predicate Sound(entry: bv32) {
    BitIn(entry) < BITS && CrcSyndrome(BitIn(entry)) == SyndromeIn(entry)
  }

  lemma PairsAreSound(m: bv8)
    requires m < 192
    ensures LowByte(SortedAt(m)) < 192 && SyndromeAt(LowByte(SortedAt(m))) == SyndromeIn(SortedAt(m))
  {}

  lemma EntriesSound(m: nat)
    requires m < BITS
    ensures Sound(SortedEntry(m))
  {
    hide SortedAt, SyndromeAt, LowByte, SyndromeIn, ByteOf, NumberOf;
    NumberReturns(m);
    ByteReturns(ByteOf(m));
    PairsAreSound(ByteOf(m));
    ByteReturns(LowByte(SortedEntry(m)));
  }

  // ----- the entries ascend

  function Number(a: bv32): int { a as int }

  function FromNumber(n: int): bv32
    requires 0 <= n < 0x1_0000_0000
  {
    n as bv32
  }

  predicate Below(a: bv32, b: bv32) {
    Number(a) < Number(b)
  }

  lemma NumberRange(a: bv32)
    ensures 0 <= Number(a) < 0x1_0000_0000
  {}

  lemma WideReturns(a: bv32)
    requires 0 <= Number(a) < 0x1_0000_0000
    ensures FromNumber(Number(a)) == a
  {}

  lemma BelowOrder(a: bv32, b: bv32, c: bv32)
    ensures Below(a, b) && Below(b, c) ==> Below(a, c)
    ensures !Below(a, a)
    ensures Below(a, b) || a == b || Below(b, a)
  {
    hide Number, FromNumber;
    NumberRange(a);
    NumberRange(b);
    WideReturns(a);
    WideReturns(b);
  }

  lemma FirstHalfAscends(m: bv8)
    requires 0 < m < 96
    ensures Below(SyndromeIn(SortedAt(m - 1)), SyndromeIn(SortedAt(m)))
  {
    match m >> 4 {
      case 0 => match m & 15 { case 0 => case 1 => case 2 => case 3 => case 4 => case 5 => case 6 => case 7 => case 8 => case 9 => case 10 => case 11 => case 12 => case 13 => case 14 => case 15 => case _ => }
      case 1 => match m & 15 { case 0 => case 1 => case 2 => case 3 => case 4 => case 5 => case 6 => case 7 => case 8 => case 9 => case 10 => case 11 => case 12 => case 13 => case 14 => case 15 => case _ => }
      case 2 => match m & 15 { case 0 => case 1 => case 2 => case 3 => case 4 => case 5 => case 6 => case 7 => case 8 => case 9 => case 10 => case 11 => case 12 => case 13 => case 14 => case 15 => case _ => }
      case 3 => match m & 15 { case 0 => case 1 => case 2 => case 3 => case 4 => case 5 => case 6 => case 7 => case 8 => case 9 => case 10 => case 11 => case 12 => case 13 => case 14 => case 15 => case _ => }
      case 4 => match m & 15 { case 0 => case 1 => case 2 => case 3 => case 4 => case 5 => case 6 => case 7 => case 8 => case 9 => case 10 => case 11 => case 12 => case 13 => case 14 => case 15 => case _ => }
      case 5 => match m & 15 { case 0 => case 1 => case 2 => case 3 => case 4 => case 5 => case 6 => case 7 => case 8 => case 9 => case 10 => case 11 => case 12 => case 13 => case 14 => case 15 => case _ => }
      case _ =>
    }
  }

  lemma SecondHalfAscends(m: bv8)
    requires 96 <= m < 192
    ensures Below(SyndromeIn(SortedAt(m - 1)), SyndromeIn(SortedAt(m)))
  {
    match m >> 4 {
      case 6 => match m & 15 { case 0 => case 1 => case 2 => case 3 => case 4 => case 5 => case 6 => case 7 => case 8 => case 9 => case 10 => case 11 => case 12 => case 13 => case 14 => case 15 => case _ => }
      case 7 => match m & 15 { case 0 => case 1 => case 2 => case 3 => case 4 => case 5 => case 6 => case 7 => case 8 => case 9 => case 10 => case 11 => case 12 => case 13 => case 14 => case 15 => case _ => }
      case 8 => match m & 15 { case 0 => case 1 => case 2 => case 3 => case 4 => case 5 => case 6 => case 7 => case 8 => case 9 => case 10 => case 11 => case 12 => case 13 => case 14 => case 15 => case _ => }
      case 9 => match m & 15 { case 0 => case 1 => case 2 => case 3 => case 4 => case 5 => case 6 => case 7 => case 8 => case 9 => case 10 => case 11 => case 12 => case 13 => case 14 => case 15 => case _ => }
      case 10 => match m & 15 { case 0 => case 1 => case 2 => case 3 => case 4 => case 5 => case 6 => case 7 => case 8 => case 9 => case 10 => case 11 => case 12 => case 13 => case 14 => case 15 => case _ => }
      case 11 => match m & 15 { case 0 => case 1 => case 2 => case 3 => case 4 => case 5 => case 6 => case 7 => case 8 => case 9 => case 10 => case 11 => case 12 => case 13 => case 14 => case 15 => case _ => }
      case _ =>
    }
  }

  function EntrySyndrome(m: nat): bv32 {
    SyndromeIn(SortedEntry(m))
  }

  lemma EntriesAscend(m: nat)
    requires m + 1 < BITS
    ensures Below(EntrySyndrome(m), EntrySyndrome(m + 1))
  {
    hide SortedAt, SyndromeIn, Below, ByteOf, NumberOf;
    var b := ByteOf(m + 1);
    NumberReturns(m + 1);
    ByteReturns(b);
    if b < 96 { FirstHalfAscends(b); } else { SecondHalfAscends(b); }
  }

  lemma {:induction false} EntriesOrdered(i: nat, j: nat)
    requires i < j < BITS
    ensures Below(EntrySyndrome(i), EntrySyndrome(j))
  {
    hide EntrySyndrome, Below;
    EntriesAscend(j - 1);
    if i < j - 1 {
      EntriesOrdered(i, j - 1);
      BelowOrder(EntrySyndrome(i), EntrySyndrome(j - 1), EntrySyndrome(j));
    }
  }

  // Every bit is in the table.
  lemma EveryBitHasEntry(bit: nat)
    requires bit < BITS
    ensures exists m: nat :: m < BITS && BitIn(SortedEntry(m)) == bit && EntrySyndrome(m) == CrcSyndrome(bit)
  {
    hide SortedEntry, BitIn, SyndromeIn, CrcSyndrome, Below;
    forall m: nat | m < BITS ensures Sound(SortedEntry(m)) {
      EntriesSound(m);
    }
    var bits := seq(BITS, (m: nat) => BitIn(SortedEntry(m)));
    forall i, j | 0 <= i < j < BITS ensures bits[i] != bits[j] {
      EntriesOrdered(i, j);
      BelowOrder(EntrySyndrome(i), EntrySyndrome(j), EntrySyndrome(j));
    }
    Covers(bits, bit);
    var m :| 0 <= m < BITS && bits[m] == bit;
  }

  lemma SyndromesDistinct(a: nat, b: nat)
    requires a < BITS && b < BITS && CrcSyndrome(a) == CrcSyndrome(b)
    ensures a == b
  {
    hide SortedEntry, BitIn, CrcSyndrome, Below, EntrySyndrome;
    EveryBitHasEntry(a);
    EveryBitHasEntry(b);
    var i: nat :| i < BITS && BitIn(SortedEntry(i)) == a && EntrySyndrome(i) == CrcSyndrome(a);
    var j: nat :| j < BITS && BitIn(SortedEntry(j)) == b && EntrySyndrome(j) == CrcSyndrome(b);
    BelowOrder(EntrySyndrome(i), EntrySyndrome(j), EntrySyndrome(j));
    if i < j { EntriesOrdered(i, j); } else if j < i { EntriesOrdered(j, i); }
  }

  lemma SyndromeNonzero(bit: nat)
    requires bit < BITS
    ensures CrcSyndrome(bit) != 0
  {
    hide SortedEntry, BitIn, CrcSyndrome, Below, EntrySyndrome;
    FirstEntry();
    EveryBitHasEntry(bit);
    var m: nat :| m < BITS && BitIn(SortedEntry(m)) == bit && EntrySyndrome(m) == CrcSyndrome(bit);
    BelowOrder(0, EntrySyndrome(0), EntrySyndrome(m));
    BelowOrder(0, 0, 0);
    if 0 < m { EntriesOrdered(0, m); }
  }

  lemma FirstEntry()
    ensures Below(0, EntrySyndrome(0))
  {
    assert EntrySyndrome(0) == 1;
  }

  const NO_BIT: nat := 0xFF

  // The bit whose syndrome this is, or NO_BIT exactly when there is none.
  method FindCrcSyndrome(syndrome: bv32) returns (bit: nat)
    ensures bit == 0xFF || (bit < 192 && CrcSyndrome(bit) == syndrome)
    ensures bit == 0xFF ==> NoBitHas(syndrome)
  {
    hide SortedEntry, BitIn, SyndromeIn, CrcSyndrome, Below, NoBitHas;
    var low, high := 0, BITS;
    while true
      invariant 0 <= low < high <= BITS
      invariant forall m: nat :: m < low ==> Below(EntrySyndrome(m), syndrome)
      invariant forall m: nat :: high <= m < BITS ==> Below(syndrome, EntrySyndrome(m))
      decreases high - low
    {
      var middle := (low + high) / 2;
      var middleSyndrome := SyndromeIn(SortedEntry(middle));
      if syndrome == middleSyndrome {
        EntriesSound(middle);
        return BitIn(SortedEntry(middle));
      }
      if middle == low { break; }
      BelowOrder(syndrome, middleSyndrome, syndrome);
      if Below(syndrome, middleSyndrome) {
        AllAbove(syndrome, middle);
        high := middle;
      } else {
        AllBelow(syndrome, middle);
        low := middle;
      }
    }
    Absent(syndrome, low);
    bit := NO_BIT;
  }

  ghost predicate NoBitHas(syndrome: bv32) {
    forall b: nat :: b < BITS ==> CrcSyndrome(b) != syndrome
  }

  lemma AllAbove(syndrome: bv32, middle: nat)
    requires middle < BITS && Below(syndrome, EntrySyndrome(middle))
    ensures forall m: nat :: middle <= m < BITS ==> Below(syndrome, EntrySyndrome(m))
  {
    hide EntrySyndrome, Below;
    forall m: nat | middle <= m < BITS ensures Below(syndrome, EntrySyndrome(m)) {
      if middle < m {
        EntriesOrdered(middle, m);
        BelowOrder(syndrome, EntrySyndrome(middle), EntrySyndrome(m));
      }
    }
  }

  lemma AllBelow(syndrome: bv32, middle: nat)
    requires middle < BITS && Below(EntrySyndrome(middle), syndrome)
    ensures forall m: nat :: m < middle ==> Below(EntrySyndrome(m), syndrome)
  {
    hide EntrySyndrome, Below;
    forall m: nat | m < middle ensures Below(EntrySyndrome(m), syndrome) {
      EntriesOrdered(m, middle);
      BelowOrder(EntrySyndrome(m), EntrySyndrome(middle), syndrome);
    }
  }

  lemma Absent(syndrome: bv32, low: nat)
    requires low < BITS && EntrySyndrome(low) != syndrome
    requires forall m: nat :: m < low ==> Below(EntrySyndrome(m), syndrome)
    requires forall m: nat :: low < m < BITS ==> Below(syndrome, EntrySyndrome(m))
    ensures NoBitHas(syndrome)
  {
    hide SortedEntry, BitIn, EntrySyndrome, CrcSyndrome, Below;
    BelowOrder(syndrome, syndrome, syndrome);
    forall b: nat | b < BITS ensures CrcSyndrome(b) != syndrome {
      EveryBitHasEntry(b);
      var m: nat :| m < BITS && BitIn(SortedEntry(m)) == b && EntrySyndrome(m) == CrcSyndrome(b);
    }
  }
}
