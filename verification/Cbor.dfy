/**
 The companion link's codec, scripts/blip_frames.py: a printer and a strict reader for the
 deterministic subset of CBOR the link speaks (RFC 8949, sections 3 and 4.2.1).  What the reader
 accepts is exactly what the printer writes for its result.
 */
module SortedKeys {

  predicate IsLeast(k: int, s: set<int>) {
    k in s && forall x :: x in s ==> k <= x
  }

  lemma HasElement(s: set<int>)
    ensures s == {} || exists y :: y in s
  {
    if forall y :: y !in s { assert s == {}; }
  }

  lemma LeastExists(s: set<int>)
    requires s != {}
    ensures exists k :: IsLeast(k, s)
  {
    HasElement(s);
    var y :| y in s;
    var t := s - {y};
    if t == {} {
      assert forall x :: x in s ==> x == y || x in t;
      assert IsLeast(y, s);
    } else {
      LeastExists(t);
      var k :| IsLeast(k, t);
      assert forall x :: x in s ==> x == y || x in t;
      assert IsLeast(if y < k then y else k, s);
    }
  }

  function Least(s: set<int>): (k: int)
    requires s != {}
    ensures IsLeast(k, s)
  {
    LeastExists(s);
    var k :| k in s && forall x :: x in s ==> k <= x;
    k
  }

  predicate Ascending(s: seq<int>) {
    forall i, j :: 0 <= i < j < |s| ==> s[i] < s[j]
  }

  function Sorted(s: set<int>): (r: seq<int>)
    ensures forall k :: k in r <==> k in s
    ensures Ascending(r) && |r| == |s|
  {
    if s == {} then [] else
      var k := Least(s);
      var rest := Sorted(s - {k});
      assert Ascending([k] + rest);
      [k] + rest
  }

  lemma {:induction false} SortedIsTheOnlyOne(s: set<int>, r: seq<int>)
    requires Ascending(r) && forall k :: k in r <==> k in s
    ensures r == Sorted(s)
  {
    if s == {} {
      assert forall k :: k !in r;
    } else {
      var k := Least(s);
      assert r[0] in s;
      var i :| 0 <= i < |r| && r[i] == k;
      assert i == 0;
      forall x ensures x in r[1..] <==> x in s - {k} {
        if x in s - {k} { var j :| 0 <= j < |r| && r[j] == x; assert r[1..][j - 1] == x; }
      }
      SortedIsTheOnlyOne(s - {k}, r[1..]);
    }
  }
}

module CborValues {
  import opened SortedKeys

  type Byte = x: int | 0 <= x < 256

  // Text is held as its UTF-8 bytes.
  type Utf8 = s: seq<Byte> | IsUtf8(s) witness []

  datatype Value =
    | Bool(flag: bool)
    | Int(number: int)
    | Text(text: Utf8)
    | Bytes(bytes: seq<Byte>)
    | List(items: seq<Value>)
    | Dict(entries: map<int, Value>)

  const UNSIGNED: nat := 0
  const NEGATIVE: nat := 1
  const BYTES: nat := 2
  const TEXT: nat := 3
  const ARRAY: nat := 4
  const MAP: nat := 5
  const SIMPLE: nat := 7
  const FALSE: Byte := 0xF4
  const TRUE: Byte := 0xF5
  const ARGUMENT_CEILING: int := 0xFFFF_FFFF

  // ----- UTF-8, as RFC 3629 section 4 writes it

  predicate IsTail(s: seq<Byte>, low: int, high: int) {
    |s| > 0 && low <= s[0] <= high
  }

  predicate IsUtf8(s: seq<Byte>)
    decreases |s|
  {
    if |s| == 0 then true
    else if s[0] < 0x80 then IsUtf8(s[1..])
    else if 0xC2 <= s[0] <= 0xDF then IsTail(s[1..], 0x80, 0xBF) && IsUtf8(s[2..])
    else if 0xE0 <= s[0] <= 0xEF then
      && IsTail(s[1..], if s[0] == 0xE0 then 0xA0 else 0x80, if s[0] == 0xED then 0x9F else 0xBF)
      && IsTail(s[2..], 0x80, 0xBF) && IsUtf8(s[3..])
    else if 0xF0 <= s[0] <= 0xF4 then
      && IsTail(s[1..], if s[0] == 0xF0 then 0x90 else 0x80, if s[0] == 0xF4 then 0x8F else 0xBF)
      && IsTail(s[2..], 0x80, 0xBF) && IsTail(s[3..], 0x80, 0xBF) && IsUtf8(s[4..])
    else false
  }

  // ----- heads

  function BigEndian(a: nat, width: nat): (s: seq<Byte>)
    ensures |s| == width
  {
    if width == 0 then [] else BigEndian(a / 256, width - 1) + [a % 256]
  }

  function Number(s: seq<Byte>): nat {
    if |s| == 0 then 0 else Number(s[..|s| - 1]) * 256 + s[|s| - 1]
  }

  function Ceiling(width: nat): nat {
    if width == 0 then 1 else Ceiling(width - 1) * 256
  }

  lemma Ceilings()
    ensures Ceiling(0) == 1 && Ceiling(1) == 256 && Ceiling(2) == 65536 && Ceiling(4) == 0x1_0000_0000
  {
    assert Ceiling(2) == 65536;
    assert Ceiling(3) == 0x1000000;
  }

  lemma {:induction false} NumberReturns(a: nat, width: nat)
    requires a < Ceiling(width)
    ensures Number(BigEndian(a, width)) == a
  {
    if width > 0 {
      NumberReturns(a / 256, width - 1);
      assert BigEndian(a, width)[..width - 1] == BigEndian(a / 256, width - 1);
    }
  }

  lemma {:induction false} BigEndianReturns(s: seq<Byte>)
    ensures Number(s) < Ceiling(|s|)
    ensures BigEndian(Number(s), |s|) == s
  {
    if |s| > 0 {
      var front := s[..|s| - 1];
      BigEndianReturns(front);
      assert Number(s) / 256 == Number(front) && Number(s) % 256 == s[|s| - 1];
      assert s == front + [s[|s| - 1]];
    }
  }

  function Info(argument: nat): (info: nat)
    ensures info <= 26
  {
    if argument < 24 then argument else if argument < 256 then 24 else if argument < 65536 then 25 else 26
  }

  function Width(info: nat): nat {
    if info < 24 then 0 else if info == 24 then 1 else if info == 25 then 2 else 4
  }

  // The shortest head for an argument.
  function HeadBytes(major: nat, argument: nat): (s: seq<Byte>)
    requires major < 8
    ensures |s| == 1 + Width(Info(argument))
  {
    [major * 32 + Info(argument)] + BigEndian(argument, Width(Info(argument)))
  }

  lemma HeadReturns(major: nat, argument: nat)
    requires major < 8 && argument <= ARGUMENT_CEILING
    ensures var s := HeadBytes(major, argument);
      && s[0] / 32 == major && s[0] % 32 == Info(argument)
      && Number(s[1..]) == if argument < 24 then 0 else argument
  {
    var w := Width(Info(argument));
    Ceilings();
    assert HeadBytes(major, argument)[1..] == BigEndian(argument, w);
    if argument >= 24 { NumberReturns(argument, w); }
  }

  lemma HeadsArePrefixFree(m: nat, a: nat, n: nat, b: nat, s: seq<Byte>)
    requires m < 8 && n < 8 && a <= ARGUMENT_CEILING && b <= ARGUMENT_CEILING
    requires HeadBytes(m, a) <= s && HeadBytes(n, b) <= s
    ensures m == n && a == b
  {
    hide HeadBytes, BigEndian, Number;
    HeadReturns(m, a);
    HeadReturns(n, b);
    assert HeadBytes(m, a)[0] == s[0] == HeadBytes(n, b)[0];
    assert Info(a) == Info(b);
    assert HeadBytes(m, a) == s[..1 + Width(Info(a))] == HeadBytes(n, b);
  }

  // ----- what the printer writes

  // Everything the printer puts in a head is within 32 bits.
  ghost predicate Fits(v: Value) {
    match v
    case Bool(_) => true
    case Int(n) => IntFits(n)
    case Text(t) => |t| <= ARGUMENT_CEILING
    case Bytes(b) => |b| <= ARGUMENT_CEILING
    case List(s) => |s| <= ARGUMENT_CEILING && forall x :: x in s ==> Fits(x)
    case Dict(m) => |m| <= ARGUMENT_CEILING && forall k :: k in m ==> IntFits(k) && Fits(m[k])
  }

  ghost predicate IntFits(n: int) {
    -1 - ARGUMENT_CEILING <= n <= ARGUMENT_CEILING
  }

  function IntBytes(n: int): (s: seq<Byte>)
    ensures |s| >= 1
  {
    if n >= 0 then HeadBytes(UNSIGNED, n) else HeadBytes(NEGATIVE, -1 - n)
  }

  ghost function Coded(v: Value): (s: seq<Byte>)
    ensures |s| >= 1
    decreases v, 1, 0
  {
    match v
    case Bool(flag) => [if flag then TRUE else FALSE]
    case Int(n) => IntBytes(n)
    case Text(t) => HeadBytes(TEXT, |t|) + t
    case Bytes(b) => HeadBytes(BYTES, |b|) + b
    case List(s) => HeadBytes(ARRAY, |s|) + ItemsCoded(v, |s|)
    case Dict(m) => HeadBytes(MAP, |m|) + EntriesCoded(v, Sorted(m.Keys))
  }

  ghost function ItemsCoded(v: Value, n: nat): seq<Byte>
    requires v.List? && n <= |v.items|
    decreases v, 0, n
  {
    if n == 0 then [] else ItemsCoded(v, n - 1) + Coded(v.items[n - 1])
  }

  ghost predicate HasKeys(v: Value, keys: seq<int>) {
    v.Dict? && forall k :: k in keys ==> k in v.entries
  }

  ghost function EntriesCoded(v: Value, keys: seq<int>): (s: seq<Byte>)
    requires HasKeys(v, keys)
    ensures |s| >= |keys|
    decreases v, 0, |keys|
  {
    if |keys| == 0 then [] else
      var n := |keys| - 1;
      EntriesCoded(v, keys[..n]) + EntryCoded(keys[n], Coded(v.entries[keys[n]]))
  }

  ghost function EntryCoded(key: int, value: seq<Byte>): (s: seq<Byte>)
    ensures |s| >= 1
  {
    IntBytes(key) + value
  }

  // ----- no value's bytes begin another's

  ghost function Major(v: Value): nat {
    match v
    case Bool(_) => SIMPLE
    case Int(n) => if n >= 0 then UNSIGNED else NEGATIVE
    case Text(_) => TEXT
    case Bytes(_) => BYTES
    case List(_) => ARRAY
    case Dict(_) => MAP
  }

  lemma FirstByte(v: Value)
    requires Fits(v)
    ensures Coded(v)[0] / 32 == Major(v)
  {
    hide HeadBytes, Number;
    match v
    case Bool(_) =>
    case Int(n) => HeadReturns(Major(v), if n >= 0 then n else -1 - n);
    case Text(t) => HeadReturns(TEXT, |t|);
    case Bytes(b) => HeadReturns(BYTES, |b|);
    case List(s) => HeadReturns(ARRAY, |s|);
    case Dict(m) => HeadReturns(MAP, |m|);
  }

  lemma IntsArePrefixFree(m: int, n: int, s: seq<Byte>)
    requires IntFits(m) && IntFits(n) && IntBytes(m) <= s && IntBytes(n) <= s
    ensures m == n
  {
    hide HeadBytes;
    HeadsArePrefixFree(if m >= 0 then UNSIGNED else NEGATIVE, if m >= 0 then m else -1 - m,
      if n >= 0 then UNSIGNED else NEGATIVE, if n >= 0 then n else -1 - n, s);
  }

  lemma PrefixFront(a: seq<Byte>, b: seq<Byte>, s: seq<Byte>)
    requires a + b <= s
    ensures a <= s && b <= s[|a|..]
  {
    assert (a + b)[|a|..] == b && (a + b)[..|a|] == a;
    assert s[..|a + b|] == a + b;
    assert s[|a|..][..|b|] == b;
  }

  lemma PrefixJoin(a: seq<Byte>, b: seq<Byte>, s: seq<Byte>)
    requires a <= s && b <= s[|a|..]
    ensures a + b <= s
  {
    assert s == a + s[|a|..];
  }

  lemma {:induction false} PrefixFree(v: Value, w: Value, s: seq<Byte>)
    requires Fits(v) && Fits(w) && Coded(v) <= s && Coded(w) <= s
    ensures v == w
    decreases v, 2, 0
  {
    hide HeadBytes, IntBytes, Sorted;
    FirstByte(v);
    FirstByte(w);
    assert Coded(v)[0] == s[0] == Coded(w)[0];
    match v
    case Bool(_) =>
    case Int(m) => IntsArePrefixFree(m, w.number, s);
    case Text(t) => StringsArePrefixFree(TEXT, t, w.text, s);
    case Bytes(b) => StringsArePrefixFree(BYTES, b, w.bytes, s);
    case List(_) => ListsArePrefixFree(v, w, s);
    case Dict(_) => DictsArePrefixFree(v, w, s);
  }

  lemma ListsArePrefixFree(v: Value, w: Value, s: seq<Byte>)
    requires v.List? && w.List? && Fits(v) && Fits(w) && Coded(v) <= s && Coded(w) <= s
    ensures v == w
    decreases v, 1, 0
  {
    hide HeadBytes, ItemsCoded;
    var n := |v.items|;
    PrefixFront(HeadBytes(ARRAY, n), ItemsCoded(v, n), s);
    PrefixFront(HeadBytes(ARRAY, |w.items|), ItemsCoded(w, |w.items|), s);
    HeadsArePrefixFree(ARRAY, n, ARRAY, |w.items|, s);
    ItemsArePrefixFree(v, w, n, s[|HeadBytes(ARRAY, n)|..]);
    assert v.items[..n] == v.items && w.items[..n] == w.items;
  }

  lemma DictsArePrefixFree(v: Value, w: Value, s: seq<Byte>)
    requires v.Dict? && w.Dict? && Fits(v) && Fits(w) && Coded(v) <= s && Coded(w) <= s
    ensures v == w
    decreases v, 1, 0
  {
    hide HeadBytes, EntriesCoded, Sorted;
    var n := |v.entries|;
    var p, q := Sorted(v.entries.Keys), Sorted(w.entries.Keys);
    PrefixFront(HeadBytes(MAP, n), EntriesCoded(v, p), s);
    PrefixFront(HeadBytes(MAP, |w.entries|), EntriesCoded(w, q), s);
    HeadsArePrefixFree(MAP, n, MAP, |w.entries|, s);
    assert |p| == n && |q| == |w.entries|;
    EntriesArePrefixFree(v, w, p, q, s[|HeadBytes(MAP, n)|..]);
    assert forall k :: k in v.entries.Keys <==> k in p;
    assert forall k :: k in w.entries.Keys <==> k in p;
    assert v.entries == w.entries;
  }

  lemma StringsArePrefixFree(major: nat, a: seq<Byte>, b: seq<Byte>, s: seq<Byte>)
    requires major < 8 && |a| <= ARGUMENT_CEILING && |b| <= ARGUMENT_CEILING
    requires HeadBytes(major, |a|) + a <= s && HeadBytes(major, |b|) + b <= s
    ensures a == b
  {
    hide HeadBytes;
    PrefixFront(HeadBytes(major, |a|), a, s);
    PrefixFront(HeadBytes(major, |b|), b, s);
    HeadsArePrefixFree(major, |a|, major, |b|, s);
  }

  lemma {:induction false} ItemsArePrefixFree(v: Value, w: Value, n: nat, s: seq<Byte>)
    requires v.List? && w.List? && n <= |v.items| && n <= |w.items| && Fits(v) && Fits(w)
    requires ItemsCoded(v, n) <= s && ItemsCoded(w, n) <= s
    ensures v.items[..n] == w.items[..n]
    decreases v, 0, n
  {
    if n > 0 {
      hide *;
      var a := LastItem(v, n, s);
      var b := LastItem(w, n, s);
      ItemsArePrefixFree(v, w, n - 1, s);
      ItemsAgree(v, w, n - 1);
      PrefixFree(v.items[n - 1], w.items[n - 1], s[|a|..]);
      OneMoreItem(v.items, w.items, n);
    }
  }

  lemma LastItem(v: Value, n: nat, s: seq<Byte>) returns (a: seq<Byte>)
    requires v.List? && 0 < n <= |v.items| && Fits(v) && ItemsCoded(v, n) <= s
    ensures a == ItemsCoded(v, n - 1) <= s && Fits(v.items[n - 1]) && Coded(v.items[n - 1]) <= s[|a|..]
  {
    hide Coded;
    ItemFits(v, n - 1);
    hide Fits;
    a := ItemsCoded(v, n - 1);
    PrefixFront(a, Coded(v.items[n - 1]), s);
  }

  lemma OneMoreItem(p: seq<Value>, q: seq<Value>, n: nat)
    requires 0 < n <= |p| && n <= |q| && p[..n - 1] == q[..n - 1] && p[n - 1] == q[n - 1]
    ensures p[..n] == q[..n]
  {
    assert p[..n] == p[..n - 1] + [p[n - 1]] && q[..n] == q[..n - 1] + [q[n - 1]];
  }

  lemma ItemFits(v: Value, i: nat)
    requires v.List? && i < |v.items| && Fits(v)
    ensures Fits(v.items[i])
  {}

  lemma {:induction false} ItemsAgree(v: Value, w: Value, n: nat)
    requires v.List? && w.List? && n <= |v.items| && n <= |w.items| && v.items[..n] == w.items[..n]
    ensures ItemsCoded(v, n) == ItemsCoded(w, n)
  {
    if n > 0 {
      assert v.items[..n - 1] == v.items[..n][..n - 1] == w.items[..n - 1];
      assert v.items[n - 1] == v.items[..n][n - 1] == w.items[n - 1];
      ItemsAgree(v, w, n - 1);
    }
  }

  ghost predicate SameEntries(v: Value, w: Value, keys: seq<int>) {
    HasKeys(v, keys) && HasKeys(w, keys) && forall k :: k in keys ==> v.entries[k] == w.entries[k]
  }

  lemma OneMoreSame(v: Value, w: Value, p: seq<int>, q: seq<int>)
    requires |p| == |q| > 0 && HasKeys(v, p) && HasKeys(w, q)
    requires var n := |p| - 1;
      p[..n] == q[..n] && SameEntries(v, w, p[..n]) && p[n] == q[n] && v.entries[p[n]] == w.entries[p[n]]
    ensures p == q && SameEntries(v, w, p)
  {
    var n := |p| - 1;
    assert p == p[..n] + [p[n]] && q == q[..n] + [q[n]];
  }

  lemma {:induction false} EntriesArePrefixFree(v: Value, w: Value, p: seq<int>, q: seq<int>, s: seq<Byte>)
    requires HasKeys(v, p) && HasKeys(w, q) && Fits(v) && Fits(w) && |p| == |q|
    requires EntriesCoded(v, p) <= s && EntriesCoded(w, q) <= s
    ensures p == q && SameEntries(v, w, p)
    decreases v, 0, |p|
  {
    hide *;
    if |p| == 0 {
      NoneToCompare(v, w, p, q);
    } else {
      var n := |p| - 1;
      var a := LastEntry(v, p, s);
      var b := LastEntry(w, q, s);
      EntriesArePrefixFree(v, w, p[..n], q[..n], s);
      EntriesAgree(v, w, p[..n]);
      EntryIsPrefixFree(p[n], v.entries[p[n]], q[n], w.entries[q[n]], s[|a|..]);
      OneMoreSame(v, w, p, q);
    }
  }

  lemma NoneToCompare(v: Value, w: Value, p: seq<int>, q: seq<int>)
    requires |p| == |q| == 0 && HasKeys(v, p) && HasKeys(w, q)
    ensures p == q && SameEntries(v, w, p)
  {}

  lemma LastEntry(v: Value, p: seq<int>, s: seq<Byte>) returns (a: seq<Byte>)
    requires HasKeys(v, p) && Fits(v) && |p| > 0 && EntriesCoded(v, p) <= s
    ensures var n := |p| - 1;
      && v.Dict? && HasKeys(v, p[..n]) && p[n] in v.entries && IntFits(p[n]) && Fits(v.entries[p[n]])
      && a == EntriesCoded(v, p[..n]) <= s && EntryCoded(p[n], Coded(v.entries[p[n]])) <= s[|a|..]
  {
    hide IntBytes, Coded, EntryCoded;
    var n := |p| - 1;
    a := EntriesCoded(v, p[..n]);
    PrefixFront(a, EntryCoded(p[n], Coded(v.entries[p[n]])), s);
  }

  lemma EntryIsPrefixFree(j: int, x: Value, k: int, y: Value, s: seq<Byte>)
    requires IntFits(j) && IntFits(k) && Fits(x) && Fits(y)
    requires EntryCoded(j, Coded(x)) <= s && EntryCoded(k, Coded(y)) <= s
    ensures j == k && x == y
    decreases x, 3, 0
  {
    hide IntBytes, Coded, Fits, IntFits;
    PrefixFront(IntBytes(j), Coded(x), s);
    PrefixFront(IntBytes(k), Coded(y), s);
    IntsArePrefixFree(j, k, s);
    PrefixFree(x, y, s[|IntBytes(j)|..]);
  }

  lemma {:induction false} EntriesAgree(v: Value, w: Value, keys: seq<int>)
    requires SameEntries(v, w, keys)
    ensures EntriesCoded(v, keys) == EntriesCoded(w, keys)
  {
    if |keys| > 0 {
      EntriesAgree(v, w, keys[..|keys| - 1]);
    }
  }

  // ----- the grammar

  ghost predicate IsUnsigned(v: Value) {
    v.Int? && 0 <= v.number <= ARGUMENT_CEILING
  }

  // What a frame may hold: nothing nested but arrays of unsigned integers.
  ghost predicate IsFrameValue(v: Value) {
    match v
    case List(s) => |s| <= ARGUMENT_CEILING && forall x :: x in s ==> IsUnsigned(x)
    case Dict(_) => false
    case _ => Fits(v)
  }

  ghost predicate IsFrame(v: Value) {
    v.Dict? && |v.entries| <= ARGUMENT_CEILING
    && forall k :: k in v.entries ==> 0 <= k <= ARGUMENT_CEILING && IsFrameValue(v.entries[k])
  }

  // Two values print alike only if they are one value, so bytes mean at most one frame.
  lemma CodedIsOneToOne(v: Value, w: Value)
    requires Fits(v) && Fits(w)
    ensures Coded(v) == Coded(w) <==> v == w
  {
    if Coded(v) == Coded(w) {
      PrefixFree(v, w, Coded(v));
    }
  }

  // Of all the values the printer takes, only frames print as frames.
  lemma OnlyFramesPrintAsFrames(v: Value)
    requires Fits(v)
    ensures (exists f :: IsFrame(f) && Coded(f) == Coded(v)) <==> IsFrame(v)
  {
    forall f | IsFrame(f) && Coded(f) == Coded(v) ensures f == v {
      CodedIsOneToOne(f, v);
    }
  }
}
