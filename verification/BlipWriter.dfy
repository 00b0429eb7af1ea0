/** The two halves of the codec in scripts/blip_frames.py: put and head into a bytearray, and Reader. */
module BlipWriter {
  import opened SortedKeys
  import opened CborValues

  // ----- writing

  class Writer {
    var out: seq<Byte>

    constructor ()
      ensures out == []
    {
      out := [];
    }

    // head: the shortest of the four forms.
    method Head(major: nat, argument: nat) returns (ok: bool)
      requires major < 8
      modifies this
      ensures ok <==> argument <= ARGUMENT_CEILING
      ensures ok ==> out == old(out) + HeadBytes(major, argument)
    {
      hide BigEndian;
      if argument > ARGUMENT_CEILING {
        return false;
      }
      var widths, infos := [0, 1, 2, 4], [0, 24, 25, 26];
      for i := 0 to 4
        invariant out == old(out)
        invariant i > 0 ==> argument >= 24
        invariant i > 1 ==> argument >= 256
        invariant i > 2 ==> argument >= 65536
        invariant i < 4
      {
        var width, info := widths[i], infos[i];
        if width == 0 && argument < 24 {
          NoBytes(argument);
          out := out + [major * 32 + argument];
          return true;
        }
        if width > 0 && argument < Ceiling(width) {
          assert Ceiling(1) == 256;
          out := out + [major * 32 + info];
          out := out + BigEndian(argument, width);
          return true;
        }
        Ceilings();
      }
      assert false;
    }

    method PutInt(n: int) returns (ok: bool)
      modifies this
      ensures ok <==> IntFits(n)
      ensures ok ==> out == old(out) + IntBytes(n)
    {
      hide HeadBytes;
      if n >= 0 {
        ok := Head(UNSIGNED, n);
      } else {
        ok := Head(NEGATIVE, -1 - n);
      }
    }

    method PutString(major: nat, data: seq<Byte>) returns (ok: bool)
      requires major < 8
      modifies this
      ensures ok <==> |data| <= ARGUMENT_CEILING
      ensures ok ==> out == old(out) + (HeadBytes(major, |data|) + data)
    {
      hide HeadBytes;
      ok := Head(major, |data|);
      if ok { out := out + data; }
    }

    // put, for every value it has a case for.
    method Put(value: Value) returns (ok: bool)
      modifies this
      ensures ok <==> Fits(value)
      ensures ok ==> out == old(out) + Coded(value)
      decreases value, 1
    {
      hide HeadBytes, Sorted, ItemsCoded, EntriesCoded;
      match value
      case Bool(flag) =>
        out := out + [if flag then TRUE else FALSE];
        ok := true;
      case Int(n) =>
        ok := PutInt(n);
      case Text(data) =>
        ok := PutString(TEXT, data);
      case Bytes(data) =>
        ok := PutString(BYTES, data);
      case List(_) =>
        ok := PutList(value);
      case Dict(_) =>
        ok := PutDict(value);
    }

    method PutList(value: Value) returns (ok: bool)
      requires value.List?
      modifies this
      ensures ok <==> Fits(value)
      ensures ok ==> out == old(out) + Coded(value)
      decreases value, 0
    {
      hide HeadBytes;
      var items := value.items;
      ok := Head(ARRAY, |items|);
      if !ok { return; }
      for i := 0 to |items|
        invariant out == old(out) + (HeadBytes(ARRAY, |items|) + ItemsCoded(value, i))
        invariant forall j :: 0 <= j < i ==> Fits(items[j])
      {
        ok := Put(items[i]);
        if !ok { return; }
      }
    }

    method PutDict(value: Value) returns (ok: bool)
      requires value.Dict?
      modifies this
      ensures ok <==> Fits(value)
      ensures ok ==> out == old(out) + Coded(value)
      decreases value, 0, 2
    {
      hide HeadBytes, Sorted, EntriesTo, Fits, Coded, IntFits;
      var entries := value.entries;
      DictFits(value);
      ok := Head(MAP, |entries|);
      if !ok { return; }
      var keys := Sorted(entries.Keys);
      DictCoded(value, keys);
      ok := PutEntries(value, keys);
    }

    // Its loop, over the keys in order.
    method PutEntries(value: Value, keys: seq<int>) returns (ok: bool)
      requires HasKeys(value, keys)
      modifies this
      ensures ok <==> forall j :: 0 <= j < |keys| ==> IntFits(keys[j]) && Fits(value.entries[keys[j]])
      ensures ok ==> out == old(out) + EntriesTo(value, keys, |keys|)
      decreases value, 0, 1
    {
      hide EntriesTo, IntBytes, Fits, Coded, IntFits;
      ok := true;
      NoEntries(value, keys);
      for i := 0 to |keys|
        invariant ok && out == old(out) + EntriesTo(value, keys, i)
        invariant forall j :: 0 <= j < i ==> IntFits(keys[j]) && Fits(value.entries[keys[j]])
      {
        ok := PutEntry(value, keys[i]);
        if !ok { return; }
        OneMoreEntry(value, keys, i);
      }
    }

    // One turn of its loop: the key, then what it stands for.
    method PutEntry(value: Value, key: int) returns (ok: bool)
      requires value.Dict? && key in value.entries
      modifies this
      ensures ok <==> IntFits(key) && Fits(value.entries[key])
      ensures ok ==> out == old(out) + (IntBytes(key) + Coded(value.entries[key]))
      decreases value, 0, 0
    {
      hide IntBytes, Fits, Coded, IntFits;
      ok := PutInt(key);
      if !ok { return; }
      ok := Put(value.entries[key]);
    }
  }

  ghost function EntriesTo(v: Value, keys: seq<int>, i: nat): seq<Byte>
    requires HasKeys(v, keys) && i <= |keys|
  {
    EntriesCoded(v, keys[..i])
  }

  lemma NoEntries(v: Value, keys: seq<int>)
    requires HasKeys(v, keys)
    ensures EntriesTo(v, keys, 0) == []
  {}

  lemma OneMoreEntry(v: Value, keys: seq<int>, i: nat)
    requires HasKeys(v, keys) && i < |keys|
    ensures EntriesTo(v, keys, i + 1) == EntriesTo(v, keys, i) + (IntBytes(keys[i]) + Coded(v.entries[keys[i]]))
  {
    hide IntBytes, Coded;
    assert keys[..i + 1][..i] == keys[..i];
  }

  lemma DictFits(v: Value)
    requires v.Dict?
    ensures Fits(v) <==> |v.entries| <= ARGUMENT_CEILING && forall k :: k in v.entries ==> IntFits(k) && Fits(v.entries[k])
  {}

  lemma DictCoded(v: Value, keys: seq<int>)
    requires v.Dict? && keys == Sorted(v.entries.Keys)
    ensures HasKeys(v, keys) && Coded(v) == HeadBytes(MAP, |v.entries|) + EntriesTo(v, keys, |keys|)
  {
    hide HeadBytes, EntriesCoded;
    assert keys[..|keys|] == keys;
  }

  lemma NoBytes(argument: nat)
    ensures BigEndian(argument, 0) == []
  {}
}
