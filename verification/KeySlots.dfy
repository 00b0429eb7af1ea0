/**
 KeySlots of firmware/core/identity: four seeds' worth of words that can each be written once, and
 a supply that may fail between any two of the writes.
 */
module KeySlots {
  import opened WordBytes

  datatype Option<T> = None | Some(value: T)

  datatype Fill = Blank | Torn | Complete

  const SLOTS: nat := 4
  const WORDS_PER_SLOT: nat := 8
  const WORDS: nat := 32
  const SEED_BYTES: nat := 32
  const DRAWS_PER_SLOT: nat := 4
  const ERASED: bv32 := 0xFFFFFFFF

  type Seed = s: seq<bv8> | |s| == SEED_BYTES witness seq(SEED_BYTES, _ => 0)

  type Words = w: seq<bv32> | |w| == WORDS witness seq(WORDS, _ => 0)

  function WordOf(seed: Seed, i: nat): bv32
    requires i < WORDS_PER_SLOT
  {
    Word(seed[4 * i], seed[4 * i + 1], seed[4 * i + 2], seed[4 * i + 3])
  }

  predicate IsErased(w: bv32) {
    w == ERASED
  }

  lemma ErasedIs(w: bv32)
    ensures IsErased(w) <==> w == 0xFFFF_FFFF
  {}

  // Word i of a slot.
  function Slotted(words: Words, slot: nat, i: nat): bv32
    requires slot < SLOTS && i < WORDS_PER_SLOT
  {
    words[slot * WORDS_PER_SLOT + i]
  }

  ghost predicate IsBlank(words: Words, slot: nat)
    requires slot < SLOTS
  {
    forall i: nat :: i < WORDS_PER_SLOT ==> IsErased(Slotted(words, slot, i))
  }

  ghost predicate IsComplete(words: Words, slot: nat)
    requires slot < SLOTS
  {
    forall i: nat :: i < WORDS_PER_SLOT ==> !IsErased(Slotted(words, slot, i))
  }

  ghost function FillOf(words: Words, slot: nat): Fill
    requires slot < SLOTS
  {
    if IsBlank(words, slot) then Blank else if IsComplete(words, slot) then Complete else Torn
  }

  // The seed the words of a slot spell.
  function SeedIn(words: Words, slot: nat): Seed
    requires slot < SLOTS
  {
    seq(SEED_BYTES, k requires 0 <= k < SEED_BYTES => ByteOf(Slotted(words, slot, k / 4), k % 4))
  }

  ghost predicate IsStorable(seed: Seed) {
    forall i: nat :: i < WORDS_PER_SLOT ==> !IsErased(WordOf(seed, i))
  }

  // The words of a slot are some of the words of one seed.
  ghost predicate Holds(words: Words, slot: nat, seed: Seed)
    requires slot < SLOTS
  {
    forall i: nat :: i < WORDS_PER_SLOT ==>
      IsErased(Slotted(words, slot, i)) || Slotted(words, slot, i) == WordOf(seed, i)
  }

  lemma WholeSeed(words: Words, slot: nat, seed: Seed)
    requires slot < SLOTS && Holds(words, slot, seed) && IsComplete(words, slot)
    ensures SeedIn(words, slot) == seed
  {
    hide Word, ByteOf, IsErased;
    forall k | 0 <= k < SEED_BYTES ensures SeedIn(words, slot)[k] == seed[k] {
      var i := k / 4;
      assert k == 4 * i + k % 4;
      assert Slotted(words, slot, i) == WordOf(seed, i);
      BytesOfWord(seed[4 * i], seed[4 * i + 1], seed[4 * i + 2], seed[4 * i + 3]);
    }
  }

  // ----- the slots and their history

  ghost predicate IsFromADraw(words: Words, slot: nat, drawn: seq<Seed>)
    requires slot < SLOTS
  {
    exists seed :: seed in drawn && Holds(words, slot, seed)
  }

  // The first slots were written, each from one draw and none but the last of them whole; the
  // others are blank.
  ghost predicate Sound(words: Words, drawn: seq<Seed>, written: nat) {
    && written <= SLOTS
    && (forall slot: nat :: slot < SLOTS && slot >= written ==> IsBlank(words, slot))
    && (forall slot: nat :: slot < written ==> !IsBlank(words, slot) && IsFromADraw(words, slot, drawn))
    && (forall slot: nat :: slot + 1 < written ==> !IsComplete(words, slot))
  }

  // The slot a reader would take its seed from.
  ghost function Current(words: Words, written: nat): Option<nat>
    requires written <= SLOTS
  {
    if written > 0 && IsComplete(words, written - 1) then Some(written - 1) else None
  }

  // What provisioning, cut short anywhere, may do to the words.
  ghost predicate Grows(before: Words, after: Words, written: nat) {
    && (forall w: nat :: w < WORDS && !IsErased(before[w]) ==> after[w] == before[w])
    && (written <= SLOTS && Current(before, written).Some? ==> after == before)
  }

  lemma GrowsOn(before: Words, words: Words, after: Words, written: nat, begun: nat, drawn: seq<Seed>)
    requires Grows(before, words, written) && Grows(words, after, begun)
    requires Sound(words, drawn, begun) && (words == before ==> Sound(words, drawn, written))
    ensures Grows(before, after, written)
  {
    hide IsComplete, IsBlank, Holds, Sound;
    if written <= SLOTS && Current(before, written).Some? { SameWritten(words, drawn, begun, written); }
  }

  lemma SameWritten(words: Words, drawn: seq<Seed>, m: nat, n: nat)
    requires Sound(words, drawn, m) && Sound(words, drawn, n)
    ensures m == n
  {
    hide IsComplete, IsBlank, Holds;
    var k := if m < n then m else n;
    ghost var blank := if k < SLOTS then IsBlank(words, k) else false;
  }

  // Whatever is current was written whole from one draw.
  lemma CurrentIsOneDraw(words: Words, drawn: seq<Seed>, written: nat)
    requires Sound(words, drawn, written) && Current(words, written).Some?
    ensures SeedIn(words, written - 1) in drawn && FillOf(words, written - 1) == Complete
  {
    hide IsComplete, IsBlank, Holds;
    assert IsFromADraw(words, written - 1, drawn);
    var seed :| seed in drawn && Holds(words, written - 1, seed);
    WholeSeed(words, written - 1, seed);
  }

  // ----- the memory

  // What the supply, the flash, the reads and the draws will do from one boot to the next.
  datatype Boot = Boot(power: nat, takes: seq<bool>, readable: seq<bool>, draws: seq<Option<Seed>>)

  // The port: words that are written once, and what happens to each write, read and draw.  When the
  // supply fails nothing further happens until the next boot.
  class Memory {
    const words: array<bv32>
    var power: nat
    var failed: bool
    var takes: seq<bool>
    var readable: seq<bool>
    var draws: seq<Option<Seed>>
    ghost var drawn: seq<Seed>

    ghost predicate Valid() {
      words.Length == WORDS
    }

    ghost function Held(): Words
      reads this, words
      requires Valid()
    {
      words[..]
    }

    // Nothing goes wrong: every read works, every write takes, and the supply lasts for so many.
    ghost predicate IsReliable(writes: nat)
      reads this
    {
      |readable| == 0 && |takes| == 0 && !failed && power >= writes
    }

    constructor (power: nat, takes: seq<bool>, readable: seq<bool>, draws: seq<Option<Seed>>)
      ensures Valid() && fresh(words) && !failed && drawn == [] && Sound(Held(), drawn, 0)
    {
      words := new bv32[WORDS](_ => ERASED);
      this.power, this.takes, this.readable, this.draws := power, takes, readable, draws;
      failed, drawn := false, [];
    }

    // A boot: the supply is back, for so many writes, and the words are what they were.
    method Restart(boot: Boot)
      modifies this`power, this`failed, this`takes, this`readable, this`draws
      ensures power == boot.power && takes == boot.takes && readable == boot.readable && draws == boot.draws && !failed
    {
      power, takes, readable, draws, failed := boot.power, boot.takes, boot.readable, boot.draws, false;
    }

    method Read() returns (ok: bool, out: Words)
      requires Valid()
      modifies this`readable
      ensures ok ==> out == Held()
      ensures |old(readable)| == 0 ==> ok && |readable| == 0
    {
      ok := true;
      if |readable| > 0 {
        ok, readable := readable[0], readable[1..];
      }
      out := words[..];
    }

    // Only ever asked of an erased word; a write may be lost, or the supply with it.
    method Write(word: nat, value: bv32)
      requires Valid() && word < 32 && words[word] == 0xFFFF_FFFF
      modifies this`power, this`failed, this`takes, words
      ensures Held() == old(Held()) || Held() == old(Held())[word := value]
      ensures forall writes: nat :: old(IsReliable(writes + 1)) ==>
        IsReliable(writes) && Held() == old(Held())[word := value]
    {
      if failed || power == 0 {
        failed := true;
        return;
      }
      power := power - 1;
      var take := true;
      if |takes| > 0 {
        take, takes := takes[0], takes[1..];
      }
      if take {
        words[word] := value;
      }
    }

    method Draw() returns (seed: Option<Seed>)
      modifies this`draws, this`drawn
      ensures old(drawn) <= drawn && (seed.Some? ==> drawn == old(drawn) + [seed.value])
      ensures seed == if |old(draws)| > 0 then old(draws)[0] else None
      ensures draws == if |old(draws)| > 0 then old(draws)[1..] else old(draws)
    {
      seed := None;
      if |draws| > 0 {
        seed, draws := draws[0], draws[1..];
      }
      if seed.Some? {
        drawn := drawn + [seed.value];
      }
    }
  }

  // ----- reading the slots

  method FillIn(words: Words, slot: nat) returns (fill: Fill)
    requires slot < SLOTS
    ensures fill == FillOf(words, slot)
  {
    hide IsErased, Slotted;
    var erased := 0;
    for i := 0 to WORDS_PER_SLOT
      invariant erased <= i
      invariant erased == 0 <==> forall k: nat :: k < i ==> !IsErased(Slotted(words, slot, k))
      invariant erased == i <==> forall k: nat :: k < i ==> IsErased(Slotted(words, slot, k))
    {
      if IsErased(Slotted(words, slot, i)) {
        erased := erased + 1;
      }
    }
    if erased == WORDS_PER_SLOT {
      return Blank;
    }
    fill := if erased == 0 then Complete else Torn;
  }

  method CurrentIn(words: Words) returns (slot: Option<nat>)
    ensures slot.Some? ==> slot.value < SLOTS && IsComplete(words, slot.value)
    ensures slot.Some? ==> forall k: nat :: slot.value < k < SLOTS ==> !IsComplete(words, k)
    ensures slot == None ==> forall k: nat :: k < SLOTS ==> !IsComplete(words, k)
  {
    hide IsBlank, IsComplete;
    var s := SLOTS;
    while s > 0
      invariant s <= SLOTS && forall k: nat :: s <= k < SLOTS ==> !IsComplete(words, k)
    {
      s := s - 1;
      var fill := FillIn(words, s);
      BlankIsNotComplete(words, s);
      if fill == Complete {
        return Some(s);
      }
    }
    slot := None;
  }

  lemma BlankIsNotComplete(words: Words, slot: nat)
    requires slot < SLOTS
    ensures IsBlank(words, slot) ==> !IsComplete(words, slot)
  {
    if IsBlank(words, slot) { assert IsErased(Slotted(words, slot, 0)); }
  }

  // The first of the blank slots at the end.
  method NextBlank(words: Words) returns (slot: Option<nat>)
    ensures slot.Some? ==>
      && slot.value < SLOTS && (forall k: nat :: slot.value <= k < SLOTS ==> IsBlank(words, k))
      && (slot.value > 0 ==> !IsBlank(words, slot.value - 1))
    ensures slot == None ==> !IsBlank(words, SLOTS - 1)
  {
    hide IsBlank, IsComplete;
    var s: nat := SLOTS;
    while s > 0
      invariant s <= SLOTS && forall k: nat :: s <= k < SLOTS ==> IsBlank(words, k)
    {
      var fill := FillIn(words, s - 1);
      if fill != Blank {
        break;
      }
      s := s - 1;
    }
    if s == SLOTS {
      return None;
    }
    slot := Some(s);
  }

  method Storable(seed: Seed) returns (ok: bool)
    ensures ok == IsStorable(seed)
  {
    hide WordOf;
    for i := 0 to WORDS_PER_SLOT
      invariant forall k: nat :: k < i ==> !IsErased(WordOf(seed, k))
    {
      if IsErased(WordOf(seed, i)) {
        return false;
      }
    }
    ok := true;
  }

  // KeySlots::seed.
  method ReadSeed(memory: Memory, ghost written: nat) returns (seed: Option<Seed>)
    requires memory.Valid() && Sound(memory.Held(), memory.drawn, written)
    modifies memory`readable
    ensures seed.Some? ==> Current(memory.Held(), written).Some? && seed.value == SeedIn(memory.Held(), written - 1)
    ensures seed.Some? ==> seed.value in memory.drawn
    ensures |old(memory.readable)| == 0 ==> seed.Some? == Current(memory.Held(), written).Some?
  {
    hide IsComplete, IsBlank, IsFromADraw, SeedIn;
    var ok, words := memory.Read();
    if !ok {
      return None;
    }
    var slot := CurrentIn(words);
    if slot == None {
      NothingCurrent(words, memory.drawn, written);
      return None;
    }
    CurrentIsWritten(words, memory.drawn, written, slot.value);
    CurrentIsOneDraw(words, memory.drawn, written);
    seed := Some(SeedIn(words, slot.value));
  }

  lemma CurrentIsWritten(words: Words, drawn: seq<Seed>, written: nat, slot: nat)
    requires Sound(words, drawn, written) && slot < SLOTS && IsComplete(words, slot)
    ensures Current(words, written) == Some(slot) && slot == written - 1
  {
    hide IsComplete, IsBlank, IsFromADraw;
    BlankIsNotComplete(words, slot);
  }

  // ----- provisioning

  // KeySlots::provision.  Wherever the supply fails, the words are sound and none that was written
  // has changed; a slot it returns holds, whole, a seed one draw produced, and is the one a reader
  // takes; and where a seed was current already it touches nothing.
  method Provision(memory: Memory, ghost written: nat) returns (slot: Option<nat>, ghost after: nat)
    requires memory.Valid() && Sound(memory.Held(), memory.drawn, written)
    modifies memory, memory.words
    ensures Sound(memory.Held(), memory.drawn, after) && old(memory.drawn) <= memory.drawn
    ensures Grows(old(memory.Held()), memory.Held(), written)
    ensures slot.Some? ==> Current(memory.Held(), after) == slot && SeedIn(memory.Held(), slot.value) in memory.drawn
    ensures old(Current(memory.Held(), written)).Some? ==> slot == None || slot == old(Current(memory.Held(), written))
    ensures |old(memory.readable)| == 0 && old(Current(memory.Held(), written)).Some? ==> slot.Some?
    ensures old(WillStore(memory, written)) && old(Current(memory.Held(), written)) == None ==> slot == Some(written)
  {
    hide IsComplete, IsBlank, IsFromADraw, SeedIn, Grows, Sound;
    ghost var before := memory.Held();
    after := written;
    GrowsFromItself(before, written);
    var ok, words := memory.Read();
    if !ok {
      return None, after;
    }
    slot := CurrentIn(words);
    if slot.Some? {
      CurrentIsWritten(words, memory.drawn, written, slot.value);
      CurrentIsOneDraw(words, memory.drawn, written);
      return slot, after;
    }
    NothingCurrent(words, memory.drawn, written);
    var tried: int := -1;
    slot := NextBlank(words);
    if slot.Some? { BlankIsNext(words, memory.drawn, after, slot.value); }
    else { NoneLeft(words, memory.drawn, after); }
    while slot.Some? && slot.value > tried
      invariant memory.Valid() && Sound(memory.Held(), memory.drawn, after) && old(memory.drawn) <= memory.drawn
      invariant Grows(before, memory.Held(), written)
      invariant words == memory.Held() && -1 <= tried < SLOTS
      invariant written <= SLOTS && Current(before, written) == None
      invariant forall k: nat :: k < SLOTS ==> !IsComplete(words, k)
      invariant slot.Some? ==> slot.value == after < SLOTS
      invariant old(WillStore(memory, written)) ==> tried == -1 && slot == Some(written) && WillStore(memory, written)
      decreases SLOTS - tried
    {
      tried := slot.value;
      var stored;
      ok, stored, words, after := TrySlot(memory, slot.value, before, written);
      if !ok {
        return None, after;
      }
      if stored {
        return Some(tried), after;
      }
      slot := NextBlank(words);
      if slot.Some? { BlankIsNext(words, memory.drawn, after, slot.value); }
    }
    slot := None;
  }

  // One turn of provision's loop: a seed drawn, written, and read back.
  method TrySlot(memory: Memory, slot: nat, ghost before: Words, ghost written: nat)
    returns (ok: bool, stored: bool, words: Words, ghost after: nat)
    requires memory.Valid() && slot < SLOTS && Sound(memory.Held(), memory.drawn, slot)
    requires forall k: nat :: k < SLOTS ==> !IsComplete(memory.Held(), k)
    requires written <= SLOTS && Grows(before, memory.Held(), written) && Current(before, written) == None
    modifies memory, memory.words
    ensures Sound(memory.Held(), memory.drawn, after) && old(memory.drawn) <= memory.drawn
    ensures Grows(before, memory.Held(), written) && (ok ==> words == memory.Held()) && (stored ==> ok)
    ensures stored ==> Current(memory.Held(), after) == Some(slot) && SeedIn(memory.Held(), slot) in memory.drawn
    ensures ok && !stored ==> forall k: nat :: k < SLOTS ==> !IsComplete(memory.Held(), k)
    ensures old(WillStore(memory, slot)) ==> stored
  {
    hide IsComplete, IsBlank, IsFromADraw, SeedIn, Grows, Sound;
    words, stored, after := memory.words[..], false, slot;
    ghost var known, start := memory.drawn, memory.Held();
    var seed;
    ok, seed := DrawStorable(memory);
    MoreDrawn(start, known, memory.drawn, slot);
    if !ok {
      return;
    }
    after := WriteSlot(memory, seed, slot, before, written);
    ok, words := memory.Read();
    if !ok {
      return;
    }
    var fill := FillIn(words, slot);
    BlankIsNotComplete(words, slot);
    if IsComplete(words, slot) { WholeSeed(words, slot, seed); }
    stored := fill == Complete && SeedIn(words, slot) == seed;
    if stored {
      CurrentIsWritten(words, memory.drawn, after, slot);
    }
  }

  // Nothing will go wrong, a storable seed will be drawn, and there is a blank slot for it.
  ghost predicate WillStore(memory: Memory, written: nat)
    reads memory
  {
    memory.IsReliable(8) && WillDraw(memory.draws, 4) && written < 4
  }

  lemma NoneLeft(words: Words, drawn: seq<Seed>, written: nat)
    requires Sound(words, drawn, written) && !IsBlank(words, SLOTS - 1)
    ensures written == SLOTS
  {
    hide IsComplete, IsBlank, IsFromADraw;
  }

  // One of the next few draws is a seed that can be stored.
  ghost predicate WillDraw(draws: seq<Option<Seed>>, most: nat) {
    most > 0 && |draws| > 0 && ((draws[0].Some? && IsStorable(draws[0].value)) || WillDraw(draws[1..], most - 1))
  }

  method DrawStorable(memory: Memory) returns (ok: bool, seed: Seed)
    modifies memory`draws, memory`drawn
    ensures old(memory.drawn) <= memory.drawn
    ensures ok ==> seed in memory.drawn && IsStorable(seed)
    ensures ok == WillDraw(old(memory.draws), 4)
  {
    seed := seq(SEED_BYTES, _ => 0);
    ok := false;
    for draw := 0 to DRAWS_PER_SLOT
      invariant old(memory.drawn) <= memory.drawn
      invariant ok ==> seed in memory.drawn && IsStorable(seed)
      invariant ok ==> WillDraw(old(memory.draws), DRAWS_PER_SLOT)
      invariant !ok ==> WillDraw(old(memory.draws), DRAWS_PER_SLOT) == WillDraw(memory.draws, DRAWS_PER_SLOT - draw)
    {
      if !ok {
        var next := memory.Draw();
        if next.Some? {
          seed := next.value;
          ok := Storable(seed);
        }
      }
    }
  }

  // The eight writes of a slot, the supply failing after any of them.
  method WriteSlot(memory: Memory, seed: Seed, slot: nat, ghost before: Words, ghost written: nat) returns (ghost after: nat)
    requires memory.Valid() && slot < SLOTS && Sound(memory.Held(), memory.drawn, slot)
    requires forall k: nat :: k < SLOTS ==> !IsComplete(memory.Held(), k)
    requires seed in memory.drawn && IsStorable(seed)
    requires written <= SLOTS && Grows(before, memory.Held(), written) && Current(before, written) == None
    modifies memory`power, memory`failed, memory`takes, memory.words
    ensures Sound(memory.Held(), memory.drawn, after) && Grows(before, memory.Held(), written)
    ensures Holds(memory.Held(), slot, seed) && (IsComplete(memory.Held(), slot) ==> after == slot + 1)
    ensures old(memory.IsReliable(8)) ==> memory.IsReliable(0) && IsComplete(memory.Held(), slot)
    ensures forall k: nat :: k < SLOTS && k != slot ==> !IsComplete(memory.Held(), k)
  {
    hide IsComplete, IsFromADraw, SeedIn, Grows, Sound, WordOf, IsErased, Current;
    ghost var start := memory.Held();
    SoundIsBlank(start, memory.drawn, slot);
    for i := 0 to WORDS_PER_SLOT
      invariant memory.Valid() && IsWriting(start, memory.Held(), slot, seed, i)
      invariant old(memory.IsReliable(WORDS_PER_SLOT)) ==>
        memory.IsReliable(WORDS_PER_SLOT - i) && forall k: nat :: k < i ==> Slotted(memory.Held(), slot, k) == WordOf(seed, k)
    {
      assert IsErased(Slotted(start, slot, i)) && memory.Held()[slot * WORDS_PER_SLOT + i] == Slotted(start, slot, i);
      ErasedIs(Slotted(start, slot, i));
      memory.Write(slot * WORDS_PER_SLOT + i, WordOf(seed, i));
    }
    after := if IsBlank(memory.Held(), slot) then slot else slot + 1;
    WritingIsSound(start, memory.Held(), memory.drawn, slot, seed);
    WritingGrows(before, start, memory.Held(), written, slot, seed);
    BlankIsNotComplete(memory.Held(), slot);
    if old(memory.IsReliable(WORDS_PER_SLOT)) { AllWritten(memory.Held(), slot, seed); }
  }

  lemma AllWritten(words: Words, slot: nat, seed: Seed)
    requires slot < SLOTS && IsStorable(seed)
    requires forall k: nat :: k < WORDS_PER_SLOT ==> Slotted(words, slot, k) == WordOf(seed, k)
    ensures IsComplete(words, slot)
  {}

  // The first i words of the slot are written or erased, the rest of it erased, the rest as it was.
  ghost predicate IsWriting(start: Words, now: Words, slot: nat, seed: Seed, i: nat)
    requires slot < SLOTS
  {
    && (forall w: nat :: w < WORDS && !(slot * WORDS_PER_SLOT <= w < slot * WORDS_PER_SLOT + i) ==> now[w] == start[w])
    && (forall k: nat :: k < WORDS_PER_SLOT ==> IsErased(Slotted(start, slot, k)))
    && (forall k: nat :: k < i && k < WORDS_PER_SLOT ==>
          IsErased(Slotted(now, slot, k)) || Slotted(now, slot, k) == WordOf(seed, k))
  }

  lemma SoundIsBlank(words: Words, drawn: seq<Seed>, written: nat)
    requires Sound(words, drawn, written) && written < SLOTS
    ensures IsBlank(words, written)
  {
    hide IsComplete, IsFromADraw;
  }

  lemma WritingIsSound(start: Words, now: Words, drawn: seq<Seed>, slot: nat, seed: Seed)
    requires slot < SLOTS && Sound(start, drawn, slot) && IsWriting(start, now, slot, seed, WORDS_PER_SLOT)
    requires seed in drawn && forall k: nat :: k < SLOTS ==> !IsComplete(start, k)
    ensures Sound(now, drawn, if IsBlank(now, slot) then slot else slot + 1) && Holds(now, slot, seed)
    ensures forall k: nat :: k < SLOTS && k != slot ==> !IsComplete(now, k)
  {
    hide IsComplete, IsBlank, IsErased, IsFromADraw;
    forall k: nat | k < SLOTS && k != slot
      ensures IsBlank(now, k) == IsBlank(start, k) && !IsComplete(now, k)
      ensures IsFromADraw(start, k, drawn) ==> IsFromADraw(now, k, drawn)
    {
      OtherSlot(start, now, slot, k, seed, drawn);
    }
    assert Holds(now, slot, seed);
    ThisSlot(now, slot, seed, drawn);
  }

  lemma ThisSlot(words: Words, slot: nat, seed: Seed, drawn: seq<Seed>)
    requires slot < SLOTS && seed in drawn && Holds(words, slot, seed)
    ensures IsFromADraw(words, slot, drawn)
  {}

  lemma OtherSlot(start: Words, now: Words, slot: nat, k: nat, seed: Seed, drawn: seq<Seed>)
    requires slot < SLOTS && k < SLOTS && k != slot && IsWriting(start, now, slot, seed, WORDS_PER_SLOT)
    ensures IsBlank(now, k) == IsBlank(start, k) && IsComplete(now, k) == IsComplete(start, k)
    ensures IsFromADraw(start, k, drawn) ==> IsFromADraw(now, k, drawn)
  {
    hide IsErased, WordOf;
    forall i: nat | i < WORDS_PER_SLOT ensures Slotted(now, k, i) == Slotted(start, k, i) {}
    if IsFromADraw(start, k, drawn) {
      var other :| other in drawn && Holds(start, k, other);
      assert Holds(now, k, other);
    }
  }

  lemma WritingGrows(before: Words, start: Words, now: Words, written: nat, slot: nat, seed: Seed)
    requires slot < SLOTS && written <= SLOTS && Grows(before, start, written) && Current(before, written) == None
    requires IsWriting(start, now, slot, seed, WORDS_PER_SLOT)
    ensures Grows(before, now, written)
  {
    hide IsErased, WordOf, Current;
    forall w: nat | w < WORDS && !IsErased(before[w]) ensures now[w] == before[w] {
      if slot * WORDS_PER_SLOT <= w < slot * WORDS_PER_SLOT + WORDS_PER_SLOT {
        ghost var erased := IsErased(Slotted(start, slot, w - slot * WORDS_PER_SLOT));
      }
    }
  }

  lemma GrowsFromItself(words: Words, written: nat)
    ensures Grows(words, words, written)
  {}

  lemma NothingCurrent(words: Words, drawn: seq<Seed>, written: nat)
    requires Sound(words, drawn, written) && forall k: nat :: k < SLOTS ==> !IsComplete(words, k)
    ensures written <= SLOTS && Current(words, written) == None
  {
    hide IsComplete, IsBlank, IsFromADraw;
  }

  lemma BlankIsNext(words: Words, drawn: seq<Seed>, written: nat, slot: nat)
    requires Sound(words, drawn, written) && slot < SLOTS
    requires (forall k: nat :: slot <= k < SLOTS ==> IsBlank(words, k)) && (slot > 0 ==> !IsBlank(words, slot - 1))
    ensures slot == written
  {
    hide IsComplete, IsBlank, IsFromADraw;
    ghost var here := IsBlank(words, if slot < written then slot else if slot > 0 then slot - 1 else 0);
  }

  lemma MoreDrawn(words: Words, known: seq<Seed>, drawn: seq<Seed>, written: nat)
    requires Sound(words, known, written) && known <= drawn
    ensures Sound(words, drawn, written)
  {
    hide IsComplete, IsBlank, Holds;
    forall slot: nat | slot < written ensures IsFromADraw(words, slot, drawn) {
      assert IsFromADraw(words, slot, known);
      var seed :| seed in known && Holds(words, slot, seed);
      assert seed in drawn;
    }
  }

  // ----- a life

  // What two boots of one life found, the first of them something: the same.
  ghost predicate Agree<T>(found: seq<Option<T>>) {
    forall i, j :: 0 <= i < j < |found| && found[i].Some? && found[j].Some? ==> found[i] == found[j]
  }

  ghost predicate FoundSome<T>(found: seq<Option<T>>) {
    exists i :: 0 <= i < |found| && found[i].Some?
  }

  ghost predicate AllFound<T>(found: seq<Option<T>>, x: T) {
    forall i :: 0 <= i < |found| && found[i].Some? ==> found[i].value == x
  }

  // Once a slot was returned, every boot that can read the words returns it again.
  ghost predicate IsFoundAgain(slots: seq<Option<nat>>, boots: seq<Boot>) {
    |slots| <= |boots| &&
    forall i, j :: 0 <= i < j < |slots| && slots[i].Some? && boots[j].readable == [] ==>
      slots[j] == slots[i]
  }

  lemma NothingFound<T>(found: seq<Option<T>>)
    requires !FoundSome(found)
    ensures Agree(found) && forall x :: AllFound(found, x)
  {}

  lemma AllFoundAgree<T>(found: seq<Option<T>>, x: T)
    requires AllFound(found, x)
    ensures Agree(found)
  {}

  lemma OneMoreFound<T>(found: seq<Option<T>>, more: Option<T>)
    ensures FoundSome(found + [more]) <==> FoundSome(found) || more.Some?
    ensures forall x :: AllFound(found, x) && (more.Some? ==> more.value == x) ==> AllFound(found + [more], x)
  {
    var all := found + [more];
    assert all[|found|] == more && forall i :: 0 <= i < |found| ==> all[i] == found[i];
  }

  lemma NothingLived(words: Words, drawn: seq<Seed>, written: nat, boots: seq<Boot>)
    requires Sound(words, drawn, written)
    ensures written <= SLOTS && IsFoundAgain([], boots) && !FoundSome<nat>([]) && !FoundSome<Seed>([])
  {}

  lemma OneMoreBoot(slots: seq<Option<nat>>, boots: seq<Boot>, slot: Option<nat>, x: nat)
    requires IsFoundAgain(slots, boots) && |slots| < |boots|
    requires FoundSome(slots) ==> AllFound(slots, x)
    requires FoundSome(slots) && boots[|slots|].readable == [] ==> slot == Some(x)
    ensures IsFoundAgain(slots + [slot], boots)
  {}

  // Provisioning and then reading, from the supply's return to its next failure.
  method OneBoot(memory: Memory, boot: Boot, ghost written: nat)
      returns (slot: Option<nat>, seed: Option<Seed>, ghost after: nat)
    requires memory.Valid() && Sound(memory.Held(), memory.drawn, written)
    modifies memory, memory.words
    ensures Sound(memory.Held(), memory.drawn, after) && after <= SLOTS && old(memory.drawn) <= memory.drawn
    ensures Grows(old(memory.Held()), memory.Held(), written)
    ensures old(Current(memory.Held(), written)).Some? ==> memory.Held() == old(memory.Held()) && after == written
    ensures slot.Some? ==> slot == Current(memory.Held(), after)
    ensures seed.Some? ==> Current(memory.Held(), after).Some? && seed.value == SeedIn(memory.Held(), after - 1)
    ensures old(Current(memory.Held(), written)).Some? && boot.readable == [] ==> slot.Some?
  {
    hide IsComplete, IsBlank, IsFromADraw, SeedIn, Sound;
    NothingLived(memory.Held(), memory.drawn, written, []);
    memory.Restart(boot);
    slot, after := Provision(memory, written);
    seed := ReadSeed(memory, after);
    NothingLived(memory.Held(), memory.drawn, after, []);
    if old(Current(memory.Held(), written)).Some? {
      MoreDrawn(memory.Held(), old(memory.drawn), memory.drawn, written);
      SameWritten(memory.Held(), memory.drawn, written, after);
    }
  }

  // Any number of boots, each provisioning and then reading, each cut anywhere: every slot returned
  // is the same slot, every seed read the same seed, and one a draw produced; words once written
  // stay; a seed current to begin with is the one found; and once a slot has been returned every
  // boot that can read the words returns it again.
  method LiveThrough(memory: Memory, boots: seq<Boot>, ghost written: nat)
      returns (slots: seq<Option<nat>>, seeds: seq<Option<Seed>>, ghost after: nat)
    requires memory.Valid() && Sound(memory.Held(), memory.drawn, written)
    modifies memory, memory.words
    ensures Sound(memory.Held(), memory.drawn, after) && Grows(old(memory.Held()), memory.Held(), written)
    ensures |slots| == |seeds| == |boots| && Agree(slots) && Agree(seeds)
    ensures FoundSome(slots) || FoundSome(seeds) || old(Current(memory.Held(), written)).Some? ==>
      var slot := Current(memory.Held(), after);
      slot.Some? && AllFound(slots, slot.value) && AllFound(seeds, SeedIn(memory.Held(), slot.value))
      && SeedIn(memory.Held(), slot.value) in memory.drawn
    ensures IsFoundAgain(slots, boots)
  {
    hide IsComplete, IsBlank, IsFromADraw, SeedIn, Grows, Sound, FoundSome, AllFound, Agree, IsFoundAgain;
    slots, seeds, after := [], [], written;
    ghost var before, known := memory.Held(), memory.drawn;
    GrowsFromItself(before, written);
    NothingLived(before, known, written, boots);
    NothingFound(slots);
    NothingFound(seeds);
    for k := 0 to |boots|
      invariant memory.Valid() && Sound(memory.Held(), memory.drawn, after) && after <= SLOTS
      invariant known <= memory.drawn && Grows(before, memory.Held(), written)
      invariant |slots| == |seeds| == k && IsFoundAgain(slots, boots)
      invariant old(Current(memory.Held(), written)).Some? || FoundSome(slots) || FoundSome(seeds) ==>
        && Current(memory.Held(), after).Some? && AllFound(slots, after - 1)
        && AllFound(seeds, SeedIn(memory.Held(), after - 1))
    {
      var slot, seed;
      ghost var words, drawn, begun := memory.Held(), memory.drawn, after;
      slot, seed, after := OneBoot(memory, boots[k], after);
      MoreDrawn(before, known, drawn, written);
      GrowsOn(before, words, memory.Held(), written, begun, drawn);
      if !FoundSome(slots) { NothingFound(slots); }
      if !FoundSome(seeds) { NothingFound(seeds); }
      OneMoreFound(slots, slot);
      OneMoreFound(seeds, seed);
      OneMoreBoot(slots, boots, slot, if after > 0 then after - 1 else 0);
      slots, seeds := slots + [slot], seeds + [seed];
    }
    if Current(memory.Held(), after).Some? {
      CurrentIsOneDraw(memory.Held(), memory.drawn, after);
    }
    if FoundSome(slots) { AllFoundAgree(slots, after - 1); } else { NothingFound(slots); }
    if FoundSome(seeds) { AllFoundAgree(seeds, SeedIn(memory.Held(), after - 1)); } else { NothingFound(seeds); }
  }
}
