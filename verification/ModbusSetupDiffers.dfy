/**
 Where writing items in batches is not like writing them one by one.
 */
module ModbusSetupDiffers {
  import opened Bits
  import opened Common
  import opened ModbusCache
  import opened ModbusFields
  import opened ModbusRead
  import opened ModbusSetup
  import opened ModbusSetupMemory
  import opened ModbusWrite
  import opened ModbusWriteRuns
  import opened Registers
  import opened WordCodec
  import opened WordFields

  // ----- what a write leaves of the cache -----

  lemma {:induction false} SinglesTouch(
      table: map<int, Word>, tmpCache: Cache, c: RegisterConfig, e: Encoding, words: seq<Word>, cache: Cache)
    requires |words| <= c.WordWidth() && OnlyTouches(cache, cache + tmpCache, c)
    ensures OnlyTouches(cache, cache + WriteSingles(table, tmpCache, c, e, words).tmpCache, c)
    decreases |words|
  {
    if words != [] && c.writeAddress + |words| - 1 in table {
      var i := |words| - 1;
      var next := if UsesCache(c) then tmpCache[c.address + i := words[i]] else tmpCache;
      forall a | !HasWord(c, a) ensures SameAt(cache, cache + next, a) {
        assert SameAt(cache, cache + tmpCache, a);
      }
      SinglesTouch(table[c.writeAddress + i := e.inMemory(words[i])], next, c, e, words[..i], cache);
    }
  }

  lemma SingleTouches(mem: Memory, cache: Cache, c: RegisterConfig, value: RegisterValue)
    requires c.IsHolding() && !IsPacking(c) && HasRightType(c, value)
    ensures OnlyTouches(cache, Write(mem, cache, c, value).cache, c)
  {
    var e := EncodingOf(c, cache);
    assert cache + map[] == cache;
    SinglesTouch(mem.holding, map[], c, e, RequestWords(e, value.number, c.WordWidth()), cache);
  }

  lemma PackedTouches(mem: Memory, cache: Cache, c: RegisterConfig, words: seq<Word>)
    requires |words| <= c.WordWidth()
    ensures OnlyTouches(cache, PackedEffect(mem, cache, c, words).cache, c)
  {
    StoringTouches(cache, c, words);
  }

  lemma WriteTouches(mem: Memory, cache: Cache, item: SetupItem)
    requires item.IsConsistent() && item.c.IsHolding() && HasRightType(item.c, item.value)
    ensures OnlyTouches(cache, Write(mem, cache, item.c, item.value).cache, item.c)
  {
    if IsPacking(item.c) {
      PackedWidth(item, cache);
      PackedTouches(mem, cache, item.c, PackedWords(item.c, item.value, cache));
    } else {
      SingleTouches(mem, cache, item.c, item.value);
    }
  }

  // ----- a part of a word that only a batch remembers -----

  /** A whole word, an item that is sent alone and has other words, and a part of the whole word. */
  ghost predicate ArePartAfterWhole(whole: SetupItem, between: SetupItem, part: SetupItem, table: map<int, Word>) {
    && IsBatchable(whole) && IsShareable(whole) && IsAloneWord(whole.c) && whole.c.accessType != WriteOnly
    && between.IsConsistent() && !IsBatchable(between) && !between.c.IsPartial()
    && IsAccepted(between, table) && SharesNoWord(between.c, whole.c)
    && part.value.Number? && part.c.typ == Holding && part.c.IsPartial() && IsCutWord(part.c)
    && part.c.address == whole.c.address
    && whole.c.writeAddress in table && part.c.writeAddress in table
  }

  /** The bits of a word outside the field of a part. */
  predicate AgreeOutside(c: RegisterConfig, word: Word, other: Word)
    requires c.WordWidth() == 1
  {
    SameOutside(word, other, FieldWords(c)[0])
  }

  lemma OutsideOfBlend(word: Word, field: Word, data: Word)
    requires MissesNothing(field, data)
    ensures WithoutWord(Blend(word, field, data), field) == WithoutWord(word, field)
  {
  }

  lemma BlendsDiffer(word: Word, other: Word, field: Word, data: Word)
    requires MissesNothing(field, data)
    ensures Blend(word, field, data) == Blend(other, field, data) <==> SameOutside(word, other, field)
  {
    OutsideOfBlend(word, field, data);
    OutsideOfBlend(other, field, data);
    SameWithout(word, other, field);
    if WithoutWord(word, field) == WithoutWord(other, field) {
      assert Blend(word, field, data) == Blend(other, field, data);
    }
  }

  lemma SameWithout(word: Word, other: Word, field: Word)
    ensures SameOutside(word, other, field) <==> WithoutWord(word, field) == WithoutWord(other, field)
  {
  }

  /** Two words give the same request exactly if they agree on the bits around the data. */
  lemma RequestsDiffer(c: RegisterConfig, value: Value, cache: Cache, other: Cache)
    requires IsCutWord(c)
    ensures RequestWord(c, value, 0, cache) == RequestWord(c, value, 0, other)
       <==> AgreeOutside(c, Cached(cache, c.address), Cached(other, c.address))
  {
    var a, b, data := Cached(cache, c.address), Cached(other, c.address), BITS.and(value, BITS.Mask(c.DataWidth()));
    SingleIsNewWord(c, a, value);
    SingleIsNewWord(c, b, value);
    NewWordsAreBlended(c, [a], data);
    NewWordsAreBlended(c, [b], data);
    MaskedFits(c, value);
    FittingDataStaysInside(c, data);
    BlendsDiffer(a, b, FieldWords(c)[0], DataWords(c, data)[0]);
  }

  /** A part is written with different words exactly if what is remembered differs around its data. */
  lemma PartsDiffer(mem: Memory, cache: Cache, other: Cache, part: SetupItem)
    requires part.value.Number? && IsCutWord(part.c) && part.c.writeAddress in mem.holding
    ensures var a, b := Write(mem, cache, part.c, part.value), Write(mem, other, part.c, part.value);
      && a.result == b.result == Written
      && (a.memory == b.memory <==> AgreeOutside(part.c, Cached(cache, part.c.address), Cached(other, part.c.address)))
  {
    var c, value := part.c, part.value.number;
    SingleEffect(mem, cache, c, value);
    SingleEffect(mem, other, c, value);
    RequestsDiffer(c, value, cache, other);
    OneWordDiffers(mem, c, RequestWord(c, value, 0, cache), RequestWord(c, value, 0, other));
  }

  lemma OneWordDiffers(mem: Memory, c: RegisterConfig, word: Word, other: Word)
    ensures mem.(holding := Stored(mem.holding, c.writeAddress, AllInMemory(c.byteOrder, [word])))
         == mem.(holding := Stored(mem.holding, c.writeAddress, AllInMemory(c.byteOrder, [other])))
       <==> word == other
  {
    OneStored(c.byteOrder, c.writeAddress, word, mem.holding);
    OneStored(c.byteOrder, c.writeAddress, other, mem.holding);
    SeenInMemory(c.byteOrder, word);
    SeenInMemory(c.byteOrder, other);
    assert mem.holding[c.writeAddress := InMemory(c.byteOrder, word)][c.writeAddress] == InMemory(c.byteOrder, word);
    assert mem.holding[c.writeAddress := InMemory(c.byteOrder, other)][c.writeAddress] == InMemory(c.byteOrder, other);
  }

  /** The whole word alone in its batch. */
  lemma WholeSent(mem: Memory, cache: Cache, items: seq<SetupItem>, breakOnError: bool)
    requires items != [] && IsBatchable(items[0]) && IsShareable(items[0]) && IsAloneWord(items[0].c)
    requires items[0].c.accessType != WriteOnly && items[0].c.writeAddress in mem.holding && AllConsistent(items)
    ensures var start, c := State(mem, cache, true), items[0].c;
      var batched, alone :=
        Send(start, items, Request(0, 1, true), breakOnError), SendAlone(start, items[0], breakOnError);
      && batched.running && alone.running && batched.mem == alone.mem
      && batched.mem.holding.Keys == mem.holding.Keys
      && Cached(batched.cache, c.address) == LowestWord(items[0].value.number) && alone.cache == cache
      && OnlyTouches(cache, batched.cache, c)
  {
    var start, whole, e := State(mem, cache, true), items[0], EncodingWith(cache);
    var word := LowestWord(whole.value.number);
    EncodingWithEncodes(cache);
    assert items[0..1] == [whole];
    BatchSent(start, items, 0, 1, e, cache, breakOnError);
    assert EncodesItem(e, cache, cache, whole);
    assert AllInBatch(start, items, 0, 1, e, PackedInMemory(cache)) == InBatch(start, whole, e, PackedInMemory(cache));
    WholeAlone(start, start, whole, cache, breakOnError);
    WholeWordEffect(mem, cache, whole.c, whole.value.number);
    WholePacked(whole, cache);
    StoredWords(cache, whole.c.address, [word], whole.c.address);
    StoringTouches(cache, whole.c, [word]);
    WriteKeepsKeys(mem, cache, whole);
  }

  /** The item between leaves what is remembered of the whole word. */
  lemma BetweenSent(s: State, t: State, between: SetupItem, a: int, breakOnError: bool)
    requires between.IsConsistent() && IsAccepted(between, s.mem.holding) && !IsBatchable(between)
    requires !HasWord(between.c, a) && s.mem == t.mem && SeesSame(between, s.cache, t.cache)
    ensures var x, y := SendAlone(s, between, breakOnError), SendAlone(t, between, breakOnError);
      && x.running && y.running && x.mem == y.mem && x.mem.holding.Keys == s.mem.holding.Keys
      && SameAt(s.cache, x.cache, a) && SameAt(t.cache, y.cache, a)
  {
    AcceptedIsWritten(s.mem, s.cache, between);
    WriteSeesWords(s.mem, between, s.cache, t.cache);
    WriteKeepsKeys(s.mem, s.cache, between);
    WriteTouches(s.mem, s.cache, between);
    WriteTouches(t.mem, t.cache, between);
  }

  lemma ThreeBatched(start: State, items: seq<SetupItem>, maxRegs: nat, breakOnError: bool)
    returns (first: State, second: State)
    requires |items| == 3 && AllConsistent(items) && maxRegs > 1 && start.running
    requires IsBatchable(items[0]) && !IsBatchable(items[1]) && !items[1].c.IsPartial() && items[2].c.IsPartial()
    ensures first == Send(start, items, Request(0, 1, true), breakOnError)
    ensures second == if first.running then SendAlone(first, items[1], breakOnError) else first
    ensures SendFrom(start, items, 0, maxRegs, breakOnError)
         == if second.running then SendAlone(second, items[2], breakOnError) else second
  {
    assert Batch(items, 0, maxRegs) == (1, false);
    first := Send(start, items, Request(0, 1, true), breakOnError);
    BatchStep(start, items, 0, 1, maxRegs, breakOnError);
    second := first;
    if first.running {
      AloneStep(first, items, 1, maxRegs, breakOnError);
      second := SendAlone(first, items[1], breakOnError);
    }
    if second.running {
      AloneStep(second, items, 2, maxRegs, breakOnError);
    }
  }

  lemma ThreeAlone(start: State, items: seq<SetupItem>, breakOnError: bool) returns (first: State, second: State)
    requires |items| == 3 && start.running
    ensures first == SendAlone(start, items[0], breakOnError)
    ensures second == if first.running then SendAlone(first, items[1], breakOnError) else first
    ensures SendOneByOne(start, items, breakOnError)
         == if second.running then SendAlone(second, items[2], breakOnError) else second
  {
    var send := AloneSender(breakOnError);
    AloneSenderIsAlone(breakOnError);
    first := SendAlone(start, items[0], breakOnError);
    AloneSent(send, start, items[0], breakOnError);
    second := if first.running then SendAlone(first, items[1], breakOnError) else first;
    AloneSent(send, first, items[1], breakOnError);
    AloneSent(send, second, items[2], breakOnError);
    ThreeEach(send, start, items);
  }

  lemma {:induction false} ThreeEach(send: Sender, start: State, items: seq<SetupItem>)
    requires |items| == 3 && start.running
    ensures var first := send(start, items[0]);
      var second := if first.running then send(first, items[1]) else first;
      SendEach(send, start, items, 0) == if second.running then send(second, items[2]) else second
  {
    var first := send(start, items[0]);
    var second := if first.running then send(first, items[1]) else first;
    var third := if second.running then send(second, items[2]) else second;
    assert SendEach(send, third, items, 3) == third;
    assert SendEach(send, second, items, 2) == third;
    assert SendEach(send, first, items, 1) == third;
  }

  /**
   A part of a whole word that comes after it, in another request, gets the same memory in batches as one by one if and
   only if the cached word agrees with the new one around the part: a batch remembers a whole word, a request of its own
   does not.
   */
  lemma {:induction false} PartAfterWholeExactly(
      mem: Memory, cache: Cache, whole: SetupItem, between: SetupItem, part: SetupItem, maxWriteRegisters: int,
      breakOnError: bool)
    requires ArePartAfterWhole(whole, between, part, mem.holding) && MaxRegs(maxWriteRegisters) > 1
    ensures AllConsistent([whole, between, part])
    ensures var start, items := State(mem, cache, true), [whole, between, part];
      var batched := SendFrom(start, items, 0, MaxRegs(maxWriteRegisters), breakOnError);
      var alone := SendOneByOne(start, items, breakOnError);
      && batched.running && alone.running
      && (batched.mem == alone.mem <==>
          AgreeOutside(part.c, LowestWord(whole.value.number), Cached(cache, whole.c.address)))
  {
    var start, items, a := State(mem, cache, true), [whole, between, part], whole.c.address;
    assert part.IsConsistent();
    assert AllConsistent(items);
    var first, second := ThreeBatched(start, items, MaxRegs(maxWriteRegisters), breakOnError);
    var firstAlone, secondAlone := ThreeAlone(start, items, breakOnError);
    WholeSent(mem, cache, items, breakOnError);
    NotTouched(between, whole, cache, cache, first.cache);
    SeesSameBack(between, cache, first.cache);
    StillAccepted(between, mem.holding, first.mem.holding);
    BetweenSent(first, firstAlone, between, a, breakOnError);
    PartsDiffer(second.mem, second.cache, secondAlone.cache, part);
  }

  lemma SeesSameBack(item: SetupItem, cache: Cache, other: Cache)
    requires SeesSame(item, cache, other)
    ensures SeesSame(item, other, cache)
  {
    if !IsWhole(item) {
      forall a | HasWord(item.c, a) ensures SameAt(other, cache, a) {
        assert SameAt(cache, other, a);
      }
    }
  }

  lemma StillAccepted(item: SetupItem, table: map<int, Word>, newTable: map<int, Word>)
    requires IsAccepted(item, table) && newTable.Keys == table.Keys
    ensures IsAccepted(item, newTable)
  {
    WordsExistStill(table, newTable, item.c.writeAddress, item.c.WordWidth());
  }

  // ----- such items -----

  /** A word of ones, a single register elsewhere, and zeros for four bits of the word. */
  function PartAfterWhole(): (r: (SetupItem, SetupItem, SetupItem)) {
    var c := RegisterConfig(
      Holding, U16, 2, 0, 0, 0, 0, ReadWrite, BigEndianWords, BigEndianBytes, None, None, None, None);
    (SetupItem(c, Number(0xFFFF)),
     SetupItem(c.(typ := HoldingSingle, address := 7, writeAddress := 7), Number(0)),
     SetupItem(c.(dataWidth := 4), Number(0)))
  }

  lemma WordIsMasked(word: Word, value: Value, width: nat)
    requires value == word as Value && width == 16
    ensures BITS.and(value, BITS.Mask(width)) == value
  {
    LowestIsMasked(value);
    WideWord(word);
  }

  lemma MaskedIsConverted(item: SetupItem, width: nat)
    requires item.value.Number? && width == 8 * item.c.byteWidth <= 64
    requires BITS.and(item.value.number, BITS.Mask(width)) == item.value.number
    ensures IsConverted(item)
  {
  }

  lemma WordIsConverted(item: SetupItem, word: Word, width: nat)
    requires item.value == Number(word as Value) && width == 8 * item.c.byteWidth == 16
    ensures IsConverted(item)
  {
    WordIsMasked(word, item.value.number, width);
    MaskedIsConverted(item, width);
  }

  lemma WholeWord(c: RegisterConfig)
    requires c.typ == Holding && c.format == U16 && c.byteWidth == 2 && c.dataOffset == c.dataWidth == 0
    ensures IsAloneWord(c)
  {
  }

  lemma WholeIsShareable(item: SetupItem)
    requires IsBatchable(item) && IsAloneWord(item.c) && item.value.Number? && IsConverted(item)
    ensures IsShareable(item)
  {
  }

  lemma WordElsewhere(item: SetupItem, c: RegisterConfig, table: map<int, Word>)
    requires item == PartAfterWhole().1 && c == PartAfterWhole().0.c && 7 in table
    ensures item.IsConsistent() && !IsBatchable(item) && !item.c.IsPartial()
    ensures IsAccepted(item, table) && SharesNoWord(item.c, c)
  {
  }

  lemma FourBitsOfWord(c: RegisterConfig)
    requires c == PartAfterWhole().2.c
    ensures IsCutWord(c) && !AgreeOutside(c, 0xFFFF, 0)
  {
    FourOnes();
    OneFieldWord(c, 0x0F);
    OnesDiffer();
  }

  lemma OnesDiffer()
    ensures !SameOutside(0xFFFF, 0, 0x0F) && LowestWord(0xFFFF) == 0xFFFF
  {
  }

  /** The twelve bits around the part stay ones in batches, and go back to zeros one by one. */
  lemma PartAfterWholeDiffers(mem: Memory, cache: Cache, breakOnError: bool)
    requires 0 in mem.holding && 7 in mem.holding && Cached(cache, 0) == 0
    ensures var (whole, between, part) := PartAfterWhole();
      && ArePartAfterWhole(whole, between, part, mem.holding) && AllConsistent([whole, between, part])
      && SendFrom(State(mem, cache, true), [whole, between, part], 0, MaxRegs(0), breakOnError).mem
         != SendOneByOne(State(mem, cache, true), [whole, between, part], breakOnError).mem
  {
    var (whole, between, part) := PartAfterWhole();
    WordIsConverted(whole, 0xFFFF, 16);
    WholeWord(whole.c);
    WholeIsShareable(whole);
    WordElsewhere(between, whole.c, mem.holding);
    FourBitsOfWord(part.c);
    OnesDiffer();
    assert ArePartAfterWhole(whole, between, part, mem.holding);
    PartAfterWholeExactly(mem, cache, whole, between, part, 0, breakOnError);
  }

  // ----- a byte that is only written -----

  /** A number of less than a word, whose word cannot be read. */
  predicate IsWriteOnlyByte(item: SetupItem) {
    && IsBatchable(item) && HasNumber(item) && !IsPacking(item.c)
    && UsesCache(item.c) && item.c.accessType == WriteOnly && item.c.WordWidth() == 1
  }

  lemma {:induction false} OneBatched(state: State, item: SetupItem, maxRegs: nat, breakOnError: bool)
    requires state.running && maxRegs > 1 && IsBatchable(item) && HasNumber(item)
    requires Exists(state.mem.holding, item.c.writeAddress, item.c.WordWidth())
    ensures AllConsistent([item])
    ensures var e := EncodingWith(state.cache);
      SendFrom(state, [item], 0, maxRegs, breakOnError) == InBatch(state, item, e, PackedInMemory(state.cache))
  {
    var items, e := [item], EncodingWith(state.cache);
    assert Batch(items, 0, maxRegs) == (1, false) && items[0..1] == items;
    EncodingWithEncodes(state.cache);
    BatchStep(state, items, 0, 1, maxRegs, breakOnError);
    BatchSent(state, items, 0, 1, e, state.cache, breakOnError);
    assert AllInBatch(state, items, 0, 1, e, PackedInMemory(state.cache))
        == InBatch(state, item, e, PackedInMemory(state.cache));
  }

  /** It is written in a batch; a request of its own asks for the word that it shares, and ends the writing. */
  lemma {:induction false} WriteOnlyByteDiffers(
      mem: Memory, cache: Cache, item: SetupItem, maxRegs: nat, breakOnError: bool)
    requires IsWriteOnlyByte(item) && item.c.writeAddress in mem.holding && maxRegs > 1
    ensures AllConsistent([item])
    ensures var start := State(mem, cache, true);
      && SendFrom(start, [item], 0, maxRegs, breakOnError) == State(
        mem.(holding := Stored(
          mem.holding, item.c.writeAddress,
          AllInMemory(item.c.byteOrder, NewWords(item.c, KnownWords(item.c, map[]), item.value.number)))),
        cache, true)
      && SendOneByOne(start, [item], breakOnError) == start.(running := false)
  {
    var start, send := State(mem, cache, true), AloneSender(breakOnError);
    OneBatched(start, item, maxRegs, breakOnError);
    AloneSenderIsAlone(breakOnError);
    AloneSent(send, start, item, breakOnError);
    assert SendEach(send, send(start, item), [item], 1) == send(start, item);
  }
}
