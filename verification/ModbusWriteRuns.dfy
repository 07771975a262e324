/**
 What sequences of writes keep: the cache stays true to the memory of the device, a written field
 reads back, and no write changes a bit that is not its own.
 */
module ModbusWriteRuns {
  import opened BitFields
  import opened Bits
  import opened Common
  import opened ModbusCache
  import opened ModbusFields
  import opened ModbusRead
  import opened ModbusWrite
  import opened Registers
  import opened WordCodec
  import opened WordFields

  /** A number of at most 64 bits that is written where it is read, by one request. */
  predicate IsWritable(c: RegisterConfig) {
    && HoldsNumber(c)
    && c.IsHolding()
    && c.accessType != WriteOnly
    && c.writeAddress == c.address
    && (IsPacking(c) || (c.WordWidth() == 1 && UsesCache(c)))
  }

  /** Single words are written with a mask, packed ones are not. */
  function DataOf(c: RegisterConfig, value: Value): Value {
    if IsPacking(c) then value else BITS.and(value, BITS.Mask(c.DataWidth()))
  }

  /** The words of the register in memory after the write. */
  function WrittenWords(table: map<int, Word>, c: RegisterConfig, value: Value): (r: seq<Word>)
    requires Exists(table, c.address, c.WordWidth())
    ensures |r| == c.WordWidth()
  {
    NewWords(c, MemoryWords(table, c), DataOf(c, value))
  }

  // ----- one word -----

  lemma LowestIsMasked(value: Value)
    ensures LowestWord(value) as Value == BITS.and(value, BITS.Mask(16))
  {
    MasksOfWords(1);
    LowestIs16Bits(value);
  }

  lemma LowestIs16Bits(value: Value)
    ensures LowestWord(value) as Value == value & 0xFFFF
  {
  }

  lemma CutLowest(value: Value, width: nat)
    requires width <= 16
    ensures BITS.and(LowestWord(value) as Value, BITS.Mask(width)) == BITS.and(value, BITS.Mask(width))
  {
    BitsObeyLaws();
    LowestIsMasked(value);
    CutTwice(BITS, value, width, 16);
  }

  lemma OneNewWord(c: RegisterConfig, word: Word, data: Value)
    ensures NewWords(c, [word], data) == [LowestWord(WithData(c, word as Value, data))]
  {
  }

  lemma OneWordFits(c: RegisterConfig)
    requires HoldsNumber(c) && c.WordWidth() == 1
    ensures c.DataWidth() <= 16
    ensures BitOffset(c, 0) == c.dataOffset && BitCount(c, 0) == c.DataWidth() == c.DataWidth() % 0x100
  {
  }

  /** A single word is the word that a packed write of the masked value would send. */
  lemma SingleIsNewWord(c: RegisterConfig, word: Word, value: Value)
    requires HoldsNumber(c) && c.WordWidth() == 1
    ensures NewWords(c, [word], BITS.and(value, BITS.Mask(c.DataWidth()))) == [SingleWord(c, LowestWord(value), 0, word)]
  {
    OneWordFits(c);
    CutLowest(value, c.DataWidth());
    OneNewWord(c, word, BITS.and(value, BITS.Mask(c.DataWidth())));
  }

  // ----- one write -----

  /** The cache holds the words of the register, and they are those in memory. */
  ghost predicate KnowsWords(c: RegisterConfig, cache: Cache, table: map<int, Word>, orderOf: OrderOf) {
    && Exists(table, c.address, c.WordWidth())
    && AllCached(c, cache)
    && UsesOrder(c, orderOf)
    && CacheAgrees(cache, table, orderOf)
  }

  lemma KnownWordsAreMemory(c: RegisterConfig, cache: Cache, table: map<int, Word>, orderOf: OrderOf)
    requires KnowsWords(c, cache, table, orderOf) && c.accessType != WriteOnly
    ensures KnownWords(c, cache) == MemoryWords(table, c)
  {
  }

  /** The memory and the cache after words are written to the register. */
  predicate IsStored(
      table: map<int, Word>, cache: Cache, newTable: map<int, Word>, newCache: Cache, c: RegisterConfig, words: seq<Word>)
  {
    && newTable == Stored(table, c.address, AllInMemory(c.byteOrder, words))
    && newCache == Stored(cache, c.address, words)
  }

  lemma {:induction false} OneRequest(c: RegisterConfig, e: Encoding, table: map<int, Word>, value: Value, word: Word)
    requires c.WordWidth() == 1 && UsesCache(c) && c.writeAddress in table
    requires word == e.request(value, 0)
    ensures WriteSingles(table, map[], c, e, RequestWords(e, value, 1))
         == Singles(table[c.writeAddress := e.inMemory(word)], map[c.address := word], true)
  {
  }

  lemma {:induction false} StoredAlone(cache: Cache, address: int, word: Word)
    ensures Stored(cache, address, [word]) == cache[address := word]
    ensures cache + map[address := word] == cache[address := word]
  {
  }

  /** A write puts the words of the register with the new data in it both into the memory and into the cache. */
  lemma WriteStores(mem: Memory, cache: Cache, c: RegisterConfig, value: Value, orderOf: OrderOf)
    requires IsWritable(c) && KnowsWords(c, cache, mem.holding, orderOf)
    ensures var after := Write(mem, cache, c, Number(value));
      && after.result == Written
      && after.memory == mem.(holding := after.memory.holding)
      && IsStored(mem.holding, cache, after.memory.holding, after.cache, c, WrittenWords(mem.holding, c, value))
  {
    if IsPacking(c) {
      PackedStores(mem, cache, c, value, orderOf);
    } else {
      SingleStores(mem, cache, c, value, orderOf);
    }
  }

  lemma PackedStores(mem: Memory, cache: Cache, c: RegisterConfig, value: Value, orderOf: OrderOf)
    requires IsWritable(c) && IsPacking(c) && KnowsWords(c, cache, mem.holding, orderOf)
    ensures var after := Write(mem, cache, c, Number(value));
      && after.result == Written
      && after.memory == mem.(holding := after.memory.holding)
      && IsStored(mem.holding, cache, after.memory.holding, after.cache, c, WrittenWords(mem.holding, c, value))
  {
    KnownWordsAreMemory(c, cache, mem.holding, orderOf);
  }

  lemma SingleStores(mem: Memory, cache: Cache, c: RegisterConfig, value: Value, orderOf: OrderOf)
    requires IsWritable(c) && !IsPacking(c) && KnowsWords(c, cache, mem.holding, orderOf)
    ensures var after := Write(mem, cache, c, Number(value));
      && after.result == Written
      && after.memory == mem.(holding := after.memory.holding)
      && IsStored(mem.holding, cache, after.memory.holding, after.cache, c, WrittenWords(mem.holding, c, value))
  {
    SingleWritten(mem.holding, cache, c, value, orderOf);
    SingleEffect(mem, cache, c, value);
  }

  lemma SingleWritten(table: map<int, Word>, cache: Cache, c: RegisterConfig, value: Value, orderOf: OrderOf)
    requires IsWritable(c) && !IsPacking(c) && KnowsWords(c, cache, table, orderOf)
    ensures WrittenWords(table, c, value) == [RequestWord(c, value, 0, cache)]
  {
    KnownWordsAreMemory(c, cache, table, orderOf);
    assert MemoryWords(table, c) == [Cached(cache, c.address)];
    SingleIsNewWord(c, Cached(cache, c.address), value);
  }

  /** A number in one word that is written with a mask. */
  predicate IsCutWord(c: RegisterConfig) {
    && HoldsNumber(c) && c.IsHolding() && !IsPacking(c)
    && c.WordWidth() == 1 && UsesCache(c) && c.accessType != WriteOnly
  }

  lemma {:induction false} SingleEffect(mem: Memory, cache: Cache, c: RegisterConfig, value: Value)
    requires IsCutWord(c) && c.writeAddress in mem.holding
    ensures var words := [RequestWord(c, value, 0, cache)];
      Write(mem, cache, c, Number(value)) == Effect(
        mem.(holding := Stored(mem.holding, c.writeAddress, AllInMemory(c.byteOrder, words))),
        Stored(cache, c.address, words), Written)
  {
    var word := RequestWord(c, value, 0, cache);
    EncodingOfEncodes(c, cache);
    EffectOfOne(mem, cache, c, EncodingOf(c, cache), value, word);
  }

  /** What a request for one word does, for every encoding. */
  lemma {:induction false} EffectOfOne(
      mem: Memory, cache: Cache, c: RegisterConfig, e: Encoding, value: Value, word: Word)
    requires IsCutWord(c) && c.writeAddress in mem.holding
    requires Encodes(e, c, cache) && e.request(value, 0) == word
    ensures var r := WriteSingles(mem.holding, map[], c, e, RequestWords(e, value, c.WordWidth()));
      && r.complete
      && r.table == Stored(mem.holding, c.writeAddress, AllInMemory(c.byteOrder, [word]))
      && cache + r.tmpCache == Stored(cache, c.address, [word])
  {
    OneRequest(c, e, mem.holding, value, word);
    StoredAlone(cache, c.address, word);
    StoredAlone(mem.holding, c.writeAddress, InMemory(c.byteOrder, word));
    assert MemoryRule(e, c, word);
    assert AllInMemory(c.byteOrder, [word]) == [InMemory(c.byteOrder, word)];
  }

  // ----- what a write leaves -----

  lemma StoredInMemory(
      table: map<int, Word>, cache: Cache, newTable: map<int, Word>, newCache: Cache, c: RegisterConfig,
      words: seq<Word>, a: int)
    requires |words| == c.WordWidth() && Exists(table, c.address, c.WordWidth())
    requires IsStored(table, cache, newTable, newCache, c, words)
    ensures a in newTable <==> a in table
    ensures a in newCache <==> a in cache || HasWord(c, a)
    ensures a in table && !HasWord(c, a) ==> newTable[a] == table[a]
    ensures a in cache && !HasWord(c, a) ==> newCache[a] == cache[a]
    ensures HasWord(c, a) ==> newCache[a] == words[a - c.address] == Seen(c.byteOrder, newTable[a])
  {
    StoredWords(table, c.address, AllInMemory(c.byteOrder, words), a);
    StoredWords(cache, c.address, words, a);
    if HasWord(c, a) {
      SeenInMemory(c.byteOrder, words[a - c.address]);
    }
  }

  /** Storing the words of a register keeps the cache true to the memory. */
  lemma StoringKeepsAgreement(
      table: map<int, Word>, cache: Cache, newTable: map<int, Word>, newCache: Cache, c: RegisterConfig,
      words: seq<Word>, orderOf: OrderOf)
    requires |words| == c.WordWidth() && KnowsWords(c, cache, table, orderOf)
    requires IsStored(table, cache, newTable, newCache, c, words)
    ensures CacheAgrees(newCache, newTable, orderOf)
    ensures newCache.Keys == cache.Keys && newTable.Keys == table.Keys
    ensures Exists(newTable, c.address, c.WordWidth()) && MemoryWords(newTable, c) == words
  {
    forall a
      ensures a in newCache <==> a in cache
      ensures a in newTable <==> a in table
      ensures a in newCache && a in newTable ==> newCache[a] == Seen(orderOf(a), newTable[a])
      ensures HasWord(c, a) ==> Seen(c.byteOrder, newTable[a]) == words[a - c.address]
    {
      StoredInMemory(table, cache, newTable, newCache, c, words, a);
    }
    forall a | a in newCache.Keys ensures a in cache.Keys { assert a in newCache; }
    forall a | a in cache.Keys ensures a in newCache.Keys { assert a in cache; }
    forall a | a in newTable.Keys ensures a in table.Keys { assert a in newTable; }
    forall a | a in table.Keys ensures a in newTable.Keys { assert a in table; }
    forall i | 0 <= i < c.WordWidth() ensures MemoryWords(newTable, c)[i] == words[i] {
      assert HasWord(c, c.address + i);
    }
  }

  lemma AloneIsMemory(mem: Memory, c: RegisterConfig)
    requires c.IsHolding() && 0 < c.WordWidth() && Exists(mem.holding, c.address, c.WordWidth())
    ensures ReadAlone(mem, c) == Some(ValueOf(c, MemoryWords(mem.holding, c)))
  {
    WordsAreMemory(mem.holding, c.address, c.WordWidth(), c);
  }

  /** The bits of the register in the word at an address. */
  function FieldAt(c: RegisterConfig, a: int): Word {
    if HasWord(c, a) then FieldWords(c)[a - c.address] else 0
  }

  /** No bit of the memory changes but those of the register. */
  ghost predicate OtherBitsStay(table: map<int, Word>, newTable: map<int, Word>, c: RegisterConfig, orderOf: OrderOf)
    requires newTable.Keys == table.Keys
  {
    forall a | a in table ::
      a in newTable.Keys && SameOutside(Seen(orderOf(a), table[a]), Seen(orderOf(a), newTable[a]), FieldAt(c, a))
  }

  lemma AllOutside(w: Word)
    ensures SameOutside(w, w, 0)
  {
  }

  lemma StoringKeepsOtherBits(
      table: map<int, Word>, cache: Cache, newTable: map<int, Word>, newCache: Cache, c: RegisterConfig,
      newWords: seq<Word>, orderOf: OrderOf)
    requires KnowsWords(c, cache, table, orderOf) && |newWords| == c.WordWidth()
    requires IsStored(table, cache, newTable, newCache, c, newWords)
    requires forall i | 0 <= i < c.WordWidth() :: StaysOutside(MemoryWords(table, c), newWords, FieldWords(c), i)
    ensures newTable.Keys == table.Keys && OtherBitsStay(table, newTable, c, orderOf)
  {
    StoringKeepsAgreement(table, cache, newTable, newCache, c, newWords, orderOf);
    forall a | a in table
      ensures a in newTable.Keys && SameOutside(Seen(orderOf(a), table[a]), Seen(orderOf(a), newTable[a]), FieldAt(c, a))
    {
      assert a in table.Keys;
      if HasWord(c, a) {
        assert StaysOutside(MemoryWords(table, c), newWords, FieldWords(c), a - c.address);
      }
      StoringKeepsOtherBitsAt(table, cache, newTable, newCache, c, newWords, orderOf, a);
    }
  }

  lemma StoringKeepsOtherBitsAt(
      table: map<int, Word>, cache: Cache, newTable: map<int, Word>, newCache: Cache, c: RegisterConfig,
      newWords: seq<Word>, orderOf: OrderOf, a: int)
    requires KnowsWords(c, cache, table, orderOf) && |newWords| == c.WordWidth() && a in table
    requires IsStored(table, cache, newTable, newCache, c, newWords)
    requires HasWord(c, a) ==> StaysOutside(MemoryWords(table, c), newWords, FieldWords(c), a - c.address)
    ensures a in newTable
    ensures SameOutside(Seen(orderOf(a), table[a]), Seen(orderOf(a), newTable[a]), FieldAt(c, a))
  {
    StoredInMemory(table, cache, newTable, newCache, c, newWords, a);
    var order := orderOf(a);
    if HasWord(c, a) {
      var i := a - c.address;
      assert order == c.byteOrder && MemoryWords(table, c)[i] == Seen(order, table[a]);
      assert newWords[i] == Seen(order, newTable[a]) && FieldAt(c, a) == FieldWords(c)[i];
    } else {
      AllOutside(Seen(order, table[a]));
    }
  }

  lemma FittingStaysOutside(c: RegisterConfig, words: seq<Word>, data: Value)
    requires HoldsNumber(c) && |words| == c.WordWidth() && FitsField(c, data)
    ensures forall i | 0 <= i < |words| :: StaysOutside(words, NewWords(c, words, data), FieldWords(c), i)
  {
    NumberFitsWords(c);
    FittingDataKeepsOutside(c, words, data);
  }

  /** Masked data always fits. */
  lemma MaskedFits(c: RegisterConfig, value: Value)
    requires HoldsNumber(c)
    ensures FitsField(c, BITS.and(value, BITS.Mask(c.DataWidth())))
  {
    NumberFitsWords(c);
    BitsObeyLaws();
    CutTwice(BITS, value, c.DataWidth(), c.DataWidth());
  }

  // ----- the laws of a write -----

  /** A value that does not spill over the field of the register. */
  predicate IsContained(c: RegisterConfig, value: Value) {
    !IsPacking(c) || FitsField(c, value)
  }

  /**
   A write is accepted, keeps the cache true to the memory and reads back; unless its value is too wide
   for a packed field, it changes no bit outside the field.
   */
  lemma WriteLaws(mem: Memory, cache: Cache, c: RegisterConfig, value: Value, orderOf: OrderOf)
    requires IsWritable(c) && KnowsWords(c, cache, mem.holding, orderOf)
    ensures var after := Write(mem, cache, c, Number(value));
      && after.result == Written
      && after.memory == mem.(holding := after.memory.holding)
      && after.memory.holding.Keys == mem.holding.Keys && after.cache.Keys == cache.Keys
      && CacheAgrees(after.cache, after.memory.holding, orderOf)
      && 0 < c.WordWidth()
      && ReadAlone(after.memory, c) == Some(Number(BITS.and(value, BITS.Mask(c.DataWidth()))))
      && (IsContained(c, value) ==> OtherBitsStay(mem.holding, after.memory.holding, c, orderOf))
  {
    var after := Write(mem, cache, c, Number(value));
    var table, newTable, newCache := mem.holding, after.memory.holding, after.cache;
    var words := WrittenWords(table, c, value);
    NumberFitsWords(c);
    WriteStores(mem, cache, c, value, orderOf);
    StoringKeepsAgreement(table, cache, newTable, newCache, c, words, orderOf);
    AloneIsMemory(after.memory, c);
    WrittenReadsBack(table, c, value);
    if IsContained(c, value) {
      ContainedStaysOutside(table, c, value);
      StoringKeepsOtherBits(table, cache, newTable, newCache, c, words, orderOf);
    }
  }

  lemma WrittenReadsBack(table: map<int, Word>, c: RegisterConfig, value: Value)
    requires IsWritable(c) && Exists(table, c.address, c.WordWidth())
    ensures ValueOf(c, WrittenWords(table, c, value)) == Number(BITS.and(value, BITS.Mask(c.DataWidth())))
  {
    NumberFitsWords(c);
    NewWordsReadBack(c, MemoryWords(table, c), DataOf(c, value));
    if !IsPacking(c) {
      BitsObeyLaws();
      CutTwice(BITS, value, c.DataWidth(), c.DataWidth());
    }
  }

  lemma ContainedStaysOutside(table: map<int, Word>, c: RegisterConfig, value: Value)
    requires IsWritable(c) && Exists(table, c.address, c.WordWidth()) && IsContained(c, value)
    ensures forall i | 0 <= i < c.WordWidth() ::
      StaysOutside(MemoryWords(table, c), WrittenWords(table, c, value), FieldWords(c), i)
  {
    if !IsPacking(c) {
      MaskedFits(c, value);
    }
    FittingStaysOutside(c, MemoryWords(table, c), DataOf(c, value));
  }

  lemma StoringStaysInside(
      table: map<int, Word>, cache: Cache, newTable: map<int, Word>, newCache: Cache, c: RegisterConfig,
      newWords: seq<Word>, orderOf: OrderOf)
    requires KnowsWords(c, cache, table, orderOf) && |newWords| == c.WordWidth()
    requires IsStored(table, cache, newTable, newCache, c, newWords)
    ensures newTable.Keys == table.Keys
    ensures OtherBitsStay(table, newTable, c, orderOf)
       <==> (forall i | 0 <= i < c.WordWidth() :: StaysOutside(MemoryWords(table, c), newWords, FieldWords(c), i))
  {
    StoringKeepsAgreement(table, cache, newTable, newCache, c, newWords, orderOf);
    if OtherBitsStay(table, newTable, c, orderOf) {
      MemoryStaysOutside(table, newTable, c, newWords, orderOf);
    } else if forall i | 0 <= i < c.WordWidth() :: StaysOutside(MemoryWords(table, c), newWords, FieldWords(c), i) {
      StoringKeepsOtherBits(table, cache, newTable, newCache, c, newWords, orderOf);
    }
  }

  /** A packed write changes no bit of another field if and only if what spills over falls on ones. */
  lemma PackedWriteStaysInside(mem: Memory, cache: Cache, c: RegisterConfig, value: Value, orderOf: OrderOf)
    requires IsWritable(c) && IsPacking(c) && KnowsWords(c, cache, mem.holding, orderOf)
    ensures var table, newTable := mem.holding, Write(mem, cache, c, Number(value)).memory.holding;
      && newTable.Keys == table.Keys
      && (OtherBitsStay(table, newTable, c, orderOf) <==>
          forall i | 0 <= i < c.WordWidth() ::
            ExcessIsSetAt(MemoryWords(table, c), FieldWords(c), DataWords(c, value), i))
  {
    var after := Write(mem, cache, c, Number(value));
    var table, newTable, newWords := mem.holding, after.memory.holding, WrittenWords(mem.holding, c, value);
    NumberFitsWords(c);
    WriteStores(mem, cache, c, value, orderOf);
    StoringStaysInside(table, cache, newTable, after.cache, c, newWords, orderOf);
    OutsideStays(c, MemoryWords(table, c), value);
  }

  lemma MemoryStaysOutside(
      table: map<int, Word>, newTable: map<int, Word>, c: RegisterConfig, newWords: seq<Word>, orderOf: OrderOf)
    requires newTable.Keys == table.Keys && OtherBitsStay(table, newTable, c, orderOf)
    requires Exists(table, c.address, c.WordWidth()) && Exists(newTable, c.address, c.WordWidth())
    requires UsesOrder(c, orderOf) && MemoryWords(newTable, c) == newWords
    ensures forall i | 0 <= i < c.WordWidth() :: StaysOutside(MemoryWords(table, c), newWords, FieldWords(c), i)
  {
  }

  // ----- other registers -----

  predicate ApartAt(c: RegisterConfig, d: RegisterConfig, a: int) {
    FieldAt(c, a) & FieldAt(d, a) == 0
  }

  /** Two registers that share no bit. */
  ghost predicate AreApart(c: RegisterConfig, d: RegisterConfig) {
    forall a :: ApartAt(c, d, a)
  }

  /** A holding number that can be read from the table. */
  ghost predicate CanReadNumber(d: RegisterConfig, table: map<int, Word>, orderOf: OrderOf) {
    HoldsNumber(d) && d.IsHolding() && UsesOrder(d, orderOf) && Exists(table, d.address, d.WordWidth())
  }

  lemma InsideStays(word: Word, newWord: Word, field: Word, other: Word)
    requires SameOutside(word, newWord, field) && field & other == 0
    ensures SameInside(newWord, word, other)
  {
  }

  lemma InsideStaysAt(
      table: map<int, Word>, newTable: map<int, Word>, c: RegisterConfig, d: RegisterConfig, orderOf: OrderOf, i: nat)
    requires newTable.Keys == table.Keys && OtherBitsStay(table, newTable, c, orderOf) && AreApart(c, d)
    requires i < d.WordWidth() && UsesOrder(d, orderOf)
    requires Exists(table, d.address, d.WordWidth()) && Exists(newTable, d.address, d.WordWidth())
    ensures SameInside(MemoryWords(newTable, d)[i], MemoryWords(table, d)[i], FieldWords(d)[i])
  {
    var a := d.address + i;
    var word, newWord, field, other := MemoryWords(table, d)[i], MemoryWords(newTable, d)[i], FieldAt(c, a), FieldWords(d)[i];
    assert HasWord(d, a) && ApartAt(c, d, a) && other == FieldAt(d, a);
    assert word == Seen(orderOf(a), table[a]) && newWord == Seen(orderOf(a), newTable[a]);
    InsideStays(word, newWord, field, other);
  }

  /** A write does not change the value of a register that shares no bit with it. */
  lemma OtherRegistersStay(mem: Memory, newTable: map<int, Word>, c: RegisterConfig, d: RegisterConfig, orderOf: OrderOf)
    requires newTable.Keys == mem.holding.Keys && OtherBitsStay(mem.holding, newTable, c, orderOf)
    requires AreApart(c, d) && CanReadNumber(d, mem.holding, orderOf)
    ensures CanReadNumber(d, newTable, orderOf) && 0 < d.WordWidth()
    ensures ReadAlone(mem.(holding := newTable), d) == ReadAlone(mem, d)
  {
    NumberFitsWords(d);
    forall a | d.address <= a < d.address + d.WordWidth() ensures a in newTable {
      assert a in mem.holding.Keys;
    }
    forall i | 0 <= i < d.WordWidth()
      ensures SameInside(MemoryWords(newTable, d)[i], MemoryWords(mem.holding, d)[i], FieldWords(d)[i])
    {
      InsideStaysAt(mem.holding, newTable, c, d, orderOf, i);
    }
    ValueSeesItsBits(d, MemoryWords(newTable, d), MemoryWords(mem.holding, d));
    AloneIsMemory(mem, d);
    AloneIsMemory(mem.(holding := newTable), d);
  }

  // ----- coils -----

  /** A coil that is one address wide. */
  predicate IsCoil(c: RegisterConfig) {
    c.typ == Coil && c.WordWidth() == 1
  }

  function AsBit(value: Value): Value {
    if value == 0 then 0 else 1
  }

  /** Every table of the device stays but that of coils, where one coil may change. */
  ghost predicate OnlyCoilChanges(mem: Memory, after: Memory, a: int) {
    && after == mem.(coils := after.coils)
    && after.coils.Keys == mem.coils.Keys
    && forall b | b in mem.coils && b != a :: b in after.coils && after.coils[b] == mem.coils[b]
  }

  /** A coil is on after a value that is not zero was written, and off after zero; nothing else changes. */
  lemma CoilWriteLaws(mem: Memory, cache: Cache, c: RegisterConfig, value: Value)
    requires IsCoil(c) && c.writeAddress == c.address && c.address in mem.coils
    ensures var after := Write(mem, cache, c, Number(value));
      && after.result == Written && after.cache == cache
      && OnlyCoilChanges(mem, after.memory, c.address)
      && c.address in after.memory.coils && (after.memory.coils[c.address] <==> value != 0)
      && ReadAlone(after.memory, c) == Some(Number(AsBit(value)))
  {
    var after := Write(mem, cache, c, Number(value));
    CoilIsRead(after.memory, c);
  }

  lemma CoilIsRead(mem: Memory, c: RegisterConfig)
    requires IsCoil(c) && c.address in mem.coils
    ensures ReadAlone(mem, c) == Some(Number(if mem.coils[c.address] then 1 else 0))
  {
    BitsTogether(mem.coils, c.address, 1, c.address);
  }

  // ----- runs -----

  /** A register is written, or read together with its words, which are then remembered. */
  datatype Step = WriteStep(c: RegisterConfig, value: Value) | ReadStep(c: RegisterConfig)

  function AfterStep(mem: Memory, cache: Cache, s: Step): (Memory, Cache) {
    if s.WriteStep? then
      var after := Write(mem, cache, s.c, Number(s.value));
      (after.memory, after.cache)
    else if s.c.IsHolding() && Exists(mem.holding, s.c.address, s.c.WordWidth()) then
      (mem, Stored(cache, s.c.address, MemoryWords(mem.holding, s.c)))
    else (mem, cache)
  }

  /** The memory and the cache after registers are written and read one after another. */
  function Run(mem: Memory, cache: Cache, steps: seq<Step>): (Memory, Cache) {
    if steps == [] then (mem, cache)
    else
      var (m, k) := Run(mem, cache, steps[..|steps| - 1]);
      AfterStep(m, k, steps[|steps| - 1])
  }

  /** A number is written into words that are cached, a coil is written, or something is read that exists. */
  ghost predicate IsStep(s: Step, mem: Memory, cache: Cache, orderOf: OrderOf) {
    if s.c.IsHolding() then
      && Exists(mem.holding, s.c.address, s.c.WordWidth()) && UsesOrder(s.c, orderOf)
      && (s.WriteStep? ==> IsWritable(s.c) && AllCached(s.c, cache))
    else s.WriteStep? ==> IsCoil(s.c) && s.c.writeAddress == s.c.address && s.c.address in mem.coils
  }

  /** From a cache that is true to the memory, every step is possible when it comes. */
  ghost predicate IsRun(steps: seq<Step>, mem: Memory, cache: Cache, orderOf: OrderOf) {
    if steps == [] then CacheAgrees(cache, mem.holding, orderOf)
    else
      var front := steps[..|steps| - 1];
      var (m, k) := Run(mem, cache, front);
      IsRun(front, mem, cache, orderOf) && IsStep(steps[|steps| - 1], m, k, orderOf)
  }

  /** No address of a device appears or disappears, and what cannot be written stays. */
  ghost predicate HasSameAddresses(mem: Memory, after: Memory) {
    && after == mem.(holding := after.holding, coils := after.coils)
    && after.holding.Keys == mem.holding.Keys && after.coils.Keys == mem.coils.Keys
  }

  lemma StepKeepsWords(s: Step, mem: Memory, cache: Cache, orderOf: OrderOf)
    requires IsStep(s, mem, cache, orderOf) && CacheAgrees(cache, mem.holding, orderOf)
    ensures var (m, k) := AfterStep(mem, cache, s);
      CacheAgrees(k, m.holding, orderOf) && HasSameAddresses(mem, m) && cache.Keys <= k.Keys
  {
    if s.c.IsHolding() {
      if s.WriteStep? {
        WriteLaws(mem, cache, s.c, s.value, orderOf);
      } else {
        StoringMemory(cache, s.c, mem.holding, orderOf);
      }
    } else if s.WriteStep? {
      CoilWriteLaws(mem, cache, s.c, s.value);
    }
  }

  /** The cache stays true to the memory in every run of writes and reads. */
  lemma {:induction false} RunKeepsWords(steps: seq<Step>, mem: Memory, cache: Cache, orderOf: OrderOf)
    requires IsRun(steps, mem, cache, orderOf)
    ensures var (m, k) := Run(mem, cache, steps);
      CacheAgrees(k, m.holding, orderOf) && HasSameAddresses(mem, m) && cache.Keys <= k.Keys
  {
    if steps != [] {
      var front := steps[..|steps| - 1];
      RunKeepsWords(front, mem, cache, orderOf);
      var (m, k) := Run(mem, cache, front);
      StepKeepsWords(steps[|steps| - 1], m, k, orderOf);
    }
  }

  /**
   A step that does not touch a register: it only reads, writes another coil, or writes a value that fits into bits of
   its own.
   */
  ghost predicate Spares(s: Step, d: RegisterConfig) {
    s.WriteStep? ==>
      if s.c.typ == Coil then !(d.typ == Coil && d.address == s.c.address)
      else d.typ == Coil || (AreApart(s.c, d) && IsContained(s.c, s.value))
  }

  /** A holding number or a coil that can be read. */
  ghost predicate CanRead(d: RegisterConfig, mem: Memory, orderOf: OrderOf) {
    if d.typ == Coil then IsCoil(d) && d.address in mem.coils else CanReadNumber(d, mem.holding, orderOf)
  }

  lemma CoilStepKeepsOther(s: Step, mem: Memory, cache: Cache, d: RegisterConfig, orderOf: OrderOf)
    requires s.WriteStep? && s.c.typ == Coil && IsStep(s, mem, cache, orderOf)
    requires Spares(s, d) && CanRead(d, mem, orderOf)
    ensures var m := AfterStep(mem, cache, s).0;
      0 < d.WordWidth() && CanRead(d, m, orderOf) && ReadAlone(m, d) == ReadAlone(mem, d)
  {
    CoilWriteLaws(mem, cache, s.c, s.value);
    var m := AfterStep(mem, cache, s).0;
    if d.typ == Coil {
      CoilIsRead(mem, d);
      CoilIsRead(m, d);
    } else {
      NumberFitsWords(d);
      AloneIsMemory(mem, d);
      AloneIsMemory(m, d);
    }
  }

  lemma CoilStays(mem: Memory, table: map<int, Word>, d: RegisterConfig)
    requires IsCoil(d) && d.address in mem.coils
    ensures ReadAlone(mem.(holding := table), d) == ReadAlone(mem, d)
  {
    CoilIsRead(mem, d);
    CoilIsRead(mem.(holding := table), d);
  }

  lemma StepKeepsOther(s: Step, mem: Memory, cache: Cache, d: RegisterConfig, orderOf: OrderOf)
    requires IsStep(s, mem, cache, orderOf) && CacheAgrees(cache, mem.holding, orderOf)
    requires Spares(s, d) && CanRead(d, mem, orderOf)
    ensures var m := AfterStep(mem, cache, s).0;
      0 < d.WordWidth() && CanRead(d, m, orderOf) && ReadAlone(m, d) == ReadAlone(mem, d)
  {
    if d.typ != Coil {
      NumberFitsWords(d);
    }
    if s.WriteStep? {
      if s.c.typ == Coil {
        CoilStepKeepsOther(s, mem, cache, d, orderOf);
      } else {
        WriteLaws(mem, cache, s.c, s.value, orderOf);
        var table := Write(mem, cache, s.c, Number(s.value)).memory.holding;
        if d.typ == Coil {
          CoilStays(mem, table, d);
        } else {
          OtherRegistersStay(mem, table, s.c, d, orderOf);
        }
      }
    }
  }

  /** No run changes the value of a register that its steps spare. */
  lemma {:induction false} RunKeepsOthers(
      steps: seq<Step>, mem: Memory, cache: Cache, d: RegisterConfig, orderOf: OrderOf)
    requires IsRun(steps, mem, cache, orderOf)
    requires forall s | s in steps :: Spares(s, d)
    requires CanRead(d, mem, orderOf)
    ensures var m := Run(mem, cache, steps).0;
      0 < d.WordWidth() && CanRead(d, m, orderOf) && ReadAlone(m, d) == ReadAlone(mem, d)
  {
    if d.typ != Coil {
      NumberFitsWords(d);
    }
    if steps != [] {
      var front, last := steps[..|steps| - 1], steps[|steps| - 1];
      RunKeepsOthers(front, mem, cache, d, orderOf);
      RunKeepsWords(front, mem, cache, orderOf);
      var (m, k) := Run(mem, cache, front);
      assert last in steps;
      StepKeepsOther(last, m, k, d, orderOf);
    }
  }

  lemma {:induction false} RunInTwo(mem: Memory, cache: Cache, a: seq<Step>, b: seq<Step>, orderOf: OrderOf)
    ensures Run(mem, cache, a + b) == Run(Run(mem, cache, a).0, Run(mem, cache, a).1, b)
    ensures IsRun(a + b, mem, cache, orderOf) ==>
      IsRun(a, mem, cache, orderOf) && IsRun(b, Run(mem, cache, a).0, Run(mem, cache, a).1, orderOf)
  {
    if b == [] {
      assert a + b == a;
      if IsRun(a, mem, cache, orderOf) {
        RunKeepsWords(a, mem, cache, orderOf);
      }
    } else {
      assert (a + b)[..|a + b| - 1] == a + b[..|b| - 1];
      RunInTwo(mem, cache, a, b[..|b| - 1], orderOf);
    }
  }

  /** What a register reads after a value was written to it. */
  function WrittenValue(c: RegisterConfig, value: Value): Value {
    if c.typ == Coil then AsBit(value) else BITS.and(value, BITS.Mask(c.DataWidth()))
  }

  lemma WriteIsRead(mem: Memory, cache: Cache, s: Step, orderOf: OrderOf)
    requires s.WriteStep? && IsStep(s, mem, cache, orderOf) && CacheAgrees(cache, mem.holding, orderOf)
    ensures var m := AfterStep(mem, cache, s).0;
      && CanRead(s.c, m, orderOf) && 0 < s.c.WordWidth()
      && ReadAlone(m, s.c) == Some(Number(WrittenValue(s.c, s.value)))
  {
    if s.c.typ == Coil {
      CoilWriteLaws(mem, cache, s.c, s.value);
    } else {
      WriteLaws(mem, cache, s.c, s.value, orderOf);
      WordsExist(mem.holding, AfterStep(mem, cache, s).0.holding, s.c);
    }
  }

  lemma WordsExist(table: map<int, Word>, newTable: map<int, Word>, c: RegisterConfig)
    requires newTable.Keys == table.Keys && Exists(table, c.address, c.WordWidth())
    ensures Exists(newTable, c.address, c.WordWidth())
  {
    forall a | c.address <= a < c.address + c.WordWidth() ensures a in newTable {
      assert a in table.Keys;
    }
  }

  /** After every run a register reads as what was last written to it, if everything after that spares it. */
  lemma {:induction false} LastWriteIsRead(
      before: seq<Step>, s: Step, later: seq<Step>, mem: Memory, cache: Cache, orderOf: OrderOf)
    requires IsRun(before + [s] + later, mem, cache, orderOf) && s.WriteStep?
    requires forall t | t in later :: Spares(t, s.c)
    ensures 0 < s.c.WordWidth()
    ensures ReadAlone(Run(mem, cache, before + [s] + later).0, s.c)
         == Some(Number(WrittenValue(s.c, s.value)))
  {
    RunInTwo(mem, cache, before + [s], later, orderOf);
    RunInTwo(mem, cache, before, [s], orderOf);
    RunKeepsWords(before, mem, cache, orderOf);
    assert (before + [s])[..|before|] == before;
    var (m, k) := Run(mem, cache, before);
    WriteIsRead(m, k, s, orderOf);
    var (n, l) := Run(mem, cache, before + [s]);
    RunKeepsOthers(later, n, l, s.c, orderOf);
  }

  // ----- a value that is too wide -----

  /** Four bits of a word that is written by a request of several words. */
  function FourBits(offset: nat): RegisterConfig {
    RegisterConfig(HoldingMulti, U16, 2, 0, 0, offset, 4, ReadWrite, BigEndianWords, BigEndianBytes, None, None, None, None)
  }

  lemma SpilledWord()
    ensures NewWords(FourBits(0), [0], 0x10) == [0x10]
    ensures ValueOf(FourBits(4), [0]) == Number(0) && ValueOf(FourBits(4), [0x10]) == Number(1)
  {
  }

  lemma FieldsOfFourBits()
    ensures FieldWords(FourBits(0)) == [0x0F] && FieldWords(FourBits(4)) == [0xF0]
  {
    FourOnes();
    OneFieldWord(FourBits(0), 0x0F);
    OneFieldWord(FourBits(4), 0xF0);
  }

  lemma FourOnes()
    ensures Field(BITS, 0, 4) == 0x0F && Field(BITS, 4, 4) == 0xF0
    ensures LowestWord(0x0F) == 0x0F && LowestWord(0xF0) == 0xF0
  {
    assert ShiftLeft(1, 4) == 16 by {
      assert ShiftLeft(1, 2) == 4;
    }
    assert BITS.Mask(4) == 15;
    assert ShiftLeft(15, 2) == 60;
  }

  lemma OneFieldWord(c: RegisterConfig, field: Value)
    requires c.WordWidth() == 1 && Field(BITS, c.dataOffset, c.DataWidth() % 0x100) == field
    ensures FieldWords(c) == [LowestWord(field)]
  {
  }

  lemma FourBitsAreApart()
    ensures AreApart(FourBits(0), FourBits(4))
  {
    FieldsOfFourBits();
    ApartInOneWord(FourBits(0), FourBits(4), 0x0F, 0xF0);
  }

  lemma ApartInOneWord(c: RegisterConfig, d: RegisterConfig, field: Word, other: Word)
    requires c.address == d.address && FieldWords(c) == [field] && FieldWords(d) == [other] && field & other == 0
    ensures AreApart(c, d)
  {
    forall a ensures ApartAt(c, d, a) {
      assert a == c.address || (FieldAt(c, a) == 0 && FieldAt(d, a) == 0);
    }
  }

  /** A register of one word, seen through another one with the same word. */
  lemma OneWordIsRead(mem: Memory, c: RegisterConfig, d: RegisterConfig, word: Word, value: RegisterValue)
    requires d.IsHolding() && d.address == c.address && d.byteOrder == c.byteOrder
    requires c.WordWidth() == d.WordWidth() == 1 && Exists(mem.holding, c.address, 1)
    requires MemoryWords(mem.holding, c) == [word] && ValueOf(d, [word]) == value
    ensures ReadAlone(mem, d) == Some(value)
  {
    assert MemoryWords(mem.holding, d) == [word];
    AloneIsMemory(mem, d);
  }

  lemma StoredIsRead(mem: Memory, cache: Cache, c: RegisterConfig, d: RegisterConfig, value: Value, word: Word,
                     orderOf: OrderOf)
    requires IsWritable(c) && KnowsWords(c, cache, mem.holding, orderOf) && IsPacking(c)
    requires d.IsHolding() && d.address == c.address && d.byteOrder == c.byteOrder
    requires c.WordWidth() == d.WordWidth() == 1
    requires NewWords(c, MemoryWords(mem.holding, c), value) == [word]
    ensures ReadAlone(Write(mem, cache, c, Number(value)).memory, d) == Some(ValueOf(d, [word]))
  {
    var after := Write(mem, cache, c, Number(value));
    WriteStores(mem, cache, c, value, orderOf);
    StoringKeepsAgreement(mem.holding, cache, after.memory.holding, after.cache, c, [word], orderOf);
    OneWordIsRead(after.memory, c, d, word, ValueOf(d, [word]));
  }

  lemma FourBitsAreWritable(offset: nat)
    requires offset <= 12
    ensures IsWritable(FourBits(offset)) && IsPacking(FourBits(offset)) && FourBits(offset).WordWidth() == 1
  {
  }

  /** A value that is too wide for its packed field changes another register, though the two share no bit. */
  lemma WideValueSpills(orderOf: OrderOf) returns (mem: Memory, cache: Cache)
    requires orderOf(0) == BigEndianBytes
    ensures IsWritable(FourBits(0)) && KnowsWords(FourBits(0), cache, mem.holding, orderOf)
    ensures AreApart(FourBits(0), FourBits(4)) && FourBits(4).WordWidth() == 1
    ensures ReadAlone(mem, FourBits(4)) == Some(Number(0))
    ensures ReadAlone(Write(mem, cache, FourBits(0), Number(0x10)).memory, FourBits(4)) == Some(Number(1))
  {
    mem, cache := Memory(map[0 := 0], map[], map[], map[]), map[0 := 0];
    var c, d := FourBits(0), FourBits(4);
    FourBitsAreWritable(0);
    FourBitsAreWritable(4);
    FourBitsAreApart();
    SpilledWord();
    ZeroWord(c, mem.holding, orderOf);
    OneWordIsRead(mem, c, d, 0, Number(0));
    StoredIsRead(mem, cache, c, d, 0x10, 0x10, orderOf);
  }

  lemma ZeroWord(c: RegisterConfig, table: map<int, Word>, orderOf: OrderOf)
    requires c.address == 0 && c.WordWidth() == 1 && c.byteOrder == BigEndianBytes && orderOf(0) == BigEndianBytes
    requires table == map[0 := 0]
    ensures MemoryWords(table, c) == [0] && KnowsWords(c, table, table, orderOf)
  {
    assert Seen(BigEndianBytes, 0) == 0;
    assert forall a | HasWord(c, a) :: a == 0;
  }

  // ----- a whole word in a request of its own -----

  /** A register of exactly one word that is written alone. */
  predicate IsAloneWord(c: RegisterConfig) {
    HoldsNumber(c) && c.IsHolding() && !IsPacking(c) && c.WordWidth() == 1 && c.DataWidth() == 16
  }

  /**
   Writing a whole word does not refresh the cache, so the cache stays true to the memory
   if and only if it does not have the word or happens to have just the written one.
   */
  lemma WholeWordIsNotCached(mem: Memory, cache: Cache, c: RegisterConfig, value: Value, orderOf: OrderOf)
    requires IsAloneWord(c) && c.writeAddress == c.address && c.address in mem.holding && UsesOrder(c, orderOf)
    requires CacheAgrees(cache, mem.holding, orderOf)
    ensures var after := Write(mem, cache, c, Number(value));
      && after.result == Written && after.cache == cache
      && (CacheAgrees(after.cache, after.memory.holding, orderOf) <==>
          (c.address in cache ==> cache[c.address] == LowestWord(value)))
  {
    WholeWordEffect(mem, cache, c, value);
    SeenInMemory(c.byteOrder, LowestWord(value));
    var a := c.address;
    assert HasWord(c, a) && orderOf(a) == c.byteOrder;
    StoredWholeWord(mem.holding, cache, a, InMemory(c.byteOrder, LowestWord(value)), LowestWord(value), orderOf);
  }

  lemma StoredWholeWord(table: map<int, Word>, cache: Cache, a: int, stored: Word, word: Word, orderOf: OrderOf)
    requires a in table && CacheAgrees(cache, table, orderOf) && Seen(orderOf(a), stored) == word
    ensures CacheAgrees(cache, table[a := stored], orderOf) <==> (a in cache ==> cache[a] == word)
  {
  }

  lemma WholeWordRequest(c: RegisterConfig, value: Value, cache: Cache)
    requires HoldsNumber(c) && c.WordWidth() == 1 && c.DataWidth() == 16
    ensures RequestWord(c, value, 0, cache) == LowestWord(value)
  {
    WholeWordPlace(c);
    WholeSingleWord(c, LowestWord(value), 0);
  }

  lemma WholeSingleWord(c: RegisterConfig, word: Word, i: nat)
    requires BitOffset(c, i) == 0 && BitCount(c, i) == 16
    ensures SingleWord(c, word, i, 0) == word
  {
    WordInPlace(word);
  }

  lemma WordInPlace(word: Word)
    ensures LowestWord(Put(BITS, 0, BITS.and(word as Value, BITS.Mask(16)), 0, 16)) == word
  {
    WideWord(word);
    PutAll(word as Value);
  }

  lemma WideWord(word: Word)
    ensures word as Value & 0xFFFF == word as Value && LowestWord(word as Value) == word
  {
  }

  lemma WholeWordPlace(c: RegisterConfig)
    requires HoldsNumber(c) && c.WordWidth() == 1 && c.DataWidth() == 16
    ensures !UsesCache(c) && BitOffset(c, 0) == 0 && BitCount(c, 0) == 16
  {
  }

  lemma PutAll(data: Value)
    requires data & 0xFFFF == data
    ensures LowestWord(Put(BITS, 0, BITS.and(data, BITS.Mask(16)), 0, 16)) == LowestWord(data)
  {
    MasksOfWords(1);
    PutNothing(data);
  }

  lemma PutNothing(data: Value)
    requires data & 0xFFFF == data
    ensures Or(Without(0, 0xFFFF), And(data, 0xFFFF)) == data
  {
  }

  lemma WholeWordEffect(mem: Memory, cache: Cache, c: RegisterConfig, value: Value)
    requires IsAloneWord(c) && c.writeAddress in mem.holding
    ensures Write(mem, cache, c, Number(value)) == Effect(
      mem.(holding := mem.holding[c.writeAddress := InMemory(c.byteOrder, LowestWord(value))]), cache, Written)
  {
    var e := EncodingOf(c, cache);
    EncodingOfEncodes(c, cache);
    WholeWordRequest(c, value, cache);
    assert RequestRule(e, c, cache, value, 0) && MemoryRule(e, c, LowestWord(value));
    WholeWordSent(mem.holding, cache, c, e, value, LowestWord(value));
  }

  lemma {:induction false} WholeWordSent(
      table: map<int, Word>, cache: Cache, c: RegisterConfig, e: Encoding, value: Value, word: Word)
    requires IsAloneWord(c) && c.writeAddress in table && e.request(value, 0) == word
    ensures var r := WriteSingles(table, map[], c, e, RequestWords(e, value, c.WordWidth()));
      r == Singles(table[c.writeAddress := e.inMemory(word)], map[], true) && cache + r.tmpCache == cache
  {
  }

  // ----- whole words, one in each request -----

  lemma WholeWordOfMany(c: RegisterConfig, value: Value, i: nat, cache: Cache)
    requires FillsWords(c) && i < c.WordWidth()
    ensures RequestWord(c, value, i, cache) == LowestWord(value)
  {
    NumberFitsWords(c);
    WholeSingleWord(c, LowestWord(value), i);
  }

  predicate AsksLowest(e: Encoding, value: Value, i: nat) {
    e.request(value, i) == LowestWord(value)
  }

  lemma {:induction false} RequestsAreWords(e: Encoding, value: Value, n: nat)
    requires forall v, i: nat {:trigger AsksLowest(e, v, i)} | i < n :: AsksLowest(e, v, i)
    ensures RequestWords(e, value, n) == WordsOf(value, n)
    decreases n
  {
    if n > 0 {
      assert AsksLowest(e, value, n - 1);
      RequestsAreWords(e, WordUp(value), n - 1);
      WordsAbove(value, n);
    }
  }

  /** The words at a place in memory are those that are sent; the others stay. */
  predicate IsSentTo(
      table: map<int, Word>, newTable: map<int, Word>, address: int, words: seq<Word>, inMemory: Word -> Word, a: int)
  {
    && (a in newTable <==> a in table)
    && (a in table ==> newTable[a] == WordAfter(table[a], address, words, inMemory, a))
  }

  function WordAfter(word: Word, address: int, words: seq<Word>, inMemory: Word -> Word, a: int): Word {
    if address <= a < address + |words| then inMemory(words[a - address]) else word
  }

  /** Words sent from the last to the first end up in memory one after another. */
  lemma {:induction false} SinglesStored(
      table: map<int, Word>, tmpCache: Cache, c: RegisterConfig, e: Encoding, words: seq<Word>, a: int)
    requires Exists(table, c.writeAddress, |words|)
    ensures var r := WriteSingles(table, tmpCache, c, e, words);
      && r.complete && (!UsesCache(c) ==> r.tmpCache == tmpCache)
      && IsSentTo(table, r.table, c.writeAddress, words, e.inMemory, a)
    decreases |words|
  {
    if words != [] {
      var i := |words| - 1;
      SinglesStored(
        table[c.writeAddress + i := e.inMemory(words[i])],
        if UsesCache(c) then tmpCache[c.address + i := words[i]] else tmpCache, c, e, words[..i], a);
    }
  }

  lemma {:induction false} SinglesEffect(mem: Memory, cache: Cache, c: RegisterConfig, value: Value)
    requires c.typ == HoldingSingle && !UsesCache(c)
    ensures var e := EncodingOf(c, cache);
      var r := WriteSingles(mem.holding, map[], c, e, RequestWords(e, value, c.WordWidth()));
      Write(mem, cache, c, Number(value)) == Effect(
        mem.(holding := r.table), if r.complete then cache + r.tmpCache else cache,
        if r.complete then Written else Refused)
  {
  }

  lemma {:induction false} WholeRequests(c: RegisterConfig, cache: Cache, value: Value)
    requires FillsWords(c)
    ensures RequestWords(EncodingOf(c, cache), value, c.WordWidth()) == WordsOf(value, c.WordWidth())
  {
    var e := EncodingOf(c, cache);
    EncodingOfEncodes(c, cache);
    forall v, i: nat | i < c.WordWidth() ensures AsksLowest(e, v, i) {
      assert RequestRule(e, c, cache, v, i);
      WholeWordOfMany(c, v, i, cache);
    }
    RequestsAreWords(e, value, c.WordWidth());
  }

  /** What cannot be read back as numbers is not cached: texts, and registers without a read address. */
  lemma NotCached(mem: Memory, cache: Cache, c: RegisterConfig, value: RegisterValue)
    requires IsPacking(c) && (c.IsString() || c.accessType == WriteOnly)
    ensures Write(mem, cache, c, value).cache == cache
  {
  }

  /** Whole words that are written one by one are those of the value, the most significant one first; none is cached. */
  lemma WordByWordIs(mem: Memory, cache: Cache, c: RegisterConfig, value: Value, a: int)
    requires c.typ == HoldingSingle && FillsWords(c) && Exists(mem.holding, c.writeAddress, c.WordWidth())
    ensures var after := Write(mem, cache, c, Number(value));
      && after.result == Written && after.cache == cache && after.memory == mem.(holding := after.memory.holding)
      && IsSentTo(
        mem.holding, after.memory.holding, c.writeAddress, WordsOf(value, c.WordWidth()),
        EncodingOf(c, cache).inMemory, a)
  {
    NumberFitsWords(c);
    SinglesEffect(mem, cache, c, value);
    WholeRequests(c, cache, value);
    SinglesStored(mem.holding, map[], c, EncodingOf(c, cache), WordsOf(value, c.WordWidth()), a);
    assert cache + map[] == cache;
  }
}
