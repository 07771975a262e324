/**
 Writing items in batches leaves the device as writing them one by one does.
 */
module ModbusSetupMemory {
  import opened Bits
  import opened Common
  import opened ModbusCache
  import opened ModbusFields
  import opened ModbusRead
  import opened ModbusSetup
  import opened ModbusSetupLaws
  import opened ModbusWrite
  import opened ModbusWriteRuns
  import opened Registers
  import opened WordCodec
  import opened WordFields

  /** An item that can share a request. */
  predicate IsBatchable(item: SetupItem) {
    item.c.typ == Holding && !item.c.IsPartial()
  }

  /** A whole holding number of one or more words. */
  predicate IsWhole(item: SetupItem) {
    IsBatchable(item) && FillsWords(item.c) && item.value.Number?
  }

  /** What the conversion of a setup value gives: no more bits than the format has. */
  predicate IsConverted(item: SetupItem) {
    item.value.Number? ==> BITS.and(item.value.number, LsbMask(8 * item.c.byteWidth)) == item.value.number
  }

  predicate HasNumber(item: SetupItem) {
    item.IsConsistent() && item.value.Number? && item.c.WordWidth() > 0
  }

  /** A number that a request of its own writes as a batch does. Texts have a width in bits, so they are never batched. */
  predicate IsShareable(item: SetupItem) {
    && HasNumber(item)
    && (!IsPacking(item.c) ==>
          && HoldsNumber(item.c) && IsConverted(item)
          && (item.c.accessType == WriteOnly ==> !UsesCache(item.c)))
  }

  /** How the words of each item lie in memory. */
  type WordsFor = SetupItem -> seq<Word>

  function PackedInMemory(known: Cache): WordsFor {
    (item: SetupItem) =>
      if item.IsConsistent() then AllInMemory(item.c.byteOrder, PackedWords(item.c, item.value, known)) else []
  }

  /** Items put into memory one after another. */
  function PutAll(table: map<int, Word>, items: seq<SetupItem>, words: WordsFor): map<int, Word> {
    if items == [] then table
    else
      var last := items[|items| - 1];
      Stored(PutAll(table, items[..|items| - 1], words), last.c.writeAddress, words(last))
  }

  lemma {:induction false} StoredInTwo(table: map<int, Word>, address: int, a: seq<Word>, b: seq<Word>)
    ensures Stored(table, address, a + b) == Stored(Stored(table, address, a), address + |a|, b)
  {
    if b == [] {
      assert a + b == a;
    } else {
      assert (a + b)[..|a + b| - 1] == a + b[..|b| - 1];
      StoredInTwo(table, address, a, b[..|b| - 1]);
    }
  }

  /** The bytes of an item are received as its words. */
  predicate BringsWords(e: ItemEncoding, words: WordsFor, item: SetupItem) {
    && |words(item)| == item.c.WordWidth()
    && |e.bytes(item)| == 2 * item.c.WordWidth()
    && Received(e.bytes(item)) == words(item)
  }

  lemma ReceivedInTwo(a: seq<Byte>, b: seq<Byte>)
    requires |a| % 2 == 0
    ensures Received(a + b) == Received(a) + Received(b)
  {
  }

  function Concat(items: seq<SetupItem>, words: WordsFor): seq<Word> {
    if items == [] then [] else Concat(items[..|items| - 1], words) + words(items[|items| - 1])
  }

  /** Data of whole words is received piece by piece. */
  predicate JoinsPieces(receive: seq<Byte> -> seq<Word>, a: seq<Byte>, b: seq<Byte>) {
    |a| % 2 == 0 ==> receive(a + b) == receive(a) + receive(b)
  }

  predicate BringsPiece(receive: seq<Byte> -> seq<Word>, e: ItemEncoding, words: WordsFor, item: SetupItem) {
    && |words(item)| == item.c.WordWidth()
    && |e.bytes(item)| == 2 * item.c.WordWidth()
    && receive(e.bytes(item)) == words(item)
  }

  lemma {:induction false} PiecesAreReceived(
      receive: seq<Byte> -> seq<Word>, batch: seq<SetupItem>, e: ItemEncoding, words: WordsFor)
    requires receive([]) == [] && forall a, b :: JoinsPieces(receive, a, b)
    requires forall item | item in batch :: BringsPiece(receive, e, words, item)
    ensures |BatchData(batch, e)| == 2 * TotalWidth(batch)
    ensures receive(BatchData(batch, e)) == Concat(batch, words)
    ensures |Concat(batch, words)| == TotalWidth(batch)
  {
    if batch != [] {
      var front, last := batch[..|batch| - 1], batch[|batch| - 1];
      PiecesAreReceived(receive, front, e, words);
      assert BringsPiece(receive, e, words, last) && JoinsPieces(receive, BatchData(front, e), e.bytes(last));
    }
  }

  lemma {:induction false} BatchIsReceived(batch: seq<SetupItem>, e: ItemEncoding, words: WordsFor)
    requires forall item | item in batch :: BringsWords(e, words, item)
    ensures |BatchData(batch, e)| == 2 * TotalWidth(batch)
    ensures Received(BatchData(batch, e)) == Concat(batch, words)
    ensures |Concat(batch, words)| == TotalWidth(batch)
  {
    forall a, b ensures JoinsPieces(Received, a, b) {
      if |a| % 2 == 0 {
        ReceivedInTwo(a, b);
      }
    }
    forall item | item in batch ensures BringsPiece(Received, e, words, item) {
      assert BringsWords(e, words, item);
    }
    PiecesAreReceived(Received, batch, e, words);
  }

  predicate HasWidth(words: WordsFor, item: SetupItem) {
    |words(item)| == item.c.WordWidth()
  }

  /** What a request of neighbours stores is what its items store one after another. */
  lemma {:induction false} NeighboursStored(
      table: map<int, Word>, batch: seq<SetupItem>, words: WordsFor, address: int)
    requires forall item | item in batch :: HasWidth(words, item)
    requires batch != [] ==> address == batch[0].c.writeAddress
    requires forall j | 0 < j < |batch| :: Continues(batch[j - 1], batch[j])
    ensures |Concat(batch, words)| == TotalWidth(batch)
    ensures Stored(table, address, Concat(batch, words)) == PutAll(table, batch, words)
    ensures batch != [] ==>
      batch[|batch| - 1].c.writeAddress + batch[|batch| - 1].c.WordWidth() == address + TotalWidth(batch)
  {
    if batch != [] {
      var front, last := batch[..|batch| - 1], batch[|batch| - 1];
      NeighboursStored(table, front, words, address);
      assert HasWidth(words, last);
      if front != [] {
        assert Continues(batch[|front| - 1], batch[|front|]);
      }
      StoredInTwo(table, address, Concat(front, words), words(last));
    }
  }

  // ----- what is remembered -----

  predicate SameAt(cache: Cache, other: Cache, a: int) {
    Cached(cache, a) == Cached(other, a)
  }

  /** Nothing is remembered but words of the item. */
  ghost predicate OnlyTouches(cache: Cache, after: Cache, c: RegisterConfig) {
    forall a {:trigger SameAt(cache, after, a)} | !HasWord(c, a) :: SameAt(cache, after, a)
  }

  /** An item whose words are known alike, unless it does not need to know them. */
  ghost predicate SeesSame(item: SetupItem, cache: Cache, other: Cache) {
    IsWhole(item) || forall a {:trigger SameAt(cache, other, a)} | HasWord(item.c, a) :: SameAt(cache, other, a)
  }

  lemma SeesSameTwice(item: SetupItem, first: Cache, second: Cache, third: Cache)
    requires SeesSame(item, first, second) && SeesSame(item, second, third)
    ensures SeesSame(item, first, third)
  {
    if !IsWhole(item) {
      forall a | HasWord(item.c, a) ensures SameAt(first, third, a) {
        assert SameAt(first, second, a) && SameAt(second, third, a);
      }
    }
  }

  /** A whole word: a batch remembers it, a request of its own does not. */
  predicate IsRememberedInBatchOnly(item: SetupItem) {
    IsBatchable(item) && !IsPacking(item.c) && !UsesCache(item.c) && item.c.accessType != WriteOnly
  }

  predicate MayDiffer(item: SetupItem, a: int) {
    IsRememberedInBatchOnly(item) && HasWord(item.c, a)
  }

  /** Words that were known alike before an item was written are so afterwards. */
  ghost predicate AgreeStill(item: SetupItem, cache: Cache, other: Cache, after: Cache, otherAfter: Cache) {
    forall a {:trigger SameAt(after, otherAfter, a)} | SameAt(cache, other, a) && !MayDiffer(item, a) ::
      SameAt(after, otherAfter, a)
  }

  lemma {:induction false} StoringTouches(cache: Cache, c: RegisterConfig, words: seq<Word>)
    requires |words| <= c.WordWidth()
    ensures OnlyTouches(cache, Stored(cache, c.address, words), c)
  {
    forall a | !HasWord(c, a) ensures SameAt(cache, Stored(cache, c.address, words), a) {
      StoredWords(cache, c.address, words, a);
    }
  }

  lemma {:induction false} StoringAgrees(item: SetupItem, cache: Cache, other: Cache, address: int, words: seq<Word>)
    ensures AgreeStill(item, cache, other, Stored(cache, address, words), Stored(other, address, words))
  {
    forall a | SameAt(cache, other, a) ensures SameAt(Stored(cache, address, words), Stored(other, address, words), a) {
      StoredWords(cache, address, words, a);
      StoredWords(other, address, words, a);
    }
  }

  lemma {:induction false} OneDiffers(item: SetupItem, cache: Cache, other: Cache, words: seq<Word>)
    requires IsRememberedInBatchOnly(item) && |words| <= item.c.WordWidth()
    ensures AgreeStill(item, cache, other, Stored(cache, item.c.address, words), other)
  {
    StoringTouches(cache, item.c, words);
    forall a | SameAt(cache, other, a) && !MayDiffer(item, a)
      ensures SameAt(Stored(cache, item.c.address, words), other, a)
    {
      assert SameAt(cache, Stored(cache, item.c.address, words), a);
    }
  }

  lemma RememberedTouches(cache: Cache, item: SetupItem, known: Cache)
    requires item.IsConsistent() && |PackedWords(item.c, item.value, known)| <= item.c.WordWidth()
    ensures OnlyTouches(cache, Remembered(cache, item, known), item.c)
  {
    StoringTouches(cache, item.c, PackedWords(item.c, item.value, known));
  }

  lemma SameKnownWords(c: RegisterConfig, first: Cache, cache: Cache)
    requires forall a | HasWord(c, a) :: SameAt(first, cache, a)
    ensures KnownWords(c, cache) == KnownWords(c, first)
  {
    forall i | 0 <= i < c.WordWidth() ensures KnownWords(c, cache)[i] == KnownWords(c, first)[i] {
      assert HasWord(c, c.address + i) && SameAt(first, cache, c.address + i);
    }
  }

  lemma SamePacked(item: SetupItem, cache: Cache, other: Cache)
    requires item.IsConsistent() && SeesSame(item, cache, other)
    ensures PackedWords(item.c, item.value, cache) == PackedWords(item.c, item.value, other)
  {
    if IsWhole(item) {
      FullNewWords(item.c, KnownWords(item.c, cache), item.value.number);
      FullNewWords(item.c, KnownWords(item.c, other), item.value.number);
    } else if item.value.Number? {
      SameKnownWords(item.c, cache, other);
    }
  }

  lemma PackedWidth(item: SetupItem, known: Cache)
    requires item.IsConsistent()
    ensures |PackedWords(item.c, item.value, known)| <= item.c.WordWidth()
    ensures item.value.Number? ==> |PackedWords(item.c, item.value, known)| == item.c.WordWidth()
  {
  }

  // ----- one item, in a batch and alone -----

  /** What a batch does with one of its items. */
  function InBatch(state: State, item: SetupItem, e: ItemEncoding, words: WordsFor): State {
    State(
      state.mem.(holding := Stored(state.mem.holding, item.c.writeAddress, words(item))),
      e.remember(state.cache, item), state.running)
  }

  /** The item leaves the same memory in a batch and alone, and words are known alike still. */
  ghost predicate IsSameAlone(s: State, t: State, item: SetupItem, known: Cache, after: State) {
    && after.running
    && after.mem == t.mem.(holding := Stored(t.mem.holding, item.c.writeAddress, PackedInMemory(known)(item)))
    && item.IsConsistent()
    && AgreeStill(item, s.cache, t.cache, Remembered(s.cache, item, known), after.cache)
  }

  lemma PackedAlone(s: State, t: State, item: SetupItem, known: Cache, breakOnError: bool)
    requires IsBatchable(item) && IsShareable(item) && IsPacking(item.c) && SeesSame(item, known, t.cache)
    requires Exists(t.mem.holding, item.c.writeAddress, item.c.WordWidth())
    ensures IsSameAlone(s, t, item, known, SendAlone(t, item, breakOnError))
  {
    var words := PackedWords(item.c, item.value, known);
    SamePacked(item, known, t.cache);
    PackedWidth(item, known);
    StoringAgrees(item, s.cache, t.cache, item.c.address, words);
  }

  /** A converted number is not changed by a mask. */
  lemma ConvertedFits(item: SetupItem)
    requires IsBatchable(item) && item.value.Number? && HoldsNumber(item.c) && IsConverted(item)
    ensures FitsField(item.c, item.value.number)
    ensures item.c.DataWidth() <= 64 ==> BITS.and(item.value.number, BITS.Mask(item.c.DataWidth())) == item.value.number
  {
    NumberFitsWords(item.c);
  }

  lemma CutAlone(s: State, t: State, item: SetupItem, known: Cache, breakOnError: bool)
    requires IsBatchable(item) && IsShareable(item) && IsCutWord(item.c) && SeesSame(item, known, t.cache)
    requires Exists(t.mem.holding, item.c.writeAddress, item.c.WordWidth())
    ensures IsSameAlone(s, t, item, known, SendAlone(t, item, breakOnError))
  {
    var c, value := item.c, item.value.number;
    SamePacked(item, known, t.cache);
    ConvertedFits(item);
    SingleIsNewWord(c, Cached(t.cache, c.address), value);
    OneKnownWord(c, t.cache);
    SingleEffect(t.mem, t.cache, c, value);
    StoringAgrees(item, s.cache, t.cache, c.address, PackedWords(c, item.value, known));
  }

  lemma WholePacked(item: SetupItem, known: Cache)
    requires IsBatchable(item) && item.IsConsistent() && item.value.Number? && IsAloneWord(item.c)
    ensures IsWhole(item) && PackedWords(item.c, item.value, known) == [LowestWord(item.value.number)]
  {
    NumberFitsWords(item.c);
    FullNewWords(item.c, KnownWords(item.c, known), item.value.number);
    LowestWordOf(item.value.number);
  }

  lemma WholeRemembered(item: SetupItem, cache: Cache, other: Cache, known: Cache)
    requires IsBatchable(item) && item.IsConsistent() && item.value.Number? && IsAloneWord(item.c)
    ensures AgreeStill(item, cache, other, Remembered(cache, item, known), other)
  {
    if item.c.accessType != WriteOnly {
      PackedWidth(item, known);
      OneDiffers(item, cache, other, PackedWords(item.c, item.value, known));
    }
  }

  lemma WholeAlone(s: State, t: State, item: SetupItem, known: Cache, breakOnError: bool)
    requires IsBatchable(item) && IsShareable(item) && IsAloneWord(item.c)
    requires Exists(t.mem.holding, item.c.writeAddress, item.c.WordWidth())
    ensures IsSameAlone(s, t, item, known, SendAlone(t, item, breakOnError))
  {
    var c, word := item.c, LowestWord(item.value.number);
    WholeWordEffect(t.mem, t.cache, c, item.value.number);
    WholePacked(item, known);
    OneStored(c.byteOrder, c.writeAddress, word, t.mem.holding);
    WholeRemembered(item, s.cache, t.cache, known);
  }

  lemma LowestWordOf(value: Value)
    ensures WordsOf(value, 1) == [LowestWord(value)]
  {
  }

  lemma {:induction false} OneStored(order: ByteOrder, address: int, word: Word, table: map<int, Word>)
    ensures Stored(table, address, AllInMemory(order, [word])) == table[address := InMemory(order, word)]
  {
    assert AllInMemory(order, [word]) == [InMemory(order, word)];
  }

  lemma OneKnownWord(c: RegisterConfig, cache: Cache)
    requires c.WordWidth() == 1 && c.accessType != WriteOnly
    ensures KnownWords(c, cache) == [Cached(cache, c.address)]
  {
  }

  lemma ItemAlone(s: State, t: State, item: SetupItem, known: Cache, breakOnError: bool)
    requires IsBatchable(item) && IsShareable(item) && SeesSame(item, known, t.cache)
    requires Exists(t.mem.holding, item.c.writeAddress, item.c.WordWidth())
    ensures IsSameAlone(s, t, item, known, SendAlone(t, item, breakOnError))
  {
    if IsPacking(item.c) {
      PackedAlone(s, t, item, known, breakOnError);
    } else if UsesCache(item.c) {
      CutAlone(s, t, item, known, breakOnError);
    } else {
      NumberFitsWords(item.c);
      WholeAlone(s, t, item, known, breakOnError);
    }
  }

  // ----- a write sees the words of its register only -----

  predicate AskAlike(e: Encoding, other: Encoding, value: Value, wordIndex: nat) {
    e.request(value, wordIndex) == other.request(value, wordIndex)
  }

  lemma {:induction false} SameRequests(e: Encoding, other: Encoding, value: Value, n: nat)
    requires forall v, i: nat {:trigger AskAlike(e, other, v, i)} | i < n :: AskAlike(e, other, v, i)
    ensures RequestWords(e, value, n) == RequestWords(other, value, n)
    decreases n
  {
    if n > 0 {
      assert AskAlike(e, other, value, n - 1);
      SameRequests(e, other, WordUp(value), n - 1);
    }
  }

  lemma WordsAskAlike(c: RegisterConfig, cache: Cache, other: Cache, value: Value, i: nat)
    requires SameAt(cache, other, c.address + i)
    ensures AskAlike(EncodingOf(c, cache), EncodingOf(c, other), value, i)
  {
  }

  predicate LieAlike(e: Encoding, other: Encoding, word: Word) {
    e.inMemory(word) == other.inMemory(word)
  }

  lemma {:induction false} SameSingles(
      table: map<int, Word>, tmpCache: Cache, c: RegisterConfig, e: Encoding, other: Encoding, words: seq<Word>)
    requires forall w :: LieAlike(e, other, w)
    ensures WriteSingles(table, tmpCache, c, e, words) == WriteSingles(table, tmpCache, c, other, words)
    decreases |words|
  {
    if words != [] {
      var i := |words| - 1;
      assert LieAlike(e, other, words[i]);
      SameSingles(
        table[c.writeAddress + i := e.inMemory(words[i])],
        if UsesCache(c) then tmpCache[c.address + i := words[i]] else tmpCache, c, e, other, words[..i]);
    }
  }

  lemma {:induction false} SinglesKeepKeys(
      table: map<int, Word>, tmpCache: Cache, c: RegisterConfig, e: Encoding, words: seq<Word>)
    ensures WriteSingles(table, tmpCache, c, e, words).table.Keys == table.Keys
    ensures Exists(table, c.writeAddress, |words|) ==> WriteSingles(table, tmpCache, c, e, words).complete
    decreases |words|
  {
    if words != [] && c.writeAddress + |words| - 1 in table {
      var i := |words| - 1;
      var next := table[c.writeAddress + i := e.inMemory(words[i])];
      assert next.Keys == table.Keys;
      SinglesKeepKeys(next, if UsesCache(c) then tmpCache[c.address + i := words[i]] else tmpCache, c, e, words[..i]);
    }
  }

  /** What the request for an item does depends on what is known of its own words only. */
  lemma WriteSeesWords(mem: Memory, item: SetupItem, cache: Cache, other: Cache)
    requires item.IsConsistent() && !IsWhole(item) && SeesSame(item, cache, other)
    ensures IsSameEffect(
      item, cache, other, Write(mem, cache, item.c, item.value), Write(mem, other, item.c, item.value))
  {
    if item.c.IsHolding() && HasRightType(item.c, item.value) {
      if IsPacking(item.c) {
        PackedSeesWords(mem, item, cache, other);
      } else {
        SingleSeesWords(mem, item, cache, other);
      }
    } else {
      NothingAgreesLess(item, cache, other);
    }
  }

  ghost predicate IsSameEffect(item: SetupItem, cache: Cache, other: Cache, a: Effect, b: Effect) {
    a.memory == b.memory && a.result == b.result && AgreeStill(item, cache, other, a.cache, b.cache)
  }

  lemma PackedSeesWords(mem: Memory, item: SetupItem, cache: Cache, other: Cache)
    requires item.IsConsistent() && SeesSame(item, cache, other)
    requires item.c.IsHolding() && IsPacking(item.c) && HasRightType(item.c, item.value)
    ensures IsSameEffect(
      item, cache, other, Write(mem, cache, item.c, item.value), Write(mem, other, item.c, item.value))
  {
    var words := PackedWords(item.c, item.value, cache);
    SamePacked(item, cache, other);
    PackedIsSame(mem, item, cache, other, words);
    assert Write(mem, other, item.c, item.value) == PackedEffect(mem, other, item.c, words);
  }

  lemma PackedIsSame(mem: Memory, item: SetupItem, cache: Cache, other: Cache, words: seq<Word>)
    ensures IsSameEffect(
      item, cache, other, PackedEffect(mem, cache, item.c, words), PackedEffect(mem, other, item.c, words))
  {
    NothingAgreesLess(item, cache, other);
    StoringAgrees(item, cache, other, item.c.address, words);
  }

  lemma SingleSeesWords(mem: Memory, item: SetupItem, cache: Cache, other: Cache)
    requires item.IsConsistent() && !IsWhole(item) && SeesSame(item, cache, other)
    requires item.c.IsHolding() && !IsPacking(item.c) && HasRightType(item.c, item.value)
    ensures IsSameEffect(
      item, cache, other, Write(mem, cache, item.c, item.value), Write(mem, other, item.c, item.value))
  {
    NothingAgreesLess(item, cache, other);
    SinglesSeeWords(mem.holding, item, cache, other);
  }

  lemma NothingAgreesLess(item: SetupItem, cache: Cache, other: Cache)
    ensures AgreeStill(item, cache, other, cache, other)
  {
  }

  lemma {:induction false} SinglesSeeWords(table: map<int, Word>, item: SetupItem, cache: Cache, other: Cache)
    requires item.value.Number? && !IsWhole(item) && SeesSame(item, cache, other)
    ensures var e, f, width, value :=
        EncodingOf(item.c, cache), EncodingOf(item.c, other), item.c.WordWidth(), item.value.number;
      var r := WriteSingles(table, map[], item.c, e, RequestWords(e, value, width));
      && r == WriteSingles(table, map[], item.c, f, RequestWords(f, value, width))
      && AgreeStill(item, cache, other, cache + r.tmpCache, other + r.tmpCache)
  {
    var e, f, width, value :=
      EncodingOf(item.c, cache), EncodingOf(item.c, other), item.c.WordWidth(), item.value.number;
    forall w ensures LieAlike(e, f, w) {
    }
    forall v, i: nat | i < width ensures AskAlike(e, f, v, i) {
      assert HasWord(item.c, item.c.address + i);
      WordsAskAlike(item.c, cache, other, v, i);
    }
    SameRequests(e, f, value, width);
    SameSingles(table, map[], item.c, e, f, RequestWords(e, value, width));
  }

  lemma WordsExistStill(table: map<int, Word>, newTable: map<int, Word>, address: int, count: nat)
    requires newTable.Keys == table.Keys && Exists(table, address, count)
    ensures Exists(newTable, address, count)
  {
  }

  lemma {:induction false} StoredKeys(table: map<int, Word>, address: int, words: seq<Word>)
    requires Exists(table, address, |words|)
    ensures Stored(table, address, words).Keys == table.Keys
  {
    if words != [] {
      StoredKeys(table, address, words[..|words| - 1]);
    }
  }

  lemma PackedKeepsKeys(mem: Memory, cache: Cache, c: RegisterConfig, words: seq<Word>)
    ensures PackedEffect(mem, cache, c, words).memory.holding.Keys == mem.holding.Keys
  {
    if Exists(mem.holding, c.writeAddress, |words|) {
      StoredKeys(mem.holding, c.writeAddress, AllInMemory(c.byteOrder, words));
    }
  }

  lemma SingleKeepsKeys(mem: Memory, cache: Cache, c: RegisterConfig, value: RegisterValue)
    requires c.IsHolding() && !IsPacking(c) && HasRightType(c, value)
    ensures Write(mem, cache, c, value).memory.holding.Keys == mem.holding.Keys
  {
    var e := EncodingOf(c, cache);
    SinglesKeepKeys(mem.holding, map[], c, e, RequestWords(e, value.number, c.WordWidth()));
  }

  lemma WriteKeepsKeys(mem: Memory, cache: Cache, item: SetupItem)
    requires item.IsConsistent()
    ensures Write(mem, cache, item.c, item.value).memory.holding.Keys == mem.holding.Keys
  {
    if item.c.IsHolding() && HasRightType(item.c, item.value) {
      if IsPacking(item.c) {
        PackedKeepsKeys(mem, cache, item.c, PackedWords(item.c, item.value, cache));
      } else {
        SingleKeepsKeys(mem, cache, item.c, item.value);
      }
    }
  }

  // ----- an item in step -----

  /** A batch can hold the item only if its words exist and it is the same alone. */
  predicate IsSendable(item: SetupItem, table: map<int, Word>) {
    IsBatchable(item) ==> IsShareable(item) && Exists(table, item.c.writeAddress, item.c.WordWidth())
  }

  ghost predicate AllSendable(items: seq<SetupItem>, table: map<int, Word>) {
    forall item {:trigger IsSendable(item, table)} | item in items :: IsSendable(item, table)
  }

  lemma SendableStill(items: seq<SetupItem>, table: map<int, Word>, newTable: map<int, Word>)
    requires AllSendable(items, table) && newTable.Keys == table.Keys
    ensures AllSendable(items, newTable)
  {
    forall item | item in items ensures IsSendable(item, newTable) {
      assert IsSendable(item, table);
      if IsBatchable(item) {
        WordsExistStill(table, newTable, item.c.writeAddress, item.c.WordWidth());
      }
    }
  }

  predicate SharesNoWord(c: RegisterConfig, other: RegisterConfig) {
    c.address + c.WordWidth() <= other.address || other.address + other.WordWidth() <= c.address
  }

  /** The later item may come in the same request, which does not see what the request is going to change. */
  predicate MayShareRequest(later: SetupItem, earlier: SetupItem) {
    && IsBatchable(later) && IsBatchable(earlier)
    && earlier.c.writeAddress + earlier.c.WordWidth() <= later.c.writeAddress
  }

  /**
   An item does not need to know its words, or shares none of them with one before it, or that one is remembered alike
   in a batch and alone, in another request.
   */
  predicate DoesNotDepend(later: SetupItem, earlier: SetupItem) {
    || IsWhole(later)
    || SharesNoWord(later.c, earlier.c)
    || (!IsRememberedInBatchOnly(earlier) && !MayShareRequest(later, earlier))
  }

  ghost predicate NoneDepends(items: seq<SetupItem>) {
    forall i, j {:trigger DoesNotDepend(items[j], items[i])} | 0 <= i < j < |items| :: DoesNotDepend(items[j], items[i])
  }

  ghost predicate AllSeeSame(items: seq<SetupItem>, from: nat, to: nat, cache: Cache, other: Cache)
    requires to <= |items|
  {
    forall j {:trigger SeesSame(items[j], cache, other)} | from <= j < to :: SeesSame(items[j], cache, other)
  }

  lemma ApartHasNone(later: SetupItem, earlier: SetupItem, a: int)
    requires SharesNoWord(later.c, earlier.c) && HasWord(later.c, a)
    ensures !HasWord(earlier.c, a)
  {
  }

  lemma OneSeesSame(
      later: SetupItem, earlier: SetupItem, cache: Cache, other: Cache, after: Cache, otherAfter: Cache)
    requires SeesSame(later, cache, other) && DoesNotDepend(later, earlier)
    requires AgreeStill(earlier, cache, other, after, otherAfter)
    ensures SeesSame(later, after, otherAfter)
  {
    if !IsWhole(later) {
      forall a | HasWord(later.c, a) ensures SameAt(after, otherAfter, a) {
        assert SameAt(cache, other, a);
        if SharesNoWord(later.c, earlier.c) {
          ApartHasNone(later, earlier, a);
        }
        assert !MayDiffer(earlier, a);
      }
    }
  }

  /** One of the items is written. */
  lemma OthersSeeSame(
      items: seq<SetupItem>, i: nat, cache: Cache, other: Cache, after: Cache, otherAfter: Cache)
    requires i < |items| && NoneDepends(items) && AllSeeSame(items, i, |items|, cache, other)
    requires AgreeStill(items[i], cache, other, after, otherAfter)
    ensures AllSeeSame(items, i + 1, |items|, after, otherAfter)
  {
    forall j | i + 1 <= j < |items| ensures SeesSame(items[j], after, otherAfter) {
      assert SeesSame(items[j], cache, other) && DoesNotDepend(items[j], items[i]);
      OneSeesSame(items[j], items[i], cache, other, after, otherAfter);
    }
  }

  /** The memories are the same, and the items that are left know their words alike. */
  ghost predicate AreInStep(s: State, t: State, items: seq<SetupItem>, from: nat)
    requires from <= |items|
  {
    s.running == t.running && s.mem == t.mem && AllSeeSame(items, from, |items|, s.cache, t.cache)
  }

  /** Without batches, an item that could be in one is sent alone on both sides. */
  lemma BothAlone(s: State, t: State, item: SetupItem, breakOnError: bool)
    requires IsBatchable(item) && IsSendable(item, s.mem.holding) && s.mem == t.mem
    requires SeesSame(item, s.cache, t.cache)
    ensures var a, b := SendAlone(s, item, breakOnError), SendAlone(t, item, breakOnError);
      && a.running && b.running && a.mem == b.mem
      && AgreeStill(item, s.cache, t.cache, a.cache, b.cache)
  {
    var a, b := SendAlone(s, item, breakOnError), SendAlone(t, item, breakOnError);
    ItemAlone(s, s, item, s.cache, breakOnError);
    ItemAlone(s, t, item, s.cache, breakOnError);
    forall x | SameAt(s.cache, t.cache, x) && !MayDiffer(item, x) ensures SameAt(a.cache, b.cache, x) {
      var cache := Remembered(s.cache, item, s.cache);
      assert SameAt(s.cache, s.cache, x) && SameAt(cache, a.cache, x) && SameAt(cache, b.cache, x);
    }
  }

  lemma AloneInStep(s: State, t: State, items: seq<SetupItem>, i: nat, breakOnError: bool)
    requires i < |items| && NoneDepends(items) && AreInStep(s, t, items, i)
    requires items[i].IsConsistent() && AllSendable(items, s.mem.holding)
    ensures var a, b := SendAlone(s, items[i], breakOnError), SendAlone(t, items[i], breakOnError);
      AreInStep(a, b, items, i + 1) && AllSendable(items, a.mem.holding)
  {
    var item := items[i];
    var a, b := SendAlone(s, item, breakOnError), SendAlone(t, item, breakOnError);
    assert SeesSame(item, s.cache, t.cache) && IsSendable(item, s.mem.holding);
    if IsBatchable(item) {
      BothAlone(s, t, item, breakOnError);
    } else {
      WriteSeesWords(s.mem, item, s.cache, t.cache);
    }
    OthersSeeSame(items, i, s.cache, t.cache, a.cache, b.cache);
    WriteKeepsKeys(s.mem, s.cache, item);
    SendableStill(items, s.mem.holding, a.mem.holding);
  }

  // ----- a batch in step -----

  /** Neighbours take addresses in ascending order. */
  lemma {:induction false} NeighboursAscend(items: seq<SetupItem>, from: nat, end: nat, i: nat, j: nat)
    requires from <= i < j < end <= |items| && AreNeighbours(items, from, end)
    ensures items[i].c.writeAddress + items[i].c.WordWidth() <= items[j].c.writeAddress
    decreases j
  {
    assert Continues(items[j - 1], items[j]);
    if i < j - 1 {
      NeighboursAscend(items, from, end, i, j - 1);
    }
  }

  lemma {:induction false} NeighboursAreBatchable(items: seq<SetupItem>, from: nat, end: nat, i: nat)
    requires from <= i < end <= |items| && IsBatchable(items[from]) && AreNeighbours(items, from, end)
    ensures IsBatchable(items[i])
  {
    if from < i {
      NeighboursAreBatchable(items, from, end, i - 1);
      assert Continues(items[i - 1], items[i]);
    }
  }

  /** The items of a batch that are left are known as they were when it began. */
  lemma KnownStill(
      items: seq<SetupItem>, from: nat, end: nat, i: nat, known: Cache, cache: Cache, after: Cache)
    requires from <= i < end <= |items| && IsBatchable(items[from]) && AreNeighbours(items, from, end)
    requires NoneDepends(items) && AllSeeSame(items, i, end, known, cache) && OnlyTouches(cache, after, items[i].c)
    ensures AllSeeSame(items, i + 1, end, known, after)
  {
    forall j | i + 1 <= j < end ensures SeesSame(items[j], known, after) {
      assert SeesSame(items[j], known, cache) && DoesNotDepend(items[j], items[i]);
      NeighboursAscend(items, from, end, i, j);
      NeighboursAreBatchable(items, from, end, i);
      NeighboursAreBatchable(items, from, end, j);
      NotTouched(items[j], items[i], known, cache, after);
    }
  }

  lemma NotTouched(later: SetupItem, earlier: SetupItem, known: Cache, cache: Cache, after: Cache)
    requires SeesSame(later, known, cache) && OnlyTouches(cache, after, earlier.c)
    requires IsWhole(later) || SharesNoWord(later.c, earlier.c)
    ensures SeesSame(later, known, after)
  {
    if !IsWhole(later) {
      forall a | HasWord(later.c, a) ensures SameAt(known, after, a) {
        ApartHasNone(later, earlier, a);
        assert SameAt(known, cache, a) && SameAt(cache, after, a);
      }
    }
  }

  /** Items put into a batch one after another. */
  function AllInBatch(state: State, items: seq<SetupItem>, from: nat, end: nat, e: ItemEncoding, words: WordsFor): State
    requires from <= end <= |items|
    decreases end
  {
    if from == end then state
    else InBatch(AllInBatch(state, items, from, end - 1, e, words), items[end - 1], e, words)
  }

  /** A state within a batch, and one that comes item by item. */
  ghost predicate AreInStepWithin(s: State, t: State, items: seq<SetupItem>, i: nat, end: nat, known: Cache)
    requires i <= end <= |items|
  {
    && s.running && AreInStep(s, t, items, i)
    && AllSendable(items, s.mem.holding) && AllSeeSame(items, i, end, known, s.cache)
  }

  lemma ItemInStep(
      s: State, t: State, items: seq<SetupItem>, from: nat, end: nat, i: nat, known: Cache, e: ItemEncoding,
      breakOnError: bool)
    requires from <= i < end <= |items| && IsBatchable(items[from]) && AreNeighbours(items, from, end)
    requires NoneDepends(items) && AreInStepWithin(s, t, items, i, end, known) && EncodesItems(e, known)
    ensures var after := InBatch(s, items[i], e, PackedInMemory(known));
      AreInStepWithin(after, SendAlone(t, items[i], breakOnError), items, i + 1, end, known)
  {
    var item := items[i];
    var after, alone := InBatch(s, item, e, PackedInMemory(known)), SendAlone(t, item, breakOnError);
    NeighboursAreBatchable(items, from, end, i);
    assert IsSendable(item, s.mem.holding) && SeesSame(item, known, s.cache) && SeesSame(item, s.cache, t.cache);
    SeesSameTwice(item, known, s.cache, t.cache);
    ItemAlone(s, t, item, known, breakOnError);
    assert EncodesItem(e, known, s.cache, item);
    OthersSeeSame(items, i, s.cache, t.cache, after.cache, alone.cache);
    PackedWidth(item, known);
    RememberedTouches(s.cache, item, known);
    KnownStill(items, from, end, i, known, s.cache, after.cache);
    StoredKeys(s.mem.holding, item.c.writeAddress, PackedInMemory(known)(item));
    SendableStill(items, s.mem.holding, after.mem.holding);
  }

  // ----- the request of a batch -----

  predicate RemembersApart(e: ItemEncoding, cache: Cache, tmpCache: Cache, item: SetupItem) {
    cache + e.remember(tmpCache, item) == e.remember(cache + tmpCache, item)
  }

  lemma {:induction false} StoredMerges(cache: Cache, tmpCache: Cache, address: int, words: seq<Word>)
    ensures cache + Stored(tmpCache, address, words) == Stored(cache + tmpCache, address, words)
  {
    if words != [] {
      StoredMerges(cache, tmpCache, address, words[..|words| - 1]);
    }
  }

  lemma RemembersMerged(known: Cache, e: ItemEncoding, cache: Cache, tmpCache: Cache, item: SetupItem)
    requires EncodesItems(e, known) && item.IsConsistent()
    ensures RemembersApart(e, cache, tmpCache, item)
  {
    assert EncodesItem(e, known, tmpCache, item) && EncodesItem(e, known, cache + tmpCache, item);
    StoredMerges(cache, tmpCache, item.c.address, PackedWords(item.c, item.value, known));
  }

  /** What a batch stores and remembers is what its items do one after another. */
  lemma {:induction false} BatchIsItems(
      state: State, items: seq<SetupItem>, from: nat, end: nat, e: ItemEncoding, words: WordsFor)
    requires from <= end <= |items|
    requires forall tmpCache, i | from <= i < end :: RemembersApart(e, state.cache, tmpCache, items[i])
    ensures AllInBatch(state, items, from, end, e, words) == State(
      state.mem.(holding := PutAll(state.mem.holding, items[from..end], words)),
      state.cache + BatchCache(items[from..end], e), state.running)
    decreases end
  {
    if from == end {
      assert state.cache + map[] == state.cache;
    } else {
      var last := items[end - 1];
      BatchIsItems(state, items, from, end - 1, e, words);
      assert items[from..end][..end - 1 - from] == items[from..end - 1];
      assert RemembersApart(e, state.cache, BatchCache(items[from..end - 1], e), last);
    }
  }

  /** Neighbours that exist one by one exist together. */
  lemma {:induction false} NeighboursExist(table: map<int, Word>, batch: seq<SetupItem>, address: int)
    requires forall item | item in batch :: Exists(table, item.c.writeAddress, item.c.WordWidth())
    requires forall item | item in batch :: 0 < item.c.WordWidth()
    requires batch != [] ==> address == batch[0].c.writeAddress
    requires forall j | 0 < j < |batch| :: Continues(batch[j - 1], batch[j])
    ensures Exists(table, address, TotalWidth(batch))
    ensures batch != [] ==> batch[|batch| - 1].c.writeAddress + batch[|batch| - 1].c.WordWidth() == address + TotalWidth(batch)
    ensures |batch| <= TotalWidth(batch)
  {
    if batch != [] {
      var front, last := batch[..|batch| - 1], batch[|batch| - 1];
      NeighboursExist(table, front, address);
      assert last in batch;
      if front != [] {
        assert Continues(batch[|front| - 1], batch[|front|]);
      }
    }
  }

  lemma NumberBrings(item: SetupItem, known: Cache, e: ItemEncoding)
    requires HasNumber(item) && EncodesItems(e, known)
    ensures BringsWords(e, PackedInMemory(known), item)
  {
    assert EncodesItem(e, known, map[], item);
    PackedWidth(item, known);
    BytesAreReceived(item.c.byteOrder, PackedWords(item.c, item.value, known));
  }

  ghost predicate AllHaveNumbers(batch: seq<SetupItem>, table: map<int, Word>) {
    forall item {:trigger HasNumber(item)} | item in batch ::
      HasNumber(item) && Exists(table, item.c.writeAddress, item.c.WordWidth())
  }

  lemma BatchContinues(items: seq<SetupItem>, from: nat, end: nat)
    requires from < end <= |items| && AreNeighbours(items, from, end)
    ensures forall j | 0 < j < |items[from..end]| :: Continues(items[from..end][j - 1], items[from..end][j])
  {
    forall j | 0 < j < end - from ensures Continues(items[from..end][j - 1], items[from..end][j]) {
      assert Continues(items[from + j - 1], items[from + j]);
    }
  }

  lemma {:induction false} DataSent(
      state: State, address: int, data: seq<Byte>, count: nat, tmpCache: Cache, words: seq<Word>, breakOnError: bool)
    requires 0 < count && |data| == 2 * count && Exists(state.mem.holding, address, count) && Received(data) == words
    ensures SendBatch(state, address, data, count, tmpCache, breakOnError) == State(
      state.mem.(holding := Stored(state.mem.holding, address, words)), state.cache + tmpCache, true)
  {
  }

  /** The data of a batch is right, and stores its items one after another. */
  lemma {:induction false} BatchStored(table: map<int, Word>, batch: seq<SetupItem>, e: ItemEncoding, words: WordsFor)
    requires batch != [] && AllHaveNumbers(batch, table) && forall item | item in batch :: BringsWords(e, words, item)
    requires forall j | 0 < j < |batch| :: Continues(batch[j - 1], batch[j])
    ensures 0 < TotalWidth(batch) && |BatchData(batch, e)| == 2 * TotalWidth(batch)
    ensures Exists(table, batch[0].c.writeAddress, TotalWidth(batch))
    ensures Received(BatchData(batch, e)) == Concat(batch, words)
    ensures Stored(table, batch[0].c.writeAddress, Concat(batch, words)) == PutAll(table, batch, words)
  {
    forall item | item in batch ensures HasWidth(words, item) {
      assert BringsWords(e, words, item);
    }
    BatchIsReceived(batch, e, words);
    NeighboursStored(table, batch, words, batch[0].c.writeAddress);
    NumbersExist(table, batch);
  }

  /** A request with the data of a batch puts its items into memory, however they are encoded. */
  lemma {:induction false} BatchSentWith(
      state: State, items: seq<SetupItem>, from: nat, end: nat, e: ItemEncoding, words: WordsFor, breakOnError: bool)
    requires from < end <= |items| && state.running
    requires AllHaveNumbers(items[from..end], state.mem.holding) && AreNeighbours(items, from, end)
    requires forall item | item in items[from..end] :: BringsWords(e, words, item)
    requires forall tmpCache, i | from <= i < end :: RemembersApart(e, state.cache, tmpCache, items[i])
    ensures var batch := items[from..end];
      SendBatch(
        state, batch[0].c.writeAddress, BatchData(batch, e), TotalWidth(batch), BatchCache(batch, e), breakOnError)
      == AllInBatch(state, items, from, end, e, words)
  {
    var batch := items[from..end];
    BatchContinues(items, from, end);
    BatchStored(state.mem.holding, batch, e, words);
    DataSent(
      state, batch[0].c.writeAddress, BatchData(batch, e), TotalWidth(batch), BatchCache(batch, e),
      Concat(batch, words), breakOnError);
    BatchIsItems(state, items, from, end, e, words);
  }

  lemma {:induction false} BatchSent(
      state: State, items: seq<SetupItem>, from: nat, end: nat, e: ItemEncoding, known: Cache, breakOnError: bool)
    requires from < end <= |items| && state.running && EncodesItems(e, known)
    requires AllHaveNumbers(items[from..end], state.mem.holding) && AreNeighbours(items, from, end)
    ensures var batch := items[from..end];
      SendBatch(
        state, batch[0].c.writeAddress, BatchData(batch, e), TotalWidth(batch), BatchCache(batch, e), breakOnError)
      == AllInBatch(state, items, from, end, e, PackedInMemory(known))
  {
    forall item | item in items[from..end] ensures BringsWords(e, PackedInMemory(known), item) {
      assert HasNumber(item);
      NumberBrings(item, known, e);
    }
    forall tmpCache, i | from <= i < end ensures RemembersApart(e, state.cache, tmpCache, items[i]) {
      assert items[i] in items[from..end] && HasNumber(items[i]);
      RemembersMerged(known, e, state.cache, tmpCache, items[i]);
    }
    BatchSentWith(state, items, from, end, e, PackedInMemory(known), breakOnError);
  }

  lemma {:induction false} NumbersExist(table: map<int, Word>, batch: seq<SetupItem>)
    requires batch != [] && AllHaveNumbers(batch, table)
    requires forall j | 0 < j < |batch| :: Continues(batch[j - 1], batch[j])
    ensures Exists(table, batch[0].c.writeAddress, TotalWidth(batch)) && 0 < TotalWidth(batch)
  {
    forall item | item in batch
      ensures Exists(table, item.c.writeAddress, item.c.WordWidth()) && 0 < item.c.WordWidth()
    {
      assert HasNumber(item);
    }
    NeighboursExist(table, batch, batch[0].c.writeAddress);
  }

  // ----- one by one -----

  type Sender = (State, SetupItem) -> State

  /** Items from an index on, each sent in some way. */
  function SendEach(send: Sender, state: State, items: seq<SetupItem>, from: nat): State
    requires from <= |items|
    decreases |items| - from
  {
    if !state.running || from == |items| then state
    else SendEach(send, send(state, items[from]), items, from + 1)
  }

  function AloneSender(breakOnError: bool): Sender {
    (state: State, item: SetupItem) => SendAlone(state, item, breakOnError)
  }

  /** Every item by a request of its own. */
  function SendOneByOne(state: State, items: seq<SetupItem>, breakOnError: bool): State {
    SendEach(AloneSender(breakOnError), state, items, 0)
  }

  predicate SendsAlone(send: Sender, breakOnError: bool, state: State, item: SetupItem) {
    send(state, item) == SendAlone(state, item, breakOnError)
  }

  ghost predicate IsAlone(send: Sender, breakOnError: bool) {
    forall state, item {:trigger SendsAlone(send, breakOnError, state, item)} :: SendsAlone(send, breakOnError, state, item)
  }

  lemma AloneSent(send: Sender, state: State, item: SetupItem, breakOnError: bool)
    requires IsAlone(send, breakOnError)
    ensures send(state, item) == SendAlone(state, item, breakOnError)
  {
    assert SendsAlone(send, breakOnError, state, item);
  }

  lemma AloneSenderIsAlone(breakOnError: bool)
    ensures IsAlone(AloneSender(breakOnError), breakOnError)
  {
  }

  predicate PacksItem(words: WordsFor, known: Cache, item: SetupItem) {
    words(item) == PackedInMemory(known)(item)
  }

  /** How a batch encodes its items, and how their words then lie in memory. */
  ghost predicate IsBatchOf(e: ItemEncoding, words: WordsFor, known: Cache) {
    && EncodesItems(e, known)
    && forall item {:trigger PacksItem(words, known, item)} :: PacksItem(words, known, item)
  }

  lemma BatchOf(known: Cache)
    ensures IsBatchOf(EncodingWith(known), PackedInMemory(known), known)
  {
    EncodingWithEncodes(known);
  }

  lemma NextInStep(
      s: State, t: State, items: seq<SetupItem>, from: nat, end: nat, i: nat, known: Cache, e: ItemEncoding,
      words: WordsFor, send: Sender, breakOnError: bool)
    requires from <= i < end <= |items| && IsBatchable(items[from]) && AreNeighbours(items, from, end)
    requires NoneDepends(items) && AreInStepWithin(s, t, items, i, end, known)
    requires IsBatchOf(e, words, known) && IsAlone(send, breakOnError)
    ensures AreInStepWithin(InBatch(s, items[i], e, words), send(t, items[i]), items, i + 1, end, known)
  {
    AloneSent(send, t, items[i], breakOnError);
    assert PacksItem(words, known, items[i]);
    ItemInStep(s, t, items, from, end, i, known, e, breakOnError);
    assert InBatch(s, items[i], e, words) == InBatch(s, items[i], e, PackedInMemory(known));
  }

  /** What is known when the items up to some index have been put in a batch, and written one by one. */
  ghost predicate IsBatchSoFar(
      s: State, t: State, within: State, after: State, items: seq<SetupItem>, from: nat, end: nat, i: nat,
      e: ItemEncoding, words: WordsFor, send: Sender)
    requires from <= i <= end <= |items|
  {
    && within == AllInBatch(s, items, from, i, e, words)
    && AreInStepWithin(within, after, items, i, end, s.cache)
    && SendEach(send, t, items, from) == SendEach(send, after, items, i)
  }

  lemma OneMoreInBatch(
      s: State, t: State, within: State, alone: State, items: seq<SetupItem>, from: nat, end: nat, i: nat,
      e: ItemEncoding, words: WordsFor, send: Sender, breakOnError: bool)
    returns (more: State, after: State)
    requires from < i <= end <= |items| && IsBatchable(items[from]) && AreNeighbours(items, from, end)
    requires NoneDepends(items) && IsAlone(send, breakOnError) && IsBatchOf(e, words, s.cache)
    requires IsBatchSoFar(s, t, within, alone, items, from, end, i - 1, e, words, send)
    ensures IsBatchSoFar(s, t, more, after, items, from, end, i, e, words, send)
  {
    more, after := InBatch(within, items[i - 1], e, words), send(alone, items[i - 1]);
    NextInStep(within, alone, items, from, end, i - 1, s.cache, e, words, send, breakOnError);
  }

  /** While a batch is put together, its items are written one by one. */
  lemma {:induction false} BatchInStep(
      s: State, t: State, items: seq<SetupItem>, from: nat, end: nat, i: nat, e: ItemEncoding, words: WordsFor,
      send: Sender, breakOnError: bool)
    returns (within: State, after: State)
    requires from <= i <= end <= |items| && from < end && IsBatchable(items[from]) && AreNeighbours(items, from, end)
    requires NoneDepends(items) && AreInStepWithin(s, t, items, from, end, s.cache)
    requires IsAlone(send, breakOnError) && IsBatchOf(e, words, s.cache)
    ensures IsBatchSoFar(s, t, within, after, items, from, end, i, e, words, send)
    decreases i
  {
    if from == i {
      within, after := s, t;
    } else {
      var before, alone := BatchInStep(s, t, items, from, end, i - 1, e, words, send, breakOnError);
      within, after := OneMoreInBatch(s, t, before, alone, items, from, end, i, e, words, send, breakOnError);
    }
  }

  lemma BatchSentInStep(
      s: State, t: State, items: seq<SetupItem>, from: nat, maxRegs: nat, send: Sender, breakOnError: bool)
    returns (next: State, after: State)
    requires from < |items| && AllConsistent(items) && NoneDepends(items)
    requires s.running && AreInStep(s, t, items, from) && AllSendable(items, s.mem.holding)
    requires CanStart(items[from], maxRegs) && IsAlone(send, breakOnError)
    ensures var end := Batch(items, from, maxRegs).0;
      && next == Send(s, items, Request(from, end, true), breakOnError)
      && AreInStep(next, after, items, end) && AllSendable(items, next.mem.holding)
      && SendEach(send, t, items, from) == SendEach(send, after, items, end)
  {
    var end := Batch(items, from, maxRegs).0;
    BatchIsProper(items, from, maxRegs);
    BatchOf(s.cache);
    next, after := BatchInStep(
      s, t, items, from, end, end, EncodingWith(s.cache), PackedInMemory(s.cache), send, breakOnError);
    AllAreNumbers(s.mem.holding, items, from, end);
    BatchSent(s, items, from, end, EncodingWith(s.cache), s.cache, breakOnError);
  }

  lemma AllAreNumbers(table: map<int, Word>, items: seq<SetupItem>, from: nat, end: nat)
    requires from < end <= |items| && IsBatchable(items[from]) && AreNeighbours(items, from, end)
    requires AllSendable(items, table)
    ensures AllHaveNumbers(items[from..end], table)
  {
    forall item | item in items[from..end]
      ensures HasNumber(item) && Exists(table, item.c.writeAddress, item.c.WordWidth())
    {
      var i :| from <= i < end && items[i] == item;
      NeighboursAreBatchable(items, from, end, i);
      assert IsSendable(item, table);
    }
  }

  lemma {:induction false} BatchStep(
      state: State, items: seq<SetupItem>, from: nat, end: nat, maxRegs: nat, breakOnError: bool)
    requires from < end <= |items| && AllConsistent(items) && state.running
    requires CanStart(items[from], maxRegs) && Batch(items, from, maxRegs) == (end, false)
    ensures SendFrom(state, items, from, maxRegs, breakOnError)
         == SendFrom(Send(state, items, Request(from, end, true), breakOnError), items, end, maxRegs, breakOnError)
  {
  }

  lemma {:induction false} AloneStep(state: State, items: seq<SetupItem>, from: nat, maxRegs: nat, breakOnError: bool)
    requires from < |items| && AllConsistent(items) && state.running && !CanStart(items[from], maxRegs)
    ensures var next := SendAlone(state, items[from], breakOnError);
      SendFrom(state, items, from, maxRegs, breakOnError) == SendFrom(next, items, from + 1, maxRegs, breakOnError)
  {
  }

  /** An item that is not batched, or a batch, is sent. */
  lemma NextSent(s: State, t: State, items: seq<SetupItem>, from: nat, maxRegs: nat, send: Sender, breakOnError: bool)
    returns (end: nat, next: State, after: State)
    requires from < |items| && AllConsistent(items) && NoneDepends(items) && s.running
    requires AreInStep(s, t, items, from) && AllSendable(items, s.mem.holding) && NothingIsLost(items, from, maxRegs)
    requires IsAlone(send, breakOnError)
    ensures from < end <= |items| && NothingIsLost(items, end, maxRegs)
    ensures AreInStep(next, after, items, end) && AllSendable(items, next.mem.holding)
    ensures SendFrom(s, items, from, maxRegs, breakOnError) == SendFrom(next, items, end, maxRegs, breakOnError)
    ensures SendEach(send, t, items, from) == SendEach(send, after, items, end)
  {
    if CanStart(items[from], maxRegs) {
      end := Batch(items, from, maxRegs).0;
      next, after := BatchSentInStep(s, t, items, from, maxRegs, send, breakOnError);
      BatchLoses(items, from, maxRegs);
      BatchStep(s, items, from, end, maxRegs, breakOnError);
    } else {
      assert items[from].IsConsistent();
      AloneSent(send, t, items[from], breakOnError);
      end, next, after := from + 1, SendAlone(s, items[from], breakOnError), send(t, items[from]);
      AloneInStep(s, t, items, from, breakOnError);
      AloneLosesNothing(items, from, maxRegs);
      AloneStep(s, items, from, maxRegs, breakOnError);
    }
  }

  /** Batches keep in step with single requests. */
  lemma {:induction false} StaysInStep(
      s: State, t: State, items: seq<SetupItem>, from: nat, maxRegs: nat, send: Sender, breakOnError: bool)
    returns (batched: State)
    requires from <= |items| && AllConsistent(items) && NoneDepends(items)
    requires AreInStep(s, t, items, from) && AllSendable(items, s.mem.holding) && NothingIsLost(items, from, maxRegs)
    requires IsAlone(send, breakOnError)
    ensures batched == SendFrom(s, items, from, maxRegs, breakOnError)
    ensures var alone := SendEach(send, t, items, from); batched.running == alone.running && batched.mem == alone.mem
    decreases |items| - from
  {
    if s.running && from < |items| {
      var end, next, after := NextSent(s, t, items, from, maxRegs, send, breakOnError);
      batched := StaysInStep(next, after, items, end, maxRegs, send, breakOnError);
    } else {
      batched := s;
    }
  }

  /** A request of its own for the item is written. */
  predicate IsAccepted(item: SetupItem, table: map<int, Word>) {
    && item.c.IsHolding() && HasRightType(item.c, item.value)
    && Exists(table, item.c.writeAddress, item.c.WordWidth())
    && (!IsPacking(item.c) && UsesCache(item.c) ==> item.c.accessType != WriteOnly)
  }

  ghost predicate AllAccepted(items: seq<SetupItem>, table: map<int, Word>) {
    forall item {:trigger IsAccepted(item, table)} | item in items :: IsAccepted(item, table)
  }

  lemma AcceptedIsWritten(mem: Memory, cache: Cache, item: SetupItem)
    requires item.IsConsistent() && IsAccepted(item, mem.holding)
    ensures Write(mem, cache, item.c, item.value).result == Written
  {
    var c := item.c;
    if IsPacking(c) {
      PackedWidth(item, cache);
    } else {
      var e := EncodingOf(c, cache);
      SinglesKeepKeys(mem.holding, map[], c, e, RequestWords(e, item.value.number, c.WordWidth()));
    }
  }

  lemma AcceptedNext(state: State, items: seq<SetupItem>, i: nat, send: Sender, breakOnError: bool)
    requires i < |items| && AllConsistent(items) && AllAccepted(items, state.mem.holding) && IsAlone(send, breakOnError)
    ensures var next := send(state, items[i]); next.running && AllAccepted(items, next.mem.holding)
  {
    var item, next := items[i], SendAlone(state, items[i], breakOnError);
    assert item.IsConsistent() && IsAccepted(item, state.mem.holding);
    AloneSent(send, state, item, breakOnError);
    AcceptedIsWritten(state.mem, state.cache, item);
    WriteKeepsKeys(state.mem, state.cache, item);
    AcceptedStill(items, state.mem.holding, next.mem.holding);
  }

  lemma {:induction false} AcceptedRun(
      state: State, items: seq<SetupItem>, from: nat, send: Sender, breakOnError: bool)
    requires from <= |items| && AllConsistent(items) && state.running && AllAccepted(items, state.mem.holding)
    requires IsAlone(send, breakOnError)
    ensures SendEach(send, state, items, from).running
    decreases |items| - from
  {
    if from < |items| {
      AcceptedNext(state, items, from, send, breakOnError);
      AcceptedRun(send(state, items[from]), items, from + 1, send, breakOnError);
    }
  }

  lemma AcceptedStill(items: seq<SetupItem>, table: map<int, Word>, newTable: map<int, Word>)
    requires AllAccepted(items, table) && newTable.Keys == table.Keys
    ensures AllAccepted(items, newTable)
  {
    forall item | item in items ensures IsAccepted(item, newTable) {
      assert IsAccepted(item, table);
      WordsExistStill(table, newTable, item.c.writeAddress, item.c.WordWidth());
    }
  }

  /**
   Items leave the same memory in batches as one by one, whatever the word limit and whatever is refused of the items
   that are never batched: if none is lost, those that can be batched exist and are numbers as they are converted, and
   none needs to know a word that a batch alone remembers.
   */
  lemma {:induction false} BatchedIsOneByOne(
      mem: Memory, cache: Cache, items: seq<SetupItem>, maxWriteRegisters: int, breakOnError: bool)
    requires AllConsistent(items) && AllSendable(items, mem.holding) && NoneDepends(items)
    requires NothingIsLost(items, 0, MaxRegs(maxWriteRegisters))
    ensures var start := State(mem, cache, true);
      var batched := SendFrom(start, items, 0, MaxRegs(maxWriteRegisters), breakOnError);
      var alone := SendOneByOne(start, items, breakOnError);
      && batched.running == alone.running && batched.mem == alone.mem
      && (AllAccepted(items, mem.holding) ==> alone.running)
  {
    var start, maxRegs := State(mem, cache, true), MaxRegs(maxWriteRegisters);
    var send := AloneSender(breakOnError);
    AloneSenderIsAlone(breakOnError);
    var batched := StaysInStep(start, start, items, 0, maxRegs, send, breakOnError);
    if AllAccepted(items, mem.holding) {
      AcceptedRun(start, items, 0, send, breakOnError);
    }
  }
}
