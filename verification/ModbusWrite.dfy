/**
 Writing a register: how its words are composed with the help of the cache, what the device and
 the cache hold afterwards.
 */
module ModbusWrite {
  import opened BitFields
  import opened Bits
  import opened Common
  import opened Iteration
  import opened ModbusCache
  import opened ModbusFields
  import opened ModbusRead
  import opened Registers
  import opened WordCodec
  import opened WordFields

  /** Whether all words are written by one request. */
  predicate IsPacking(c: RegisterConfig) {
    c.typ == HoldingMulti || (c.typ == Holding && c.WordWidth() > 1)
  }

  // ----- several words in one request -----

  function Cached(cache: Cache, a: int): Word {
    if a in cache then cache[a] else 0
  }

  function CachedWords(cache: Cache, address: int, width: nat): (r: seq<Word>)
    ensures |r| == width
    ensures forall i | 0 <= i < width :: r[i] == Cached(cache, address + i)
  {
    seq(width, i requires 0 <= i < width => Cached(cache, address + i))
  }

  /** The words of the register as the cache knows them; a register without a read address has none. */
  function KnownWords(c: RegisterConfig, cache: Cache): (r: seq<Word>)
    ensures |r| == c.WordWidth()
  {
    CachedWords(if c.accessType == WriteOnly then map[] else cache, c.address, c.WordWidth())
  }

  lemma AppendZero(v: Value)
    ensures AppendWord(v, 0) == WordDown(v)
  {
  }

  /** The words as one number, read from the cache one after another. */
  method CachedNumber(c: RegisterConfig, cache: Cache) returns (number: Value)
    ensures number == Joined(Ordered(c, CachedWords(cache, c.address, c.WordWidth())))
  {
    var width := c.WordWidth();
    var little := c.wordOrder == LittleEndianWords;
    var cacheAddress := if little then c.address + width - 1 else c.address;
    ghost var ordered := Ordered(c, CachedWords(cache, c.address, width));
    number := 0;
    for i := 0 to width
      invariant cacheAddress == c.address + Place(c, i, width)
      invariant number == Joined(ordered[..i])
    {
      FoldNext(AppendWord, 0, ordered, i);
      ghost var word, before := ordered[i], number;
      assert word == Cached(cache, cacheAddress);
      if cacheAddress in cache {
        number := AppendWord(number, cache[cacheAddress]);
      } else {
        AppendZero(number);
        number := WordDown(number);
      }
      assert number == AppendWord(before, word);
      cacheAddress := if little then cacheAddress - 1 else cacheAddress + 1;
    }
    assert ordered[..width] == ordered;
  }

  function WordDown(v: Value): Value {
    v << 16
  }

  lemma WordBelow(v: Value, k: nat)
    requires k + 1 < MAX_WORDS
    ensures WordAt(WordDown(v), k + 1) == WordAt(v, k)
  {
    WordsOfShifted(v);
  }

  lemma WordsOfShifted(v: Value)
    ensures WordAt(v << 16, 1) == WordAt(v, 0)
    ensures WordAt(v << 16, 2) == WordAt(v, 1)
    ensures WordAt(v << 16, 3) == WordAt(v, 2)
  {
  }

  predicate PartBelowRule<T, A(==)>(part: (T, nat) -> A, down: T -> T, v: T, k: nat) {
    part(down(v), k + 1) == part(v, k)
  }

  lemma {:induction false} PartsBelow<T(!new), A>(part: (T, nat) -> A, down: T -> T, v: T, n: nat, k: nat, room: nat)
    requires forall v, k: nat | k + 1 < room :: PartBelowRule(part, down, v, k)
    requires k + n < room
    ensures part(Iterate(down, v, n), k + n) == part(v, k)
  {
    if n > 0 {
      PartsBelow(part, down, v, n - 1, k, room);
      assert PartBelowRule(part, down, Iterate(down, v, n - 1), k + n - 1);
    }
  }

  lemma {:induction false} WordsBelow(v: Value, n: nat, k: nat)
    requires k + n < MAX_WORDS
    ensures WordAt(Iterate(WordDown, v, n), k + n) == WordAt(v, k)
  {
    forall v, k: nat | k + 1 < MAX_WORDS ensures PartBelowRule(WordAt, WordDown, v, k) {
      WordBelow(v, k);
    }
    PartsBelow(WordAt, WordDown, v, n, k, MAX_WORDS);
  }

  lemma {:induction false} TopWord(number: Value, width: nat, i: nat)
    requires i < width <= MAX_WORDS
    ensures WordAt(Iterate(WordDown, number, i), width - 1) == WordsOf(number, width)[i]
  {
    WordsBelow(number, i, width - 1 - i);
  }

  /** The words of a number, the most significant one first, each taken off the top. */
  method SplitNumber(number: Value, width: nat) returns (words: seq<Word>)
    requires width <= MAX_WORDS
    ensures words == WordsOf(number, width)
  {
    words := [];
    var rest := number;
    ghost var all := WordsOf(number, width);
    for i := 0 to width
      invariant words == all[..i]
      invariant rest == Iterate(WordDown, number, i)
    {
      var word := TakeTopWord(number, rest, width, i);
      words := words + [word];
      rest := WordDown(rest);
    }
  }

  method TakeTopWord(ghost number: Value, rest: Value, width: nat, ghost i: nat) returns (word: Word)
    requires i < width <= MAX_WORDS && rest == Iterate(WordDown, number, i)
    ensures word == WordsOf(number, width)[i]
  {
    TopWord(number, width, i);
    word := WordAt(rest, width - 1);
  }

  /** The words of a number are remembered at the addresses they are written to. */
  method RememberWords(c: RegisterConfig, words: seq<Word>, tmpCache: Cache) returns (newTmpCache: Cache)
    requires |words| == c.WordWidth()
    ensures newTmpCache == Stored(tmpCache, c.address, Ordered(c, words))
  {
    var width := c.WordWidth();
    var little := c.wordOrder == LittleEndianWords;
    var address := if little then c.address + width - 1 else c.address;
    ghost var ordered := Ordered(c, words);
    newTmpCache := tmpCache;
    for i := 0 to width
      invariant address == c.address + Place(c, i, width)
      invariant forall a :: a in newTmpCache <==> a in tmpCache || IsDone(c, a, i)
      invariant forall a | a in newTmpCache ::
          newTmpCache[a] == (if IsDone(c, a, i) then ordered[a - c.address] else tmpCache[a])
    {
      assert ordered[address - c.address] == words[i];
      newTmpCache := newTmpCache[address := words[i]];
      address := if little then address - 1 else address + 1;
    }
    forall a ensures a in newTmpCache <==> a in Stored(tmpCache, c.address, ordered)
      ensures a in newTmpCache ==> newTmpCache[a] == Stored(tmpCache, c.address, ordered)[a]
    {
      StoredWords(tmpCache, c.address, ordered, a);
    }
  }

  /** The addresses of the first n words, most significant first. */
  predicate IsDone(c: RegisterConfig, a: int, n: nat) {
    HasWord(c, a) && Place(c, a - c.address, c.WordWidth()) < n
  }

  method ComposeNumberWriteRequestWords(c: RegisterConfig, value: Value, cache: Cache, tmpCache: Cache)
    returns (words: seq<Word>, newTmpCache: Cache)
    requires c.WordWidth() <= MAX_WORDS
    ensures |words| == c.WordWidth() && Ordered(c, words) == NewWords(c, KnownWords(c, cache), value)
    ensures newTmpCache ==
      if c.accessType == WriteOnly then tmpCache else Stored(tmpCache, c.address, Ordered(c, words))
  {
    var number := 0;
    if c.accessType != WriteOnly {
      number := CachedNumber(c, cache);
      number := Without(number, ShiftLeft(LsbMask(c.DataWidth()), c.dataOffset));
    } else {
      NothingKnown(c, cache);
      NothingWithout(ShiftLeft(LsbMask(c.DataWidth()), c.dataOffset));
    }
    number := Or(number, ShiftLeft(value, c.dataOffset));
    words := SplitNumber(number, c.WordWidth());
    newTmpCache := tmpCache;
    if c.accessType != WriteOnly {
      newTmpCache := RememberWords(c, words, tmpCache);
    }
  }

  lemma NothingKnown(c: RegisterConfig, cache: Cache)
    requires c.accessType == WriteOnly
    ensures Joined(Ordered(c, KnownWords(c, cache))) == 0
  {
    ZerosJoined(Ordered(c, KnownWords(c, cache)));
  }

  lemma NothingWithout(v: Value)
    ensures Without(0, v) == 0
  {
  }

  lemma {:induction false} ZerosJoined(words: seq<Word>)
    requires forall i | 0 <= i < |words| :: words[i] == 0
    ensures Joined(words) == 0
  {
    if words != [] {
      ZerosJoined(words[..|words| - 1]);
      AppendNothing();
    }
  }

  function CharAt(text: seq<Byte>, i: nat): Byte {
    if i < |text| then text[i] else 0
  }

  function AsWord(b: Byte): Word {
    b as Word
  }

  function StringSize(c: RegisterConfig, text: seq<Byte>): nat {
    Min(c.WordWidth(), if c.format == String8 then |text| / 2 + |text| % 2 else |text|)
  }

  /** One character in a word, or two; an odd one is followed by a zero. */
  function StringWord(c: RegisterConfig, text: seq<Byte>, i: nat): Word {
    if c.format == String8 then WordFrom(BigEndianBytes, CharAt(text, 2 * i), CharAt(text, 2 * i + 1))
    else AsWord(CharAt(text, i))
  }

  function StringWords(c: RegisterConfig, text: seq<Byte>): (r: seq<Word>)
    ensures |r| == StringSize(c, text)
    ensures forall i | 0 <= i < |r| :: r[i] == StringWord(c, text, i)
  {
    seq(StringSize(c, text), i requires 0 <= i => StringWord(c, text, i))
  }

  method ComposeStringWriteRequestWords(c: RegisterConfig, text: seq<Byte>) returns (words: seq<Word>)
    ensures words == StringWords(c, text)
  {
    var size := if c.format == String8 then |text| / 2 + |text| % 2 else |text|;
    var width := Min(c.WordWidth(), size);
    words := [];
    for i := 0 to width
      invariant |words| == i && forall k | 0 <= k < i :: words[k] == StringWord(c, text, k)
    {
      words := words + [StringWord(c, text, i)];
    }
  }

  /** The first and the second byte of a word on the wire. */
  function ByteOf(order: ByteOrder, w: Word, second: bool): Byte {
    if second == (order == LittleEndianBytes) then HighByte(w) else LowByte(w)
  }

  function BytesOf(order: ByteOrder, words: seq<Word>): (r: seq<Byte>)
    ensures |r| == 2 * |words|
  {
    if words == [] then []
    else
      var w := words[|words| - 1];
      BytesOf(order, words[..|words| - 1]) + [ByteOf(order, w, false), ByteOf(order, w, true)]
  }

  method WriteWords(data: seq<Byte>, order: ByteOrder, words: seq<Word>) returns (newData: seq<Byte>)
    ensures newData == data + BytesOf(order, words)
  {
    newData := data;
    for i := 0 to |words|
      invariant newData == data + BytesOf(order, words[..i])
    {
      assert words[..i + 1][..i] == words[..i];
      newData := newData + [ByteOf(order, words[i], false), ByteOf(order, words[i], true)];
    }
    assert words[..|words|] == words;
  }

  /** The words a register is written with, in the order of their addresses. */
  function PackedWords(c: RegisterConfig, value: RegisterValue, cache: Cache): seq<Word>
    requires c.IsString() == value.Text? && value != Undefined
  {
    match value
    case Text(text) => Ordered(c, StringWords(c, text))
    case Number(number) => NewWords(c, KnownWords(c, cache), number)
  }

  method ComposeRawMultipleWriteRequestData(
      data: seq<Byte>, c: RegisterConfig, value: RegisterValue, cache: Cache, tmpCache: Cache)
    returns (newData: seq<Byte>, newTmpCache: Cache, width: nat)
    requires c.IsString() == value.Text? && value != Undefined
    requires c.IsString() || c.WordWidth() <= MAX_WORDS
    ensures newData == data + BytesOf(c.byteOrder, PackedWords(c, value, cache))
    ensures newTmpCache == if c.IsString() || c.accessType == WriteOnly then tmpCache
                           else Stored(tmpCache, c.address, PackedWords(c, value, cache))
    ensures width == |PackedWords(c, value, cache)|
  {
    var words;
    newTmpCache := tmpCache;
    if c.IsString() {
      words := ComposeStringWriteRequestWords(c, value.text);
    } else {
      words, newTmpCache := ComposeNumberWriteRequestWords(c, value.number, cache, tmpCache);
    }
    if c.wordOrder == LittleEndianWords {
      words := Reversed(words);
    }
    ghost var all := PackedWords(c, value, cache);
    assert words == all;
    width := |words|;
    newData := WriteWords(data, c.byteOrder, words);
  }

  // ----- one word in a request -----

  // The field of the data in a word; an offset beyond the word makes the unsigned difference of the source huge.

  function BitOffset(c: RegisterConfig, wordIndex: nat): nat {
    Max(c.dataOffset - wordIndex * 16, 0)
  }

  function BitCount(c: RegisterConfig, wordIndex: nat): nat {
    var bitOffset := BitOffset(c, wordIndex);
    (if bitOffset <= 16 then Min(16 - bitOffset, c.DataWidth()) else c.DataWidth()) % 0x100
  }

  /** A word with as much of the data as fits its field, and the bits of another word around it. */
  function SingleWord(c: RegisterConfig, value: Word, wordIndex: nat, cached: Word): Word {
    var bitOffset, bitCount := BitOffset(c, wordIndex), BitCount(c, wordIndex);
    LowestWord(Put(BITS, cached as Value, BITS.and(value as Value, BITS.Mask(bitCount)), bitOffset, bitCount))
  }

  method MaskedWord(c: RegisterConfig, value: Word, wordIndex: nat, cached: Word) returns (word: Word)
    ensures word == SingleWord(c, value, wordIndex, cached)
  {
    var number, data, bitOffset, bitCount :=
      cached as Value, value as Value, BitOffset(c, wordIndex), BitCount(c, wordIndex);
    MaskedPut(number, data, bitOffset, bitCount);
    word := LowestWord(PutMasked(BITS, number, data, bitOffset, bitCount));
  }

  lemma MaskedPut(number: Value, data: Value, offset: nat, width: nat)
    ensures LowestWord(PutMasked(BITS, number, data, offset, width))
         == LowestWord(Put(BITS, number, BITS.and(data, BITS.Mask(width)), offset, width))
  {
    BitsObeyLaws();
    PutMaskedIsPut(BITS, number, data, offset, width);
  }

  predicate UsesCache(c: RegisterConfig) {
    c.DataWidth() < 16
  }

  /** The word that is written for the lowest 16 bits of a value. */
  function RequestWord(c: RegisterConfig, value: Value, wordIndex: nat, cache: Cache): Word {
    SingleWord(c, LowestWord(value), wordIndex, if UsesCache(c) then Cached(cache, c.address + wordIndex) else 0)
  }

  method ComposeRawSingleWriteRequestData(
      c: RegisterConfig, value: Value, wordIndex: nat, cache: Cache, tmpCache: Cache)
    returns (data: seq<Byte>, newTmpCache: Cache)
    requires UsesCache(c) ==> c.accessType != WriteOnly
    ensures var word := RequestWord(c, value, wordIndex, cache);
      && data == BytesOf(c.byteOrder, [word])
      && newTmpCache == if UsesCache(c) then tmpCache[c.address + wordIndex := word] else tmpCache
  {
    var cachedValue: Word := 0;
    if UsesCache(c) && c.address + wordIndex in cache {
      cachedValue := cache[c.address + wordIndex];
    }
    var word := MaskedWord(c, LowestWord(value), wordIndex, cachedValue);
    data := [ByteOf(c.byteOrder, word, false), ByteOf(c.byteOrder, word, true)];
    assert [word][..0] == [];
    newTmpCache := if UsesCache(c) then tmpCache[c.address + wordIndex := word] else tmpCache;
  }

  // ----- the device -----

  /** The words a device takes from a request, high byte first (sections 6.6 and 6.12). */
  function Received(data: seq<Byte>): (r: seq<Word>)
    ensures |r| == |data| / 2
    ensures forall i | 0 <= i < |r| :: r[i] == WordFrom(BigEndianBytes, data[2 * i], data[2 * i + 1])
  {
    seq(|data| / 2, i requires 0 <= i < |data| / 2 => WordFrom(BigEndianBytes, data[2 * i], data[2 * i + 1]))
  }

  /** A device stores the words if all the addresses exist, and refuses the request otherwise. */
  function DeviceStores(table: map<int, Word>, address: int, data: seq<Byte>): Option<map<int, Word>> {
    if Exists(table, address, |data| / 2) then Some(Stored(table, address, Received(data))) else None
  }

  /** A word as it lies in memory when registers of the byte order see it as `w`. */
  function InMemory(order: ByteOrder, w: Word): Word {
    Seen(order, w)
  }

  lemma SeenInMemory(order: ByteOrder, w: Word)
    ensures Seen(order, InMemory(order, w)) == w
  {
    BytesJoined(w);
    if order == LittleEndianBytes {
      BytesSwapped(w);
    }
  }

  lemma BytesJoined(w: Word)
    ensures ((HighByte(w) as Word) << 8) | (LowByte(w) as Word) == w
  {
  }

  lemma BytesSwapped(w: Word)
    ensures var swapped := ((LowByte(w) as Word) << 8) | (HighByte(w) as Word);
      HighByte(swapped) == LowByte(w) && LowByte(swapped) == HighByte(w)
  {
  }

  lemma OneReceived(order: ByteOrder, w: Word)
    ensures WordFrom(BigEndianBytes, ByteOf(order, w, false), ByteOf(order, w, true)) == InMemory(order, w)
  {
    match order
    case BigEndianBytes =>
    case LittleEndianBytes => assert ByteOf(order, w, false) == LowByte(w) && ByteOf(order, w, true) == HighByte(w);
  }

  lemma {:induction false} BytesOfAt(order: ByteOrder, words: seq<Word>, i: nat)
    requires i < |words|
    ensures BytesOf(order, words)[2 * i] == ByteOf(order, words[i], false)
    ensures BytesOf(order, words)[2 * i + 1] == ByteOf(order, words[i], true)
  {
    if i < |words| - 1 {
      BytesOfAt(order, words[..|words| - 1], i);
    }
  }

  function AllInMemory(order: ByteOrder, words: seq<Word>): (r: seq<Word>)
    ensures |r| == |words| && forall i | 0 <= i < |words| :: r[i] == InMemory(order, words[i])
  {
    seq(|words|, i requires 0 <= i < |words| => InMemory(order, words[i]))
  }

  lemma {:induction false} BytesAreReceived(order: ByteOrder, words: seq<Word>)
    ensures Received(BytesOf(order, words)) == AllInMemory(order, words)
  {
    forall i | 0 <= i < |words| ensures Received(BytesOf(order, words))[i] == AllInMemory(order, words)[i] {
      BytesOfAt(order, words, i);
      OneReceived(order, words[i]);
    }
  }

  // ----- writing a register -----

  datatype WriteResult =
    | Written
    | Refused             // the device does not have an address
    | NotWritable         // registers of this type are never written
    | MissingReadAddress
    | WrongType

  datatype Effect = Effect(memory: Memory, cache: Cache, result: WriteResult)

  predicate HasRightType(c: RegisterConfig, value: RegisterValue) {
    if IsPacking(c) && c.IsString() then value.Text? else value.Number?
  }

  /** The table and the new words after some requests of one word each, and whether all were answered. */
  datatype Singles = Singles(table: map<int, Word>, tmpCache: Cache, complete: bool)

  /**
   How words are made that are written one by one: the word of a request comes from what is left of the value and
   the number of the word, and lies in memory in some order of its bytes.
   */
  datatype Encoding = Encoding(request: (Value, nat) -> Word, inMemory: Word -> Word)

  function EncodingOf(c: RegisterConfig, cache: Cache): Encoding {
    Encoding(
      (value: Value, wordIndex: nat) => RequestWord(c, value, wordIndex, cache),
      (word: Word) => InMemory(c.byteOrder, word))
  }

  predicate RequestRule(e: Encoding, c: RegisterConfig, cache: Cache, value: Value, wordIndex: nat) {
    e.request(value, wordIndex) == RequestWord(c, value, wordIndex, cache)
  }

  predicate MemoryRule(e: Encoding, c: RegisterConfig, word: Word) {
    e.inMemory(word) == InMemory(c.byteOrder, word)
  }

  ghost predicate Encodes(e: Encoding, c: RegisterConfig, cache: Cache) {
    && (forall v, i: nat :: RequestRule(e, c, cache, v, i))
    && (forall w :: MemoryRule(e, c, w))
  }

  lemma EncodingOfEncodes(c: RegisterConfig, cache: Cache)
    ensures Encodes(EncodingOf(c, cache), c, cache)
  {
  }

  /** The words that are written one by one, the last one from the lowest bits of the value. */
  function RequestWords(e: Encoding, value: Value, n: nat): (r: seq<Word>)
    ensures |r| == n
    decreases n
  {
    if n == 0 then [] else RequestWords(e, WordUp(value), n - 1) + [e.request(value, n - 1)]
  }

  /** A request for each of the words, the last of them first. */
  function WriteSingles(
      table: map<int, Word>, tmpCache: Cache, c: RegisterConfig, e: Encoding, words: seq<Word>): Singles
    decreases |words|
  {
    if words == [] then Singles(table, tmpCache, true)
    else
      var i := |words| - 1;
      if c.writeAddress + i !in table then Singles(table, tmpCache, false)
      else
        WriteSingles(
          table[c.writeAddress + i := e.inMemory(words[i])],
          if UsesCache(c) then tmpCache[c.address + i := words[i]] else tmpCache,
          c, e, words[..i])
  }

  /** All words in one request, which is refused as a whole. */
  function PackedEffect(mem: Memory, cache: Cache, c: RegisterConfig, words: seq<Word>): Effect {
    if !Exists(mem.holding, c.writeAddress, |words|) then Effect(mem, cache, Refused)
    else
      Effect(
        mem.(holding := Stored(mem.holding, c.writeAddress, AllInMemory(c.byteOrder, words))),
        if c.IsString() || c.accessType == WriteOnly then cache else Stored(cache, c.address, words),
        Written)
  }

  /** The memory and the cache after a write, with the cache updated only if all of it was accepted. */
  function Write(mem: Memory, cache: Cache, c: RegisterConfig, value: RegisterValue): Effect {
    if c.typ == Input || c.typ == Discrete then Effect(mem, cache, NotWritable)
    else if !HasRightType(c, value) then Effect(mem, cache, WrongType)
    else if IsPacking(c) then
      PackedEffect(mem, cache, c, PackedWords(c, value, cache))
    else if c.typ == Coil then
      if c.writeAddress !in mem.coils then Effect(mem, cache, Refused)
      else Effect(mem.(coils := mem.coils[c.writeAddress := value.number != 0]), cache, Written)
    else if UsesCache(c) && c.accessType == WriteOnly && c.WordWidth() > 0 then Effect(mem, cache, MissingReadAddress)
    else
      var e := EncodingOf(c, cache);
      var r := WriteSingles(mem.holding, map[], c, e, RequestWords(e, value.number, c.WordWidth()));
      Effect(
        mem.(holding := r.table), if r.complete then cache + r.tmpCache else cache,
        if r.complete then Written else Refused)
  }

  method WriteRegister(mem: Memory, c: RegisterConfig, value: RegisterValue, cache: Cache)
    returns (newMem: Memory, newCache: Cache, result: WriteResult)
    requires c.IsString() || c.WordWidth() <= MAX_WORDS
    ensures Effect(newMem, newCache, result) == Write(mem, cache, c, value)
  {
    newMem, newCache := mem, cache;
    if c.typ == Input || c.typ == Discrete {
      return newMem, newCache, NotWritable;
    }
    if !HasRightType(c, value) {
      return newMem, newCache, WrongType;
    }
    if IsPacking(c) {
      newMem, newCache, result := WritePacked(mem, c, value, cache);
    } else if c.typ == Coil {
      if c.writeAddress !in mem.coils {
        return newMem, newCache, Refused;
      }
      newMem, result := mem.(coils := mem.coils[c.writeAddress := value.number != 0]), Written;
    } else if UsesCache(c) && c.accessType == WriteOnly && c.WordWidth() > 0 {
      result := MissingReadAddress;
    } else {
      EncodingOfEncodes(c, cache);
      var r := WriteWordByWord(mem.holding, c, value.number, cache, EncodingOf(c, cache));
      newMem, result := mem.(holding := r.table), Refused;
      if r.complete {
        newCache, result := cache + r.tmpCache, Written;
      }
    }
  }

  method WritePacked(mem: Memory, c: RegisterConfig, value: RegisterValue, cache: Cache)
    returns (newMem: Memory, newCache: Cache, result: WriteResult)
    requires IsPacking(c) && HasRightType(c, value) && (c.IsString() || c.WordWidth() <= MAX_WORDS)
    ensures Effect(newMem, newCache, result) == Write(mem, cache, c, value)
  {
    var data, tmpCache, count := ComposeRawMultipleWriteRequestData([], c, value, cache, map[]);
    newMem, newCache, result := SendPacked(mem, c, cache, data, tmpCache, PackedWords(c, value, cache));
  }

  method SendPacked(
      mem: Memory, c: RegisterConfig, cache: Cache, data: seq<Byte>, tmpCache: Cache, ghost words: seq<Word>)
    returns (newMem: Memory, newCache: Cache, result: WriteResult)
    requires data == [] + BytesOf(c.byteOrder, words)
    requires tmpCache == if c.IsString() || c.accessType == WriteOnly then map[] else Stored(map[], c.address, words)
    ensures Effect(newMem, newCache, result) == PackedEffect(mem, cache, c, words)
  {
    assert data == BytesOf(c.byteOrder, words);
    WordsStored(mem.holding, c.writeAddress, c.byteOrder, words);
    MergedWords(cache, c.address, words);
    var stored := DeviceStores(mem.holding, c.writeAddress, data);
    newMem, newCache, result := mem, cache, Refused;
    if stored.Some? {
      newMem, newCache, result := mem.(holding := stored.value), cache + tmpCache, Written;
    }
  }

  lemma {:induction false} WordsStored(table: map<int, Word>, address: int, order: ByteOrder, words: seq<Word>)
    ensures DeviceStores(table, address, BytesOf(order, words))
         == if Exists(table, address, |words|) then Some(Stored(table, address, AllInMemory(order, words))) else None
  {
    BytesAreReceived(order, words);
  }

  lemma {:induction false} MergedWords(cache: Cache, address: int, words: seq<Word>)
    ensures cache + Stored(map[], address, words) == Stored(cache, address, words)
    ensures cache + map[] == cache
  {
    if words != [] {
      MergedWords(cache, address, words[..|words| - 1]);
    }
  }

  method WriteWordByWord(table: map<int, Word>, c: RegisterConfig, value: Value, cache: Cache, ghost e: Encoding)
    returns (r: Singles)
    requires UsesCache(c) ==> c.accessType != WriteOnly || c.WordWidth() == 0
    requires Encodes(e, c, cache)
    ensures r == WriteSingles(table, map[], c, e, RequestWords(e, value, c.WordWidth()))
  {
    r := Singles(table, map[], true);
    var val, left := value, c.WordWidth();
    ghost var words := RequestWords(e, value, left);
    ghost var all := WriteSingles(table, map[], c, e, words);
    assert words[..left] == words;
    while left > 0
      invariant left <= |words| && words[..left] == RequestWords(e, val, left)
      invariant r.complete && WriteSingles(r.table, r.tmpCache, c, e, words[..left]) == all
    {
      var wordIndex, rest := left - 1, WordUp(val);
      NextRequest(e, val, rest, words, left);
      r := WriteNextWord(r, c, val, cache, wordIndex, e, words);
      if !r.complete {
        return;
      }
      val, left := rest, wordIndex;
    }
    assert words[..0] == [];
  }

  /** One more request; when it is refused the words after it are not tried. */
  method WriteNextWord(
      before: Singles, c: RegisterConfig, value: Value, cache: Cache, i: nat, ghost e: Encoding, ghost words: seq<Word>)
    returns (r: Singles)
    requires UsesCache(c) ==> c.accessType != WriteOnly
    requires Encodes(e, c, cache) && before.complete && i < |words| && words[i] == e.request(value, i)
    ensures WriteSingles(before.table, before.tmpCache, c, e, words[..i + 1]) ==
      if r.complete then WriteSingles(r.table, r.tmpCache, c, e, words[..i]) else r
  {
    ghost var word, address := words[i], c.writeAddress + i;
    var stored, tmpCache := WriteOneWord(before.table, before.tmpCache, c, value, cache, i, e);
    assert stored == StoreOne(before.table, address, e.inMemory(word));
    NextSingle(before.table, before.tmpCache, c, e, words, i, stored, tmpCache);
    r := if stored.None? then before.(complete := false) else Singles(stored.value, tmpCache, true);
  }

  lemma {:induction false} NextSingle(
      table: map<int, Word>, tmpCache: Cache, c: RegisterConfig, e: Encoding, words: seq<Word>, i: nat,
      stored: Option<map<int, Word>>, newTmpCache: Cache)
    requires i < |words|
    requires stored == StoreOne(table, c.writeAddress + i, e.inMemory(words[i]))
    requires newTmpCache == if UsesCache(c) then tmpCache[c.address + i := words[i]] else tmpCache
    ensures WriteSingles(table, tmpCache, c, e, words[..i + 1]) ==
      if stored.None? then Singles(table, tmpCache, false)
      else WriteSingles(stored.value, newTmpCache, c, e, words[..i])
  {
    assert words[..i + 1][..i] == words[..i];
  }

  lemma NextRequest(e: Encoding, value: Value, rest: Value, words: seq<Word>, n: nat)
    requires 0 < n <= |words| && words[..n] == RequestWords(e, value, n) && rest == WordUp(value)
    ensures words[n - 1] == e.request(value, n - 1)
    ensures words[..n - 1] == RequestWords(e, rest, n - 1)
  {
  }

  method WriteOneWord(
      table: map<int, Word>, tmpCache: Cache, c: RegisterConfig, value: Value, cache: Cache, wordIndex: nat,
      ghost e: Encoding)
    returns (stored: Option<map<int, Word>>, newTmpCache: Cache)
    requires UsesCache(c) ==> c.accessType != WriteOnly
    requires Encodes(e, c, cache)
    ensures var word := e.request(value, wordIndex);
      && stored == StoreOne(table, c.writeAddress + wordIndex, e.inMemory(word))
      && newTmpCache == if UsesCache(c) then tmpCache[c.address + wordIndex := word] else tmpCache
  {
    ghost var word := e.request(value, wordIndex);
    assert RequestRule(e, c, cache, value, wordIndex) && MemoryRule(e, c, word);
    var data;
    data, newTmpCache := ComposeRawSingleWriteRequestData(c, value, wordIndex, cache, tmpCache);
    OneWordStored(table, c.writeAddress + wordIndex, c.byteOrder, word);
    stored := DeviceStores(table, c.writeAddress + wordIndex, data);
  }

  function StoreOne(table: map<int, Word>, address: int, word: Word): Option<map<int, Word>> {
    if address in table then Some(table[address := word]) else None
  }

  lemma {:induction false} OneWordStored(table: map<int, Word>, address: int, order: ByteOrder, word: Word)
    ensures DeviceStores(table, address, BytesOf(order, [word]))
         == StoreOne(table, address, InMemory(order, word))
  {
    BytesAreReceived(order, [word]);
    var words := AllInMemory(order, [word]);
    assert words[..0] == [] && Stored(table, address, words[..0]) == table;
    assert Exists(table, address, 1) <==> address in table;
  }
}
