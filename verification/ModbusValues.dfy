/**
 What bytes, words and values are in numbers: no law here speaks of how they are taken apart or put together.
 */
module ModbusValues {
  import opened BitFields
  import opened Bits
  import opened Common
  import opened Iteration
  import opened ModbusFields
  import opened ModbusRead
  import opened ModbusWrite
  import opened Registers
  import opened WordCodec
  import opened WordFields

  // ----- bytes -----

  lemma BytesAreDigits(w: Word)
    ensures HighByte(w) as Word == w / 0x100 && LowByte(w) as Word == w % 0x100
  {
  }

  /** The digits of a word in base 256. */
  predicate HasDigits(w: Word, high: Byte, low: Byte) {
    w / 0x100 == high as Word && w % 0x100 == low as Word
  }

  lemma WordOfDigits(first: Byte, second: Byte)
    ensures HasDigits(WordFrom(BigEndianBytes, first, second), first, second)
    ensures HasDigits(WordFrom(LittleEndianBytes, first, second), second, first)
  {
  }

  /** A device sends the word at an address high byte first. */
  lemma {:induction false} SentHighFirst(table: map<int, Word>, start: int, count: nat, i: nat)
    requires Exists(table, start, count) && i < count
    ensures var data := WordBytes(table, start, count);
      && data[2 * i] as Word == table[start + i] / 0x100
      && data[2 * i + 1] as Word == table[start + i] % 0x100
  {
    WordBytesAt(table, start, count, i);
    BytesAreDigits(table[start + i]);
  }

  /** The words of a register in an answer, from bytes in either order. */
  lemma AnswerWord(data: seq<Byte>, c: RegisterConfig, index: nat, i: nat)
    requires 2 * (index + c.WordWidth()) <= |data| && i < c.WordWidth()
    ensures var first, second := data[2 * (index + i)], data[2 * (index + i) + 1];
      if c.byteOrder == BigEndianBytes then HasDigits(WordsAt(data, c, index)[i], first, second)
      else HasDigits(WordsAt(data, c, index)[i], second, first)
  {
    WordOfDigits(data[2 * (index + i)], data[2 * (index + i) + 1]);
  }

  /** Words that have the same bytes in reverse. */
  predicate AreSwapped(w: Word, v: Word) {
    w / 0x100 == v % 0x100 && w % 0x100 == v / 0x100
  }

  lemma SeenWord(order: ByteOrder, w: Word)
    ensures if order == BigEndianBytes then Seen(order, w) == w else AreSwapped(Seen(order, w), w)
  {
    BytesJoined(w);
    BytesAreDigits(w);
    WordOfDigits(HighByte(w), LowByte(w));
  }

  /** A register with big-endian bytes sees the words that are in memory, another one sees them with bytes swapped. */
  predicate SeesWord(c: RegisterConfig, seen: Word, w: Word) {
    if c.byteOrder == BigEndianBytes then seen == w else AreSwapped(seen, w)
  }

  lemma MemoryWordIs(table: map<int, Word>, c: RegisterConfig, i: nat)
    requires Exists(table, c.address, c.WordWidth()) && i < c.WordWidth()
    ensures SeesWord(c, MemoryWords(table, c)[i], table[c.address + i])
  {
    SeenWord(c.byteOrder, table[c.address + i]);
  }

  /** A written word is sent high byte first, or low byte first by a register with little-endian bytes. */
  lemma WrittenBytesAre(order: ByteOrder, words: seq<Word>, i: nat)
    requires i < |words|
    ensures var data := BytesOf(order, words);
      && data[2 * i] as Word == DigitOf(words[i], order == BigEndianBytes)
      && data[2 * i + 1] as Word == DigitOf(words[i], order != BigEndianBytes)
  {
    var data, word := BytesOf(order, words), words[i];
    BytesOfAt(order, words, i);
    ByteIsDigit(order, word, false, data[2 * i]);
    ByteIsDigit(order, word, true, data[2 * i + 1]);
  }

  /** One of the two digits of a word in base 256. */
  function DigitOf(w: Word, high: bool): Word {
    if high then w / 0x100 else w % 0x100
  }

  lemma ByteIsDigit(order: ByteOrder, w: Word, second: bool, b: Byte)
    requires b == ByteOf(order, w, second)
    ensures b as Word == DigitOf(w, second == (order != BigEndianBytes))
  {
    BytesAreDigits(w);
  }

  /** A device takes words from a request high byte first. */
  lemma TakenHighFirst(data: seq<Byte>, i: nat)
    requires i < |data| / 2
    ensures HasDigits(Received(data)[i], data[2 * i], data[2 * i + 1])
  {
    WordOfDigits(data[2 * i], data[2 * i + 1]);
  }

  // ----- numbers -----

  /** Words of a number are its digits in base 65536, the least significant one first. */
  lemma WordsAreDigits(v: Value, k: nat)
    ensures WordAt(v, 0) as Value == v % 0x1_0000
    ensures WordAt(v, k + 1) == WordAt(v / 0x1_0000, k)
  {
    match k
    case 0 =>
    case 1 =>
    case 2 =>
    case _ => NoMoreDigits(v);
  }

  lemma NoMoreDigits(v: Value)
    ensures WordAt(v / 0x1_0000, 3) == 0
  {
  }

  /** The words of a register are the digits of a number, and it has no others. */
  ghost predicate IsMadeOf(v: Value, words: seq<Word>) {
    && (forall i | 0 <= i < |words| :: WordAt(v, |words| - 1 - i) == words[i])
    && (forall k: nat | |words| <= k :: WordAt(v, k) == 0)
  }

  lemma {:induction false} JoinedIsMadeOf(words: seq<Word>)
    requires |words| <= MAX_WORDS
    ensures IsMadeOf(Joined(words), words)
  {
    JoinedIsFour(words);
    FourWords(Padded(words, 3), Padded(words, 2), Padded(words, 1), Padded(words, 0));
  }

  /** A register that fills its words has the number that they are the digits of, in its order of words. */
  lemma WholeNumberIs(c: RegisterConfig, words: seq<Word>)
    requires FillsWords(c) && |words| == c.WordWidth()
    ensures ValueOf(c, words).Number? && IsMadeOf(ValueOf(c, words).number, Ordered(c, words))
  {
    var ordered := Ordered(c, words);
    NumberFitsWords(c);
    SplitAndJoin(Joined(ordered), |words|);
    JoinAndSplit(ordered);
    JoinedIsMadeOf(ordered);
  }

  lemma MadeOfTwo(v: Value, high: Word, low: Word)
    requires IsMadeOf(v, [high, low])
    ensures v / 0x1_0000 == high as Value && v % 0x1_0000 == low as Value
  {
    assert WordAt(v, 1) == [high, low][0] && WordAt(v, 0) == [high, low][1];
    assert WordAt(v, 2) == 0 && WordAt(v, 3) == 0;
    TwoDigitsOf(v, high, low);
  }

  lemma TwoDigitsOf(v: Value, high: Word, low: Word)
    requires WordAt(v, 1) == high && WordAt(v, 0) == low && WordAt(v, 2) == 0 && WordAt(v, 3) == 0
    ensures v / 0x1_0000 == high as Value && v % 0x1_0000 == low as Value
  {
  }

  lemma MadeOfOne(v: Value, w: Word)
    requires IsMadeOf(v, [w])
    ensures v == w as Value
  {
    assert WordAt(v, 0) == [w][0];
    assert WordAt(v, 1) == 0 && WordAt(v, 2) == 0 && WordAt(v, 3) == 0;
    OneDigitOf(v, w);
  }

  lemma OneDigitOf(v: Value, w: Word)
    requires WordAt(v, 0) == w && WordAt(v, 1) == 0 && WordAt(v, 2) == 0 && WordAt(v, 3) == 0
    ensures v == w as Value
  {
  }

  /** The number that a register has in memory. */
  ghost predicate Reads(mem: Memory, c: RegisterConfig, v: Value)
    requires c.WordWidth() > 0
  {
    ReadAlone(mem, c) == Some(Number(v))
  }

  /** What a whole register of at most four words reads, and the words that it sees. */
  lemma MemoryIsMadeOf(mem: Memory, c: RegisterConfig) returns (v: Value, words: seq<Word>)
    requires FillsWords(c) && c.IsHolding() && Exists(mem.holding, c.address, c.WordWidth())
    ensures 0 < c.WordWidth() && Reads(mem, c, v)
    ensures |words| == c.WordWidth() && IsMadeOf(v, Ordered(c, words))
    ensures forall i | 0 <= i < |words| :: SeesWord(c, words[i], mem.holding[c.address + i])
  {
    NumberFitsWords(c);
    words := MemoryWords(mem.holding, c);
    WordsAreMemory(mem.holding, c.address, c.WordWidth(), c);
    WholeNumberIs(c, words);
    v := ValueOf(c, words).number;
    forall i | 0 <= i < |words| ensures SeesWord(c, words[i], mem.holding[c.address + i]) {
      MemoryWordIs(mem.holding, c, i);
    }
  }

  lemma OneOrdered(c: RegisterConfig, words: seq<Word>, v: Value)
    requires |words| == 1 && IsMadeOf(v, Ordered(c, words))
    ensures v == words[0] as Value
  {
    assert Ordered(c, words) == [words[0]];
    MadeOfOne(v, words[0]);
  }

  predicate HasDigits32(v: Value, high: Word, low: Word) {
    v / 0x1_0000 == high as Value && v % 0x1_0000 == low as Value
  }

  lemma TwoOrdered(c: RegisterConfig, words: seq<Word>, v: Value)
    requires |words| == 2 && IsMadeOf(v, Ordered(c, words))
    ensures if c.wordOrder == BigEndianWords then HasDigits32(v, words[0], words[1])
            else HasDigits32(v, words[1], words[0])
  {
    if c.wordOrder == BigEndianWords {
      assert Ordered(c, words) == [words[0], words[1]];
      MadeOfTwo(v, words[0], words[1]);
    } else {
      assert Ordered(c, words) == [words[1], words[0]];
      MadeOfTwo(v, words[1], words[0]);
    }
  }

  /** The value of a whole register of two words, read from memory: the first word counts more, or the second one. */
  lemma TwoWordsAre(mem: Memory, c: RegisterConfig) returns (v: Value)
    requires FillsWords(c) && c.IsHolding() && c.WordWidth() == 2 && c.byteOrder == BigEndianBytes
    requires c.address in mem.holding && c.address + 1 in mem.holding
    ensures Reads(mem, c, v)
    ensures var first, second := mem.holding[c.address], mem.holding[c.address + 1];
      if c.wordOrder == BigEndianWords then HasDigits32(v, first, second) else HasDigits32(v, second, first)
  {
    var words;
    v, words := MemoryIsMadeOf(mem, c);
    TwoOrdered(c, words, v);
  }

  /** The value of a whole register of one word, read from memory. */
  lemma OneWordIs(mem: Memory, c: RegisterConfig) returns (v: Value, seen: Word)
    requires FillsWords(c) && c.IsHolding() && c.WordWidth() == 1 && c.address in mem.holding
    ensures Reads(mem, c, v) && v == seen as Value && SeesWord(c, seen, mem.holding[c.address])
  {
    var words;
    v, words := MemoryIsMadeOf(mem, c);
    seen := words[0];
    OneOrdered(c, words, v);
  }

  // ----- fields -----

  /** A bit of a number, the least significant one first. */
  predicate HasBit(v: Value, n: nat) {
    IsOdd(ShiftRight(v, n))
  }

  predicate IsOdd(v: Value) {
    v % 2 == 1
  }

  lemma OddOfAnd(a: Value, b: Value)
    ensures IsOdd(And(a, b)) <==> IsOdd(a) && IsOdd(b)
  {
  }

  lemma OneMoreIsOdd(z: Value)
    ensures IsOdd(BITS.withOneMore(z))
  {
  }

  /** A mask has its lowest bits and no others. */
  lemma {:induction false} MaskHasBit(width: nat, n: nat)
    requires width <= 64
    ensures HasBit(BITS.Mask(width), n) <==> n < width
    decreases n
  {
    BitsObeyLaws();
    if width == 0 {
      ZeroShifted(BITS, n);
      NoOnes();
    } else if n == 0 {
      MaskGrows(BITS, width - 1);
      OneMoreIsOdd(BITS.Mask(width - 1));
    } else {
      MaskHalved(BITS, width - 1);
      ShiftedDown(BITS.Mask(width), n);
      MaskHasBit(width - 1, n - 1);
    }
  }

  lemma NoOnes()
    ensures BITS.Mask(0) == BITS.zero && !IsOdd(BITS.zero)
  {
  }

  lemma ShiftedDown(v: Value, n: nat)
    requires n > 0
    ensures ShiftRight(v, n) == ShiftRight(Half(v), n - 1)
  {
    IterateAdds(Half, v, 1, n - 1);
    assert Iterate(Half, v, 1) == Half(v);
  }

  /** The value of a field has the bits of the number from its offset on, as many as it is wide. */
  lemma FieldHasBit(v: Value, offset: nat, width: nat, n: nat)
    requires width <= 64
    ensures HasBit(Get(BITS, v, offset, width), n) <==> n < width && HasBit(v, offset + n)
  {
    HalfOfAnd();
    IterateIsLinear(Half, And, ShiftRight(v, offset), BITS.Mask(width), n);
    IterateAdds(Half, v, offset, n);
    OddOfAnd(ShiftRight(ShiftRight(v, offset), n), ShiftRight(BITS.Mask(width), n));
    MaskHasBit(width, n);
  }

  lemma OddOfOr(a: Value, b: Value)
    ensures IsOdd(Or(a, b)) <==> IsOdd(a) || IsOdd(b)
  {
  }

  lemma OddOfWithout(a: Value, b: Value)
    ensures IsOdd(Without(a, b)) <==> IsOdd(a) && !IsOdd(b)
  {
  }

  lemma HalfOfWithout()
    ensures IsLinear(Half, Without)
  {
    forall a, b ensures Half(Without(a, b)) == Without(Half(a), Half(b)) {
      WithoutHalved(a, b);
    }
  }

  lemma WithoutHalved(a: Value, b: Value)
    ensures (a & !b) >> 1 == (a >> 1) & !(b >> 1)
  {
  }

  lemma OrHasBit(a: Value, b: Value, n: nat)
    ensures HasBit(Or(a, b), n) <==> HasBit(a, n) || HasBit(b, n)
  {
    HalfOfOr();
    IterateIsLinear(Half, Or, a, b, n);
    OddOfOr(ShiftRight(a, n), ShiftRight(b, n));
  }

  lemma AndHasBit(a: Value, b: Value, n: nat)
    ensures HasBit(And(a, b), n) <==> HasBit(a, n) && HasBit(b, n)
  {
    HalfOfAnd();
    IterateIsLinear(Half, And, a, b, n);
    OddOfAnd(ShiftRight(a, n), ShiftRight(b, n));
  }

  lemma WithoutHasBit(a: Value, b: Value, n: nat)
    ensures HasBit(Without(a, b), n) <==> HasBit(a, n) && !HasBit(b, n)
  {
    HalfOfWithout();
    IterateIsLinear(Half, Without, a, b, n);
    OddOfWithout(ShiftRight(a, n), ShiftRight(b, n));
  }

  lemma DoubleIsEven(v: Value)
    ensures !IsOdd(Bits.Double(v)) && Half(Bits.Double(v)) == And(v, 0x7FFF_FFFF_FFFF_FFFF)
  {
  }

  lemma DoubledHasBit(v: Value, n: nat)
    requires n < 64
    ensures HasBit(Bits.Double(v), n) <==> n > 0 && HasBit(v, n - 1)
  {
    DoubleIsEven(v);
    if n > 0 {
      ShiftedDown(Bits.Double(v), n);
      AndHasBit(v, 0x7FFF_FFFF_FFFF_FFFF, n - 1);
      MaskOf63();
      MaskHasBit(63, n - 1);
    }
  }

  /** Shifting up moves the bits of a number, and fills with zeros. */
  lemma {:induction false} LeftHasBit(v: Value, places: nat, n: nat)
    requires n < 64
    ensures HasBit(ShiftLeft(v, places), n) <==> n >= places && HasBit(v, n - places)
    decreases places
  {
    if places > 0 {
      DoubledHasBit(ShiftLeft(v, places - 1), n);
      if n > 0 {
        LeftHasBit(v, places - 1, n - 1);
      }
    }
  }

  /** Of a number with data put in a field, the bits of the field are those of the data, which may spill over its end. */
  lemma PutHasBit(v: Value, x: Value, offset: nat, width: nat, n: nat)
    requires width <= 64 && n < 64
    ensures HasBit(Put(BITS, v, x, offset, width), n) <==>
      (n >= offset && HasBit(x, n - offset)) || (HasBit(v, n) && !(offset <= n < offset + width))
  {
    var field, data := Field(BITS, offset, width), ShiftLeft(x, offset);
    FieldsBits(offset, width, n);
    LeftHasBit(x, offset, n);
    JoinedHasBit(v, field, data, Put(BITS, v, x, offset, width), n);
  }

  lemma FieldsBits(offset: nat, width: nat, n: nat)
    requires width <= 64 && n < 64
    ensures HasBit(Field(BITS, offset, width), n) <==> offset <= n < offset + width
  {
    LeftHasBit(BITS.Mask(width), offset, n);
    if n >= offset {
      MaskHasBit(width, n - offset);
    }
  }

  lemma JoinedHasBit(v: Value, field: Value, data: Value, joined: Value, n: nat)
    requires joined == Or(Without(v, field), data)
    ensures HasBit(joined, n) <==> HasBit(data, n) || (HasBit(v, n) && !HasBit(field, n))
  {
    OrHasBit(Without(v, field), data, n);
    WithoutHasBit(v, field, n);
  }

  /** The bits of a word that is written alone: those of the data in its field, as far as it is in this word. */
  lemma SingleWordHasBit(c: RegisterConfig, value: Word, i: nat, cached: Word, n: nat)
    requires c.DataWidth() <= 64 && n < 16
    ensures var offset := if c.dataOffset > 16 * i then c.dataOffset - 16 * i else 0;
      HasBit(SingleWord(c, value, i, cached) as Value, n) <==>
        if offset <= n < offset + c.DataWidth() then HasBit(value as Value, n - offset) else HasBit(cached as Value, n)
  {
    PlaceInWord(c, i, n);
    var number := NumberPut(c, value, i, cached, BitOffset(c, i), BitCount(c, i), n);
    LowestHasBit(number, SingleWord(c, value, i, cached), n);
  }

  /** The number of which the word is the lowest part. */
  lemma NumberPut(c: RegisterConfig, value: Word, i: nat, cached: Word, offset: nat, count: nat, n: nat)
    returns (number: Value)
    requires offset == BitOffset(c, i) && count == BitCount(c, i) <= 64 && n < 16
    ensures SingleWord(c, value, i, cached) == LowestWord(number)
    ensures HasBit(number, n) <==>
      if offset <= n < offset + count then HasBit(value as Value, n - offset) else HasBit(cached as Value, n)
  {
    number := CutInto(value as Value, cached as Value, offset, count);
    CutHasBit(cached as Value, value as Value, offset, count, number, n);
  }

  function CutInto(x: Value, v: Value, offset: nat, width: nat): Value {
    Put(BITS, v, BITS.and(x, BITS.Mask(width)), offset, width)
  }

  /** It is a word of the value, with the cached word around it if the data is narrower than a word, or zeros. */
  lemma RequestWordIs(c: RegisterConfig, value: Value, i: nat, cache: Cache)
    ensures c.DataWidth() < 16 && c.address + i in cache ==>
      RequestWord(c, value, i, cache) == SingleWord(c, WordAt(value, 0), i, cache[c.address + i])
    ensures c.DataWidth() >= 16 || c.address + i !in cache ==>
      RequestWord(c, value, i, cache) == SingleWord(c, WordAt(value, 0), i, 0)
  {
  }

  lemma PlaceInWord(c: RegisterConfig, i: nat, n: nat)
    requires c.DataWidth() <= 64 && n < 16
    ensures var offset := if c.dataOffset > 16 * i then c.dataOffset - 16 * i else 0;
      && BitOffset(c, i) == offset && BitCount(c, i) <= 64
      && (offset <= n < offset + BitCount(c, i) <==> offset <= n < offset + c.DataWidth())
  {
  }

  /** Of a number with data put in a field and cut to it, only the bits of the field are those of the data. */
  lemma CutHasBit(v: Value, x: Value, offset: nat, width: nat, number: Value, n: nat)
    requires width <= 64 && n < 64 && number == Put(BITS, v, BITS.and(x, BITS.Mask(width)), offset, width)
    ensures HasBit(number, n) <==> if offset <= n < offset + width then HasBit(x, n - offset) else HasBit(v, n)
  {
    PutHasBit(v, BITS.and(x, BITS.Mask(width)), offset, width, n);
    if offset <= n {
      MaskedHasBit(x, width, n - offset);
    }
  }

  lemma MaskedHasBit(x: Value, width: nat, n: nat)
    requires width <= 64
    ensures HasBit(BITS.and(x, BITS.Mask(width)), n) <==> n < width && HasBit(x, n)
  {
    AndHasBit(x, BITS.Mask(width), n);
    MaskHasBit(width, n);
  }

  lemma LowestHasBit(v: Value, word: Word, n: nat)
    requires n < 16 && word == LowestWord(v)
    ensures HasBit(word as Value, n) <==> HasBit(v, n)
  {
    LowestIsMasked(v);
    AndHasBit(v, 0xFFFF, n);
    MasksOfWords(1);
    MaskHasBit(16, n);
  }

  lemma LowestIsMasked(v: Value)
    ensures LowestWord(v) as Value == And(v, 0xFFFF)
  {
  }

  /** The bits of the value of a number register. */
  lemma ValueHasBit(c: RegisterConfig, words: seq<Word>, n: nat)
    requires HoldsNumber(c)
    ensures ValueOf(c, words).Number?
    ensures HasBit(ValueOf(c, words).number, n) <==> n < c.DataWidth() && HasBit(Joined(Ordered(c, words)), c.dataOffset + n)
  {
    var joined := Joined(Ordered(c, words));
    NumberIsField(c, words, joined);
    FieldHasBit(joined, c.dataOffset, c.DataWidth(), n);
  }

  lemma NumberIsField(c: RegisterConfig, words: seq<Word>, joined: Value)
    requires HoldsNumber(c) && joined == Joined(Ordered(c, words))
    ensures c.DataWidth() <= 64 && ValueOf(c, words) == Number(Get(BITS, joined, c.dataOffset, c.DataWidth()))
  {
    NumberFitsWords(c);
  }

  // ----- texts -----

  /** The characters of words: all of them low bytes, or two in a word, the high one first. */
  lemma {:induction false} CharactersAre(words: seq<Word>, twoInWord: bool, i: nat)
    requires i < |words|
    ensures var chars := Characters(words, twoInWord);
      if twoInWord then chars[2 * i] as Word == words[i] / 0x100 && chars[2 * i + 1] as Word == words[i] % 0x100
      else chars[i] as Word == words[i] % 0x100
  {
    BytesAreDigits(words[0]);
    if i > 0 {
      CharactersAre(words[1..], twoInWord, i - 1);
    }
  }

  /** A text ends before the first character 0 or 255, or with the last one. */
  lemma {:induction false} TextEndsAt(chars: seq<Byte>)
    ensures var text := UntilEnd(chars);
      && |text| <= |chars| && text == chars[..|text|]
      && (forall i | 0 <= i < |text| :: text[i] != 0 && text[i] != 0xFF)
      && (|text| < |chars| ==> chars[|text|] == 0 || chars[|text|] == 0xFF)
  {
    if chars != [] {
      TextEndsAt(chars[1..]);
    }
  }

  /** A written word of a text has two characters, the high one first, or one; what is missing is zero. */
  lemma StringWordIs(c: RegisterConfig, text: seq<Byte>, i: nat)
    ensures if c.format == String8
            then HasDigits(StringWord(c, text, i), CharAt(text, 2 * i), CharAt(text, 2 * i + 1))
            else HasDigits(StringWord(c, text, i), 0, CharAt(text, i))
  {
    WordOfDigits(CharAt(text, 2 * i), CharAt(text, 2 * i + 1));
    LowDigit(CharAt(text, i));
  }

  lemma LowDigit(b: Byte)
    ensures HasDigits(AsWord(b), 0, b)
  {
  }

  /** No character of a text ends it. */
  ghost predicate IsPlainText(text: seq<Byte>) {
    forall i | 0 <= i < |text| :: text[i] != 0 && text[i] != 0xFF
  }

  lemma {:induction false} UntilEndIs(chars: seq<Byte>, text: seq<Byte>)
    requires |text| <= |chars| && text == chars[..|text|] && IsPlainText(text)
    requires |text| < |chars| ==> chars[|text|] == 0 || chars[|text|] == 0xFF
    ensures UntilEnd(chars) == text
  {
    if chars != [] && text != [] {
      assert chars[0] == text[0] && text[1..] == chars[1..][..|text| - 1];
      UntilEndIs(chars[1..], text[1..]);
    }
  }

  /** How many words a text needs. */
  function WordsNeeded(c: RegisterConfig, text: seq<Byte>): nat {
    if c.format == String8 then (|text| + 1) / 2 else |text|
  }

  /** A text that fits its register is found in the words that are written for it. */
  lemma TextIsFound(c: RegisterConfig, text: seq<Byte>)
    requires IsPlainText(text) && WordsNeeded(c, text) <= c.WordWidth()
    ensures |StringWords(c, text)| == WordsNeeded(c, text)
    ensures UntilEnd(Characters(StringWords(c, text), c.format == String8)) == text
  {
    var words, two := StringWords(c, text), c.format == String8;
    var chars := Characters(words, two);
    forall i | 0 <= i < |chars| ensures chars[i] == CharAt(text, i) {
      WordHasChar(c, text, i);
    }
    UntilEndIs(chars, text);
  }

  lemma WordHasChar(c: RegisterConfig, text: seq<Byte>, i: nat)
    requires i < |Characters(StringWords(c, text), c.format == String8)|
    ensures Characters(StringWords(c, text), c.format == String8)[i] == CharAt(text, i)
  {
    var words, two := StringWords(c, text), c.format == String8;
    var k := if two then i / 2 else i;
    CharactersAre(words, two, k);
    StringWordIs(c, text, k);
    SameDigits(Characters(words, two)[i], CharAt(text, i));
  }

  lemma SameDigits(a: Byte, b: Byte)
    ensures a as Word == b as Word ==> a == b
  {
  }
}
