/**
 What writing a register does to its words: the data of the register goes into its field,
 and all other bits of the words stay.
 */
module ModbusFields {
  import opened BitFields
  import opened Bits
  import opened Common
  import opened Iteration
  import opened Registers
  import opened WordCodec
  import opened WordFields

  /** Words in the order of their addresses, most significant first, or the other way round. */
  function Ordered<A>(c: RegisterConfig, words: seq<A>): (r: seq<A>)
    ensures |r| == |words|
    ensures forall i | 0 <= i < |words| :: r[i] == words[Place(c, i, |words|)]
  {
    if c.wordOrder == LittleEndianWords then Reversed(words) else words
  }

  /** Where the word of an address is among the words of the number. */
  function Place(c: RegisterConfig, i: int, width: nat): int {
    if c.wordOrder == LittleEndianWords then width - 1 - i else i
  }

  lemma OrderedTwice<A>(c: RegisterConfig, words: seq<A>)
    ensures Ordered(c, Ordered(c, words)) == words
  {
  }

  /** The number that the words make after data is put in its field without regard to its width. */
  function WithData(c: RegisterConfig, number: Value, data: Value): Value {
    Put(BITS, number, data, c.dataOffset, c.DataWidth() % 0x100)
  }

  /** The words of the register, in the order of their addresses, after data is put among them. */
  function NewWords(c: RegisterConfig, words: seq<Word>, data: Value): (r: seq<Word>)
    ensures |r| == |words|
  {
    Ordered(c, WordsOf(WithData(c, Joined(Ordered(c, words)), data), |words|))
  }

  /** A number whose words a 64-bit value can hold. */
  predicate HoldsNumber(c: RegisterConfig) {
    && !c.IsString()
    && c.Constructed()
    && c.dataOffset + c.DataWidth() <= 64
  }

  lemma NumberFitsWords(c: RegisterConfig)
    requires HoldsNumber(c)
    ensures 1 <= c.WordWidth() <= MAX_WORDS
    ensures c.dataOffset + c.DataWidth() <= 16 * c.WordWidth()
    ensures c.DataWidth() % 0x100 == c.DataWidth()
  {
  }

  // ----- reading back -----

  lemma NumberReadsBack(v: Value, data: Value, offset: nat, width: nat, words: nat)
    requires offset + width <= 16 * words && words <= MAX_WORDS
    ensures Get(BITS, Joined(WordsOf(Put(BITS, v, data, offset, width), words)), offset, width)
         == BITS.and(data, BITS.Mask(width))
  {
    BitsObeyLaws();
    SplitAndJoin(Put(BITS, v, data, offset, width), words);
    PutAndGetPart(BITS, v, data, offset, width, 16 * words);
  }

  /** A written number reads back as its lowest bits, as many as the data has. */
  lemma NewWordsReadBack(c: RegisterConfig, words: seq<Word>, data: Value)
    requires HoldsNumber(c) && |words| == c.WordWidth()
    ensures ValueOf(c, NewWords(c, words, data)) == Number(BITS.and(data, LsbMask(c.DataWidth())))
  {
    NumberFitsWords(c);
    var v := Joined(Ordered(c, words));
    OrderedTwice(c, WordsOf(WithData(c, v, data), |words|));
    NumberReadsBack(v, data, c.dataOffset, c.DataWidth(), |words|);
  }

  // ----- the other bits -----

  /** The bits of the register's data in each of its words. */
  function FieldWords(c: RegisterConfig): (r: seq<Word>)
    ensures |r| == c.WordWidth()
  {
    Ordered(c, WordsOf(Field(BITS, c.dataOffset, c.DataWidth() % 0x100), c.WordWidth()))
  }

  /** The bits that the data brings to each word. */
  function DataWords(c: RegisterConfig, data: Value): (r: seq<Word>)
    ensures |r| == c.WordWidth()
  {
    Ordered(c, WordsOf(ShiftLeft(data, c.dataOffset), c.WordWidth()))
  }

  function OrWord(a: Word, b: Word): Word {
    a | b
  }

  function WithoutWord(a: Word, b: Word): Word {
    a & !b
  }

  /** A word that keeps its bits outside the field and takes the bits of the data. */
  function Blend(word: Word, field: Word, data: Word): Word {
    OrWord(WithoutWord(word, field), data)
  }

  lemma WordOfOr(a: Value, b: Value, k: nat)
    ensures PartOfOrRule(BITS, WordAt, OrWord, a, b, k)
  {
    match k
    case 0 =>
    case 1 =>
    case 2 =>
    case 3 =>
    case _ =>
  }

  lemma WordOfWithout(a: Value, b: Value, k: nat)
    ensures PartOfWithoutRule(BITS, WordAt, WithoutWord, a, b, k)
  {
    match k
    case 0 =>
    case 1 => SecondWordOfWithout(a, b);
    case 2 => ThirdWordOfWithout(a, b);
    case 3 => FourthWordOfWithout(a, b);
    case _ =>
  }

  lemma SecondWordOfWithout(a: Value, b: Value)
    ensures WordAt(a & !b, 1) == WithoutWord(WordAt(a, 1), WordAt(b, 1))
  {
  }

  lemma ThirdWordOfWithout(a: Value, b: Value)
    ensures WordAt(a & !b, 2) == WithoutWord(WordAt(a, 2), WordAt(b, 2))
  {
  }

  lemma FourthWordOfWithout(a: Value, b: Value)
    ensures WordAt(a & !b, 3) == WithoutWord(WordAt(a, 3), WordAt(b, 3))
  {
  }

  lemma WordOfWithData(c: RegisterConfig, v: Value, data: Value, k: nat)
    ensures WordAt(WithData(c, v, data), k) == Blend(
      WordAt(v, k), WordAt(Field(BITS, c.dataOffset, c.DataWidth() % 0x100), k), WordAt(ShiftLeft(data, c.dataOffset), k))
  {
    forall a, b, k ensures PartOfOrRule(BITS, WordAt, OrWord, a, b, k) { WordOfOr(a, b, k); }
    forall a, b, k ensures PartOfWithoutRule(BITS, WordAt, WithoutWord, a, b, k) { WordOfWithout(a, b, k); }
    PartOfPut(BITS, WordAt, OrWord, WithoutWord, v, data, c.dataOffset, c.DataWidth() % 0x100, k);
  }

  /** Words that come from old words and the data, one by one. */
  predicate AreBlended(all: seq<Word>, words: seq<Word>, fields: seq<Word>, data: seq<Word>)
    requires |all| == |words| == |fields| == |data|
  {
    forall j | 0 <= j < |all| :: all[j] == Blend(words[j], fields[j], data[j])
  }

  predicate BlendsAt(put: Value, number: Value, field: Value, x: Value, k: nat) {
    WordAt(put, k) == Blend(WordAt(number, k), WordAt(field, k), WordAt(x, k))
  }

  lemma SplitBlended(put: Value, number: Value, field: Value, x: Value, width: nat)
    requires forall k: nat :: BlendsAt(put, number, field, x, k)
    ensures AreBlended(WordsOf(put, width), WordsOf(number, width), WordsOf(field, width), WordsOf(x, width))
  {
    forall j | 0 <= j < width
      ensures WordsOf(put, width)[j] == Blend(WordsOf(number, width)[j], WordsOf(field, width)[j], WordsOf(x, width)[j])
    {
      assert BlendsAt(put, number, field, x, width - 1 - j);
    }
  }

  lemma WordsOfWithData(c: RegisterConfig, words: seq<Word>, data: Value)
    requires |words| <= MAX_WORDS
    ensures AreBlended(
      WordsOf(WithData(c, Joined(words), data), |words|), words,
      WordsOf(Field(BITS, c.dataOffset, c.DataWidth() % 0x100), |words|),
      WordsOf(ShiftLeft(data, c.dataOffset), |words|))
  {
    var number, field, x := Joined(words), Field(BITS, c.dataOffset, c.DataWidth() % 0x100), ShiftLeft(data, c.dataOffset);
    var put := WithData(c, number, data);
    forall k: nat ensures BlendsAt(put, number, field, x, k) {
      WordOfWithData(c, number, data, k);
    }
    SplitBlended(put, number, field, x, |words|);
    JoinAndSplit(words);
  }

  lemma OrderedBlended(c: RegisterConfig, all: seq<Word>, words: seq<Word>, fields: seq<Word>, data: seq<Word>)
    requires |all| == |words| == |fields| == |data|
    requires AreBlended(all, words, fields, data)
    ensures AreBlended(Ordered(c, all), Ordered(c, words), Ordered(c, fields), Ordered(c, data))
  {
  }

  lemma NewWordsAreBlended(c: RegisterConfig, words: seq<Word>, data: Value)
    requires |words| == c.WordWidth() <= MAX_WORDS
    ensures AreBlended(NewWords(c, words, data), words, FieldWords(c), DataWords(c, data))
  {
    var width, ordered := |words|, Ordered(c, words);
    WordsOfWithData(c, ordered, data);
    OrderedBlended(
      c, WordsOf(WithData(c, Joined(ordered), data), width), ordered,
      WordsOf(Field(BITS, c.dataOffset, c.DataWidth() % 0x100), width), WordsOf(ShiftLeft(data, c.dataOffset), width));
    OrderedTwice(c, words);
  }

  // ----- what the other bits become -----

  predicate SameOutside(word: Word, newWord: Word, field: Word) {
    newWord & !field == word & !field
  }

  /** Bits of the data that miss the field fall on ones. */
  predicate ExcessIsSet(word: Word, field: Word, data: Word) {
    data & !field & !word == 0
  }

  lemma BlendOutside(word: Word, field: Word, data: Word)
    ensures SameOutside(word, Blend(word, field, data), field) <==> ExcessIsSet(word, field, data)
  {
  }

  predicate StaysOutside(words: seq<Word>, newWords: seq<Word>, fields: seq<Word>, i: nat)
    requires i < |words| == |newWords| == |fields|
  {
    SameOutside(words[i], newWords[i], fields[i])
  }

  predicate ExcessIsSetAt(words: seq<Word>, fields: seq<Word>, data: seq<Word>, i: nat)
    requires i < |words| == |fields| == |data|
  {
    ExcessIsSet(words[i], fields[i], data[i])
  }

  lemma BlendedOutside(words: seq<Word>, newWords: seq<Word>, fields: seq<Word>, data: seq<Word>)
    requires |newWords| == |words| == |fields| == |data| && AreBlended(newWords, words, fields, data)
    ensures (forall i | 0 <= i < |words| :: StaysOutside(words, newWords, fields, i))
       <==> (forall i | 0 <= i < |words| :: ExcessIsSetAt(words, fields, data, i))
  {
    forall i | 0 <= i < |words|
      ensures StaysOutside(words, newWords, fields, i) <==> ExcessIsSetAt(words, fields, data, i)
    {
      BlendOutside(words[i], fields[i], data[i]);
    }
  }

  /**
   Writing leaves all bits outside the field as they were if and only if the data that is too wide for the field
   has ones only where ones are anyway.
   */
  lemma OutsideStays(c: RegisterConfig, words: seq<Word>, data: Value)
    requires |words| == c.WordWidth() <= MAX_WORDS
    ensures (forall i | 0 <= i < |words| :: StaysOutside(words, NewWords(c, words, data), FieldWords(c), i))
       <==> (forall i | 0 <= i < |words| :: ExcessIsSetAt(words, FieldWords(c), DataWords(c, data), i))
  {
    NewWordsAreBlended(c, words, data);
    BlendedOutside(words, NewWords(c, words, data), FieldWords(c), DataWords(c, data));
  }

  /** Data that the field is wide enough for. */
  predicate FitsField(c: RegisterConfig, data: Value) {
    BITS.and(data, BITS.Mask(c.DataWidth() % 0x100)) == data
  }

  predicate MissesNothing(field: Word, x: Word) {
    x & !field == 0
  }

  predicate MissesNothingAt(field: Value, x: Value, k: nat) {
    MissesNothing(WordAt(field, k), WordAt(x, k))
  }

  lemma CoveredMissesNothing(field: Value, x: Value, k: nat)
    requires BITS.and(x, field) == x
    ensures MissesNothingAt(field, x, k)
  {
    CoveredBits(field, x);
    WordOfCovered(field, x, k);
  }

  lemma CoveredBits(field: Value, x: Value)
    requires BITS.and(x, field) == x
    ensures x & field == x
  {
  }

  lemma WordOfCovered(field: Value, x: Value, k: nat)
    requires x & field == x
    ensures WordAt(x, k) & !WordAt(field, k) == 0
  {
    match k
    case 0 =>
    case 1 =>
    case 2 =>
    case 3 =>
    case _ =>
  }

  lemma FittingDataCovered(c: RegisterConfig, data: Value)
    requires FitsField(c, data)
    ensures var x := ShiftLeft(data, c.dataOffset);
      BITS.and(x, Field(BITS, c.dataOffset, c.DataWidth() % 0x100)) == x
  {
    BitsObeyLaws();
    MaskedGoesIntoField(BITS, data, c.dataOffset, c.DataWidth() % 0x100);
  }

  lemma OrderedMissesNothing(c: RegisterConfig, fields: seq<Word>, data: seq<Word>)
    requires |fields| == |data|
    requires forall j | 0 <= j < |data| :: MissesNothing(fields[j], data[j])
    ensures forall i | 0 <= i < |data| :: MissesNothing(Ordered(c, fields)[i], Ordered(c, data)[i])
  {
  }

  lemma WordsMissNothing(field: Value, x: Value, width: nat)
    requires forall k: nat :: MissesNothingAt(field, x, k)
    ensures forall j | 0 <= j < width :: MissesNothing(WordsOf(field, width)[j], WordsOf(x, width)[j])
  {
    forall j | 0 <= j < width ensures MissesNothing(WordsOf(field, width)[j], WordsOf(x, width)[j]) {
      assert MissesNothingAt(field, x, width - 1 - j);
    }
  }

  lemma FittingDataStaysInside(c: RegisterConfig, data: Value)
    requires FitsField(c, data)
    ensures forall i | 0 <= i < c.WordWidth() :: MissesNothing(FieldWords(c)[i], DataWords(c, data)[i])
  {
    var field, x, width := Field(BITS, c.dataOffset, c.DataWidth() % 0x100), ShiftLeft(data, c.dataOffset), c.WordWidth();
    FittingDataCovered(c, data);
    forall k: nat ensures MissesNothingAt(field, x, k) {
      CoveredMissesNothing(field, x, k);
    }
    WordsMissNothing(field, x, width);
    OrderedMissesNothing(c, WordsOf(field, width), WordsOf(x, width));
  }

  lemma NothingMissedIsSet(word: Word, field: Word, x: Word)
    requires MissesNothing(field, x)
    ensures ExcessIsSet(word, field, x)
  {
  }

  /** Data that fits the field changes no bit outside it. */
  lemma FittingDataKeepsOutside(c: RegisterConfig, words: seq<Word>, data: Value)
    requires |words| == c.WordWidth() <= MAX_WORDS && FitsField(c, data)
    ensures forall i | 0 <= i < |words| :: StaysOutside(words, NewWords(c, words, data), FieldWords(c), i)
  {
    FittingDataStaysInside(c, data);
    forall i | 0 <= i < |words| ensures ExcessIsSetAt(words, FieldWords(c), DataWords(c, data), i) {
      NothingMissedIsSet(words[i], FieldWords(c)[i], DataWords(c, data)[i]);
    }
    OutsideStays(c, words, data);
  }

  // ----- a field sees its own bits only -----

  lemma JoinedFieldWords(c: RegisterConfig)
    requires HoldsNumber(c)
    ensures Joined(Ordered(c, FieldWords(c))) == Field(BITS, c.dataOffset, c.DataWidth())
  {
    NumberFitsWords(c);
    var field, width := Field(BITS, c.dataOffset, c.DataWidth()), c.WordWidth();
    OrderedTwice(c, WordsOf(field, width));
    SplitAndJoin(field, width);
    BitsObeyLaws();
    FieldFits(BITS, c.dataOffset, c.DataWidth(), 16 * width);
  }

  predicate SameInside(a: Word, b: Word, field: Word) {
    AndWord(a, field) == AndWord(b, field)
  }

  lemma OrderedSameInside(c: RegisterConfig, a: seq<Word>, b: seq<Word>, fields: seq<Word>)
    requires |a| == |b| == |fields|
    requires forall i | 0 <= i < |a| :: SameInside(a[i], b[i], fields[i])
    ensures PlusAll(AndWord, Ordered(c, a), Ordered(c, fields)) == PlusAll(AndWord, Ordered(c, b), Ordered(c, fields))
  {
  }

  /** Words that agree on the bits of the field give the register the same value. */
  lemma ValueSeesItsBits(c: RegisterConfig, a: seq<Word>, b: seq<Word>)
    requires HoldsNumber(c) && |a| == |b| == c.WordWidth()
    requires forall i | 0 <= i < |a| :: SameInside(a[i], b[i], FieldWords(c)[i])
    ensures ValueOf(c, a) == ValueOf(c, b)
  {
    NumberFitsWords(c);
    OrderedSameInside(c, a, b, FieldWords(c));
    var fields := Ordered(c, FieldWords(c));
    JoinedAnd(Ordered(c, a), fields);
    JoinedAnd(Ordered(c, b), fields);
    JoinedFieldWords(c);
    NumbersSeeField(Joined(Ordered(c, a)), Joined(Ordered(c, b)), c.dataOffset, c.DataWidth());
  }

  lemma NumbersSeeField(a: Value, b: Value, offset: nat, width: nat)
    requires offset + width <= 64
    requires And(a, Field(BITS, offset, width)) == And(b, Field(BITS, offset, width))
    ensures Get(BITS, a, offset, width) == Get(BITS, b, offset, width)
  {
    BitsObeyLaws();
    FieldSeesItsBits(BITS, a, b, offset, width);
  }

  // ----- data that fills its words -----

  /** The data takes all bits of the words. */
  predicate FillsWords(c: RegisterConfig) {
    HoldsNumber(c) && c.dataOffset == 0 && c.DataWidth() == 16 * c.WordWidth()
  }

  lemma FullMaskWord(width: nat, k: nat)
    requires k < width <= MAX_WORDS
    ensures WordAt(MaskOfWords(width), k) == 0xFFFF
  {
  }

  lemma BlendFull(word: Word, data: Word)
    ensures Blend(word, 0xFFFF, data) == data
  {
  }

  lemma FullFieldWord(c: RegisterConfig, k: nat)
    requires FillsWords(c) && k < c.WordWidth()
    ensures WordAt(Field(BITS, c.dataOffset, c.DataWidth() % 0x100), k) == 0xFFFF
  {
    NumberFitsWords(c);
    MasksOfWords(c.WordWidth());
    FullMaskWord(c.WordWidth(), k);
  }

  lemma FullWord(c: RegisterConfig, number: Value, data: Value, k: nat)
    requires FillsWords(c) && k < c.WordWidth()
    ensures WordAt(WithData(c, number, data), k) == WordAt(data, k)
  {
    WordOfWithData(c, number, data, k);
    FullFieldWord(c, k);
    BlendFull(WordAt(number, k), WordAt(data, k));
  }

  predicate SameWordAt(a: Value, b: Value, k: nat) {
    WordAt(a, k) == WordAt(b, k)
  }

  lemma SameWords(a: Value, b: Value, width: nat)
    requires forall k: nat | k < width :: SameWordAt(a, b, k)
    ensures WordsOf(a, width) == WordsOf(b, width)
  {
    forall i | 0 <= i < width ensures WordsOf(a, width)[i] == WordsOf(b, width)[i] {
      assert SameWordAt(a, b, width - 1 - i);
    }
  }

  /** Nothing of the old words is left. */
  lemma FullNewWords(c: RegisterConfig, words: seq<Word>, data: Value)
    requires FillsWords(c) && |words| == c.WordWidth()
    ensures NewWords(c, words, data) == Ordered(c, WordsOf(data, c.WordWidth()))
  {
    var number := Joined(Ordered(c, words));
    forall k: nat | k < c.WordWidth() ensures SameWordAt(WithData(c, number, data), data, k) {
      FullWord(c, number, data, k);
    }
    SameWords(WithData(c, number, data), data, c.WordWidth());
  }
}
