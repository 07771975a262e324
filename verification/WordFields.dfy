/**
 Numbers of up to 64 bits as words, most significant first, and fields of bits in them.
 */
module WordFields {
  import opened Bits
  import opened Common
  import opened Iteration
  import opened WordCodec

  const MAX_WORDS := 4

  /** Word k of a number, the least significant one first. */
  function WordAt(v: Value, k: nat): Word {
    match k
    case 0 => (v & 0xFFFF) as Word
    case 1 => ((v >> 16) & 0xFFFF) as Word
    case 2 => ((v >> 32) & 0xFFFF) as Word
    case 3 => ((v >> 48) & 0xFFFF) as Word
    case _ => 0
  }

  /** The lowest words of a number, most significant first. */
  function WordsOf(v: Value, width: nat): (r: seq<Word>)
    ensures |r| == width
    ensures forall i | 0 <= i < width :: r[i] == WordAt(v, width - 1 - i)
  {
    seq(width, i requires 0 <= i < width => WordAt(v, width - 1 - i))
  }

  function JoinedFour(a: Word, b: Word, c: Word, d: Word): Value {
    AppendWord(AppendWord(AppendWord(AppendWord(0, a), b), c), d)
  }

  lemma FourWords(a: Word, b: Word, c: Word, d: Word)
    ensures WordAt(JoinedFour(a, b, c, d), 0) == d
    ensures WordAt(JoinedFour(a, b, c, d), 1) == c
    ensures WordAt(JoinedFour(a, b, c, d), 2) == b
    ensures WordAt(JoinedFour(a, b, c, d), 3) == a
  {
  }

  function Padded(words: seq<Word>, i: nat): Word {
    if i < |words| then words[|words| - 1 - i] else 0
  }

  lemma JoinedIsFour(words: seq<Word>)
    requires |words| <= MAX_WORDS
    ensures Joined(words) == JoinedFour(Padded(words, 3), Padded(words, 2), Padded(words, 1), Padded(words, 0))
  {
    AppendNothing();
    FoldFour(AppendWord, 0, words);
  }

  lemma AppendNothing()
    ensures AppendWord(0, 0) == 0
  {
  }

  lemma {:induction false} FoldFour<T, A>(step: (T, A) -> T, s: T, data: seq<A>)
    requires |data| <= 4
    ensures |data| == 0 ==> Fold(step, s, data) == s
    ensures |data| == 1 ==> Fold(step, s, data) == step(s, data[0])
    ensures |data| == 2 ==> Fold(step, s, data) == step(step(s, data[0]), data[1])
    ensures |data| == 3 ==> Fold(step, s, data) == step(step(step(s, data[0]), data[1]), data[2])
    ensures |data| == 4 ==> Fold(step, s, data) == step(step(step(step(s, data[0]), data[1]), data[2]), data[3])
  {
    if data != [] {
      FoldFour(step, s, data[..|data| - 1]);
    }
  }

  lemma {:induction false} MaskOfBytes(k: nat, power: Value)
    requires k < 8 && Iterate(ByteUp, 1, k) == power
    ensures BITS.Mask(8 * k) == power - 1
  {
    EightDoubles();
    IterateByEight(Double, ByteUp, 1, k);
    MaskBelow(8 * k, power);
  }

  lemma MaskBelow(n: nat, power: Value)
    requires n < 64 && ShiftLeft(1, n) == power
    ensures BITS.Mask(n) == power - 1
  {
  }

  lemma PowersOfWords()
    ensures Iterate(ByteUp, 1, 2) == 0x1_0000
    ensures Iterate(ByteUp, 1, 4) == 0x1_0000_0000
    ensures Iterate(ByteUp, 1, 6) == 0x1_0000_0000_0000
  {
  }

  function MaskOfWords(width: nat): Value {
    match width
    case 0 => 0
    case 1 => 0xFFFF
    case 2 => 0xFFFF_FFFF
    case 3 => 0xFFFF_FFFF_FFFF
    case _ => ALL_ONES
  }

  lemma MasksOfWords(width: nat)
    requires width <= MAX_WORDS
    ensures BITS.Mask(16 * width) == MaskOfWords(width)
  {
    PowersOfWords();
    match width
    case 0 => MaskOfBytes(0, 1);
    case 1 => MaskOfBytes(2, 0x1_0000);
    case 2 => MaskOfBytes(4, 0x1_0000_0000);
    case 3 => MaskOfBytes(6, 0x1_0000_0000_0000);
    case _ =>
  }

  function WordUp(v: Value): Value {
    v >> 16
  }

  function LowestWord(v: Value): Word {
    WordAt(v, 0)
  }

  function LowestWords(v: Value, width: nat): Value {
    v & MaskOfWords(width)
  }

  lemma WordsAbove(v: Value, width: nat)
    requires 0 < width
    ensures SplitsRule(WordsOf, WordUp, LowestWord, v, width)
  {
  }

  lemma AppendLowest(v: Value, width: nat)
    requires 0 < width
    ensures AppendsRule(AppendWord, WordUp, LowestWord, LowestWords, v, width)
  {
  }

  lemma NoWords(v: Value)
    ensures WordsOf(v, 0) == [] && LowestWords(v, 0) == 0
  {
  }

  lemma SplitAndJoinWords(v: Value, width: nat)
    ensures Joined(WordsOf(v, width)) == LowestWords(v, width)
  {
    forall v, w: nat | 0 < w ensures SplitsRule(WordsOf, WordUp, LowestWord, v, w) { WordsAbove(v, w); }
    forall v, w: nat | 0 < w ensures AppendsRule(AppendWord, WordUp, LowestWord, LowestWords, v, w) {
      AppendLowest(v, w);
    }
    forall v ensures EndsRule(WordsOf, LowestWords, 0, v) { NoWords(v); }
    FoldOfSplit(AppendWord, WordUp, LowestWord, WordsOf, LowestWords, 0, v, width);
  }

  lemma LowestWordsAreMasked(v: Value, width: nat)
    requires width <= MAX_WORDS
    ensures LowestWords(v, width) == BITS.and(v, BITS.Mask(16 * width))
  {
    MasksOfWords(width);
  }

  /** The words of a number joined are the number, as far as there are words. */
  lemma SplitAndJoin(v: Value, width: nat)
    requires width <= MAX_WORDS
    ensures Joined(WordsOf(v, width)) == BITS.and(v, BITS.Mask(16 * width))
  {
    SplitAndJoinWords(v, width);
    LowestWordsAreMasked(v, width);
  }

  // Splitting and joining in general: parts are taken off from below and appended again.

  predicate SplitsRule<T, A(==)>(split: (T, nat) -> seq<A>, up: T -> T, lowest: T -> A, v: T, width: nat)
    requires 0 < width
  {
    split(v, width) == split(up(v), width - 1) + [lowest(v)]
  }

  predicate AppendsRule<T(==), A>(
      append: (T, A) -> T, up: T -> T, lowest: T -> A, kept: (T, nat) -> T, v: T, width: nat)
    requires 0 < width
  {
    append(kept(up(v), width - 1), lowest(v)) == kept(v, width)
  }

  predicate EndsRule<T(==), A(==)>(split: (T, nat) -> seq<A>, kept: (T, nat) -> T, zero: T, v: T) {
    split(v, 0) == [] && kept(v, 0) == zero
  }

  lemma {:induction false} FoldOfSplit<T(!new), A(!new)>(
      append: (T, A) -> T, up: T -> T, lowest: T -> A, split: (T, nat) -> seq<A>, kept: (T, nat) -> T,
      zero: T, v: T, width: nat)
    requires forall v, w: nat | 0 < w :: SplitsRule(split, up, lowest, v, w)
    requires forall v, w: nat | 0 < w :: AppendsRule(append, up, lowest, kept, v, w)
    requires forall v :: EndsRule(split, kept, zero, v)
    ensures Fold(append, zero, split(v, width)) == kept(v, width)
  {
    if width == 0 {
      assert EndsRule(split, kept, zero, v);
    } else {
      FoldOfSplit(append, up, lowest, split, kept, zero, up(v), width - 1);
      assert SplitsRule(split, up, lowest, v, width);
      assert AppendsRule(append, up, lowest, kept, v, width);
      var parts := split(v, width);
      assert parts[..|parts| - 1] == split(up(v), width - 1);
    }
  }

  /** Words joined and split are the words. */
  lemma JoinAndSplit(words: seq<Word>)
    requires |words| <= MAX_WORDS
    ensures WordsOf(Joined(words), |words|) == words
  {
    JoinedIsFour(words);
    FourWords(Padded(words, 3), Padded(words, 2), Padded(words, 1), Padded(words, 0));
    var v := Joined(words);
    forall i | 0 <= i < |words| ensures WordsOf(v, |words|)[i] == words[i] {
      assert WordAt(v, |words| - 1 - i) == Padded(words, |words| - 1 - i);
    }
  }

  // ----- words combined -----

  function AndWord(a: Word, b: Word): Word {
    a & b
  }

  lemma AppendsAddUp()
    ensures AddsUp(AppendWord, And, AndWord)
  {
    forall s, t, a, b ensures And(AppendWord(s, a), AppendWord(t, b)) == AppendWord(And(s, t), AndWord(a, b)) {
      AppendsAdd(s, t, a, b);
    }
  }

  lemma AppendsAdd(s: Value, t: Value, a: Word, b: Word)
    ensures AppendWord(s, a) & AppendWord(t, b) == AppendWord(s & t, a & b)
  {
  }

  lemma JoinedAnd(a: seq<Word>, b: seq<Word>)
    requires |a| == |b|
    ensures And(Joined(a), Joined(b)) == Joined(PlusAll(AndWord, a, b))
  {
    AppendsAddUp();
    DifferenceOfRuns(AppendWord, And, AndWord, 0, 0, a, b);
  }
}
