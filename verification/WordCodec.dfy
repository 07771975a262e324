/**
 The words of a register: how they come out of the bytes of a response, and how the
 value of the register comes out of the words.
 */
module WordCodec {
  import opened BitFields
  import opened Bits
  import opened Common
  import opened Iteration
  import opened Registers

  /** Words of holding registers as they were last read or written, in the byte order of their register. */
  type Cache = map<int, Word>

  // ----- values -----

  function AppendWord(v: Value, w: Word): Value {
    (v << 16) | (w as Value)
  }

  /** Words, most significant first, as one number; what does not fit in 64 bits is lost. */
  function Joined(words: seq<Word>): Value {
    Fold(AppendWord, 0, words)
  }

  function NumberOf(words: seq<Word>, offset: nat, width: nat): Value {
    Get(BITS, Joined(words), offset, width % 0x100)
  }

  function HighByte(w: Word): Byte {
    ((w >> 8) & 0xFF) as Byte
  }

  function LowByte(w: Word): Byte {
    (w & 0xFF) as Byte
  }

  /** All characters the words can hold: one in a word, or two, the high byte first. */
  function Characters(words: seq<Word>, twoInWord: bool): (r: seq<Byte>)
    ensures |r| == |words| * if twoInWord then 2 else 1
  {
    if words == [] then []
    else (if twoInWord then [HighByte(words[0])] else []) + [LowByte(words[0])] + Characters(words[1..], twoInWord)
  }

  predicate EndsString(ch: Byte) {
    ch == 0 || ch == 0xFF
  }

  function UntilEnd(chars: seq<Byte>): seq<Byte> {
    if chars == [] || EndsString(chars[0]) then [] else [chars[0]] + UntilEnd(chars[1..])
  }

  function Reversed<A>(words: seq<A>): (r: seq<A>)
    ensures |r| == |words|
    ensures forall i | 0 <= i < |words| :: r[i] == words[|words| - 1 - i]
  {
    if words == [] then [] else Reversed(words[1..]) + [words[0]]
  }

  /** The value of a register whose words are given in the order of their addresses. */
  function ValueOf(c: RegisterConfig, words: seq<Word>): RegisterValue {
    var ordered := if c.wordOrder == LittleEndianWords then Reversed(words) else words;
    if c.IsString() then Text(UntilEnd(Characters(ordered, c.format == String8)))
    else Number(NumberOf(ordered, c.dataOffset, c.DataWidth()))
  }

  method GetNumberRegisterValue(words: seq<Word>, c: RegisterConfig) returns (value: Value)
    ensures value == NumberOf(words, c.dataOffset, c.DataWidth())
  {
    value := 0;
    for i := 0 to |words|
      invariant value == Joined(words[..i])
    {
      FoldNext(AppendWord, 0, words, i);
      value := value << 16;
      value := value | (words[i] as Value);
    }
    assert words[..|words|] == words;
    value := ShiftRight(value, c.dataOffset);
    value := value & LsbMask(c.DataWidth());
  }

  /** The characters still to come at word `it`, of which the high one may have been taken already. */
  function Rest(words: seq<Word>, twoInWord: bool, it: nat, whole: bool): seq<Byte>
    requires it <= |words|
  {
    if it == |words| || whole then Characters(words[it..], twoInWord)
    else [LowByte(words[it])] + Characters(words[it + 1..], twoInWord)
  }

  /** The next character, and what comes after it. */
  lemma RestStep(words: seq<Word>, twoInWord: bool, it: nat, whole: bool)
    requires it < |words|
    ensures var rest := Rest(words, twoInWord, it, whole);
      if twoInWord && whole then rest == [HighByte(words[it])] + Rest(words, twoInWord, it, false)
      else rest == [LowByte(words[it])] + Rest(words, twoInWord, it + 1, true)
  {
  }

  lemma {:induction false} UntilEndStep(str: seq<Byte>, ch: Byte, rest: seq<Byte>)
    ensures str + UntilEnd([ch] + rest) == if EndsString(ch) then str else str + [ch] + UntilEnd(rest)
  {
  }

  method GetStringRegisterValue(words: seq<Word>, c: RegisterConfig) returns (str: seq<Byte>)
    ensures str == UntilEnd(Characters(words, c.format == String8))
  {
    str := [];
    var two := c.format == String8;
    var offset := if two then 1 else 0;
    var shift := offset;
    var it := 0;
    ghost var all := UntilEnd(Characters(words, two));
    assert words[0..] == words;
    while it < |words|
      invariant 0 <= it <= |words| && 0 <= shift <= offset
      invariant it == |words| ==> shift == offset
      invariant all == str + UntilEnd(Rest(words, two, it, shift == offset))
      decreases |words| - it, shift
    {
      var ch := if shift == 1 then HighByte(words[it]) else LowByte(words[it]);
      RestStep(words, two, it, shift == offset);
      UntilEndStep(str, ch, if shift == 1 then Rest(words, two, it, false) else Rest(words, two, it + 1, true));
      if EndsString(ch) {
        return;
      }
      str := str + [ch];
      if shift > 0 {
        shift := shift - 1;
        continue;
      }
      shift := offset;
      it := it + 1;
    }
  }
}
