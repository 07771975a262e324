/**
 Reading a range by one request and slicing the answer back into registers, and reading
 a register alone.  The first gives every register of the range the value of the second.
 */
module ModbusRead {
  import opened Common
  import opened Registers
  import opened WordCodec

  // ----- the device -----

  /** The four data tables of a Modbus device, as far as they exist. */
  datatype Memory = Memory(
    holding: map<int, Word>,
    inputs: map<int, Word>,
    coils: map<int, bool>,
    discretes: map<int, bool>)
  {
    function Words(typ: RegisterType): map<int, Word> {
      if typ == Input then inputs else holding
    }

    function Bits(typ: RegisterType): map<int, bool> {
      if typ == Coil then coils else discretes
    }
  }

  predicate Exists<T>(table: map<int, T>, start: int, count: nat) {
    forall a | start <= a < start + count :: a in table
  }

  /** Registers are sent high byte first (sections 6.3 and 6.4 of the MODBUS Application Protocol). */
  function WordBytes(table: map<int, Word>, start: int, count: nat): (r: seq<Byte>)
    requires Exists(table, start, count)
    ensures |r| == 2 * count
  {
    if count == 0 then []
    else WordBytes(table, start, count - 1) + [HighByte(table[start + count - 1]), LowByte(table[start + count - 1])]
  }

  lemma {:induction false} WordBytesAt(table: map<int, Word>, start: int, count: nat, i: nat)
    requires Exists(table, start, count) && i < count
    ensures WordBytes(table, start, count)[2 * i] == HighByte(table[start + i])
    ensures WordBytes(table, start, count)[2 * i + 1] == LowByte(table[start + i])
  {
    if i < count - 1 {
      WordBytesAt(table, start, count - 1, i);
    }
  }

  function BitOf(b: bool): Byte {
    if b then 1 else 0
  }

  /** A byte of eight bits, the first one least significant. */
  function PackEight(b0: bool, b1: bool, b2: bool, b3: bool, b4: bool, b5: bool, b6: bool, b7: bool): Byte {
    BitOf(b0) | (BitOf(b1) << 1) | (BitOf(b2) << 2) | (BitOf(b3) << 3)
    | (BitOf(b4) << 4) | (BitOf(b5) << 5) | (BitOf(b6) << 6) | (BitOf(b7) << 7)
  }

  function BitAt(b: Byte, i: nat): bool
    requires i < 8
  {
    match i
    case 0 => b & 0x01 != 0
    case 1 => b & 0x02 != 0
    case 2 => b & 0x04 != 0
    case 3 => b & 0x08 != 0
    case 4 => b & 0x10 != 0
    case 5 => b & 0x20 != 0
    case 6 => b & 0x40 != 0
    case _ => b & 0x80 != 0
  }

  /** The bit sent for the i-th requested address; the last byte is padded with zeros. */
  predicate Sent(table: map<int, bool>, start: int, count: nat, i: nat) {
    i < count && start + i in table && table[start + i]
  }

  /** Bits are packed eight in a byte, least significant first (sections 6.1 and 6.2). */
  function BitBytes(table: map<int, bool>, start: int, count: nat): (r: seq<Byte>)
    ensures |r| == (count + 7) / 8
  {
    seq((count + 7) / 8, k requires 0 <= k => PackEight(
      Sent(table, start, count, 8 * k), Sent(table, start, count, 8 * k + 1),
      Sent(table, start, count, 8 * k + 2), Sent(table, start, count, 8 * k + 3),
      Sent(table, start, count, 8 * k + 4), Sent(table, start, count, 8 * k + 5),
      Sent(table, start, count, 8 * k + 6), Sent(table, start, count, 8 * k + 7)))
  }

  datatype Answer = Data(bytes: seq<Byte>) | IllegalAddress

  /** A device answers if every requested address exists. */
  function Respond(mem: Memory, c: RegisterConfig, start: int, count: nat): Answer {
    if c.IsSingleBit() then
      if Exists(mem.Bits(c.typ), start, count) then Data(BitBytes(mem.Bits(c.typ), start, count)) else IllegalAddress
    else
      if Exists(mem.Words(c.typ), start, count) then Data(WordBytes(mem.Words(c.typ), start, count)) else IllegalAddress
  }

  // ----- slicing an answer -----

  function WordFrom(order: ByteOrder, first: Byte, second: Byte): Word {
    if order == LittleEndianBytes then ((second as Word) << 8) | (first as Word)
    else ((first as Word) << 8) | (second as Word)
  }

  /** The words of a register from the word `index` of the data. */
  function WordsAt(data: seq<Byte>, c: RegisterConfig, index: nat): (r: seq<Word>)
    requires 2 * (index + c.WordWidth()) <= |data|
    ensures |r| == c.WordWidth()
  {
    seq(c.WordWidth(), i requires 0 <= i < c.WordWidth() =>
      WordFrom(c.byteOrder, data[2 * (index + i)], data[2 * (index + i) + 1]))
  }

  /** The cache after the words of a holding register are stored. */
  function Stored(cache: Cache, address: int, words: seq<Word>): Cache {
    if words == [] then cache
    else Stored(cache, address, words[..|words| - 1])[address + |words| - 1 := words[|words| - 1]]
  }

  method GetRegisterValue(data: seq<Byte>, c: RegisterConfig, cache: Cache, index: nat)
    returns (v: RegisterValue, newCache: Cache)
    requires 2 * (index + c.WordWidth()) <= |data|
    ensures v == ValueOf(c, WordsAt(data, c, index))
    ensures newCache == if c.IsHolding() then Stored(cache, c.address, WordsAt(data, c, index)) else cache
  {
    ghost var all := WordsAt(data, c, index);
    var width := c.WordWidth();
    var words := [];
    newCache := cache;
    var start := index * 2;
    for i := 0 to width
      invariant start == 2 * (index + i)
      invariant words == all[..i]
      invariant newCache == if c.IsHolding() then Stored(cache, c.address, words) else cache
    {
      assert all[..i + 1][..i] == all[..i];
      var word := WordFrom(c.byteOrder, data[start], data[start + 1]);
      words := words + [word];
      if c.IsHolding() {
        newCache := newCache[c.address + i := word];
      }
      start := start + 2;
    }
    assert words == all;
    if c.wordOrder == LittleEndianWords {
      words := Reversed(words);
    }
    if c.IsString() {
      var str := GetStringRegisterValue(words, c);
      v := Text(str);
    } else {
      var number := GetNumberRegisterValue(words, c);
      v := Number(number);
    }
  }

  /** The bits of an answer, one for each requested address. */
  method ParseBits(data: seq<Byte>, coilCount: nat) returns (bits: array<bool>)
    requires coilCount <= 8 * |data|
    ensures fresh(bits) && bits.Length == coilCount
    ensures forall i | 0 <= i < coilCount :: bits[i] == BitAt(data[i / 8], i % 8)
  {
    bits := new bool[coilCount];
    var left, destination, start := coilCount, 0, 0;
    while start != |data|
      invariant 0 <= start <= |data|
      invariant destination == Min(8 * start, coilCount) && left == coilCount - destination
      invariant forall i | 0 <= i < destination :: bits[i] == BitAt(data[i / 8], i % 8)
    {
      var coils := data[start];
      start := start + 1;
      var coilsInByte := Min(left, 8);
      for i := 0 to coilsInByte
        invariant forall k | 0 <= k < destination + i :: bits[k] == BitAt(data[k / 8], k % 8)
      {
        bits[destination + i] := BitAt(coils, i);
      }
      left := left - coilsInByte;
      destination := destination + coilsInByte;
    }
  }

  // ----- reading a register alone -----

  /** The value of a register that is read by a request of its own. */
  function ReadAlone(mem: Memory, c: RegisterConfig): Option<RegisterValue>
    requires c.WordWidth() > 0
  {
    match Respond(mem, c, c.address, c.WordWidth())
    case IllegalAddress => None
    case Data(bytes) => if c.IsSingleBit() then Some(Number(bytes[0] as Value)) else Some(ValueOf(c, WordsAt(bytes, c, 0)))
  }

  method ReadRegister(mem: Memory, c: RegisterConfig) returns (r: Option<RegisterValue>)
    requires c.WordWidth() > 0
    ensures r == ReadAlone(mem, c)
  {
    var answer := Respond(mem, c, c.address, c.WordWidth());
    if answer == IllegalAddress {
      return None;
    }
    if c.IsSingleBit() {
      return Some(Number(answer.bytes[0] as Value));
    }
    var v, _ := GetRegisterValue(answer.bytes, c, map[], 0);
    return Some(v);
  }

  // ----- one answer for the whole range -----

  /** What a range makes of its answer for one of its registers. */
  function ReadTogether(data: seq<Byte>, c: RegisterConfig, start: int): RegisterValue
    requires Fits(data, c, start)
  {
    var index := c.address - start;
    if c.IsSingleBit() then Number(if BitAt(data[index / 8], index % 8) then 1 else 0)
    else ValueOf(c, WordsAt(data, c, index))
  }

  predicate Fits(data: seq<Byte>, c: RegisterConfig, start: int) {
    && start <= c.address
    && if c.IsSingleBit() then c.address - start < 8 * |data|
       else 2 * (c.address - start + c.WordWidth()) <= |data|
  }

  /** A word of memory as a register sees it. */
  function Seen(order: ByteOrder, w: Word): Word {
    WordFrom(order, HighByte(w), LowByte(w))
  }

  /** The words of a register in memory, as it sees them. */
  function MemoryWords(table: map<int, Word>, c: RegisterConfig): (r: seq<Word>)
    requires Exists(table, c.address, c.WordWidth())
    ensures |r| == c.WordWidth()
  {
    seq(c.WordWidth(), i requires 0 <= i < c.WordWidth() => Seen(c.byteOrder, table[c.address + i]))
  }

  /** Wherever a request starts, it brings a register the words that are in memory. */
  lemma {:induction false} WordsAreMemory(table: map<int, Word>, start: int, count: nat, c: RegisterConfig)
    requires Exists(table, start, count)
    requires start <= c.address && c.address + c.WordWidth() <= start + count
    ensures Exists(table, c.address, c.WordWidth())
    ensures WordsAt(WordBytes(table, start, count), c, c.address - start) == MemoryWords(table, c)
  {
    var data := WordBytes(table, start, count);
    var got, want := WordsAt(data, c, c.address - start), MemoryWords(table, c);
    forall i | 0 <= i < c.WordWidth() ensures got[i] == want[i] {
      var j := c.address - start + i;
      var word := table[c.address + i];
      assert start + j == c.address + i;
      WordBytesAt(table, start, count, j);
      var high, low := data[2 * j], data[2 * j + 1];
      assert high == HighByte(word) && low == LowByte(word);
      assert got[i] == WordFrom(c.byteOrder, high, low);
      assert want[i] == Seen(c.byteOrder, word);
    }
  }

  lemma {:induction false} WordsTogether(table: map<int, Word>, start: int, count: nat, c: RegisterConfig)
    requires Exists(table, start, count)
    requires start <= c.address && c.address + c.WordWidth() <= start + count
    ensures Exists(table, c.address, c.WordWidth())
    ensures WordsAt(WordBytes(table, c.address, c.WordWidth()), c, 0)
         == WordsAt(WordBytes(table, start, count), c, c.address - start)
  {
    WordsAreMemory(table, start, count, c);
    WordsAreMemory(table, c.address, c.WordWidth(), c);
  }

  lemma PackedBit(b0: bool, b1: bool, b2: bool, b3: bool, b4: bool, b5: bool, b6: bool, b7: bool)
    ensures var b := PackEight(b0, b1, b2, b3, b4, b5, b6, b7);
      && BitAt(b, 0) == b0 && BitAt(b, 1) == b1 && BitAt(b, 2) == b2 && BitAt(b, 3) == b3
      && BitAt(b, 4) == b4 && BitAt(b, 5) == b5 && BitAt(b, 6) == b6 && BitAt(b, 7) == b7
  {
  }

  lemma BitOfPack(bits: seq<bool>, i: nat)
    requires |bits| == 8 && i < 8
    ensures BitAt(PackEight(bits[0], bits[1], bits[2], bits[3], bits[4], bits[5], bits[6], bits[7]), i) == bits[i]
  {
    PackedBit(bits[0], bits[1], bits[2], bits[3], bits[4], bits[5], bits[6], bits[7]);
  }

  /** Every requested bit comes back in its place. */
  lemma SentBitArrives(table: map<int, bool>, start: int, count: nat, i: nat)
    requires i < count
    ensures BitAt(BitBytes(table, start, count)[i / 8], i % 8) == Sent(table, start, count, i)
  {
    var k := i / 8;
    BitOfPack(
      [Sent(table, start, count, 8 * k), Sent(table, start, count, 8 * k + 1),
       Sent(table, start, count, 8 * k + 2), Sent(table, start, count, 8 * k + 3),
       Sent(table, start, count, 8 * k + 4), Sent(table, start, count, 8 * k + 5),
       Sent(table, start, count, 8 * k + 6), Sent(table, start, count, 8 * k + 7)], i % 8);
  }

  lemma SingleBitByte(b: bool)
    ensures PackEight(b, false, false, false, false, false, false, false) == if b then 1 else 0
  {
  }

  lemma BitsTogether(table: map<int, bool>, start: int, count: nat, a: int)
    requires Exists(table, start, count) && start <= a < start + count
    ensures BitAt(BitBytes(table, start, count)[(a - start) / 8], (a - start) % 8) == table[a]
    ensures BitBytes(table, a, 1)[0] == if table[a] then 1 else 0
  {
    SentBitArrives(table, start, count, a - start);
    assert BitBytes(table, a, 1)[0] == PackEight(table[a], false, false, false, false, false, false, false);
    SingleBitByte(table[a]);
  }

  /**
   A request for a range gives each of its registers the value that a request for the register alone gives,
   for every word order, byte order, bit offset and overlap; bits are taken to be one address wide.
   */
  lemma TogetherIsAlone(mem: Memory, c: RegisterConfig, start: int, count: nat)
    requires c.WordWidth() > 0 && (c.IsSingleBit() ==> c.WordWidth() == 1)
    requires start <= c.address && c.address + c.WordWidth() <= start + count
    requires Respond(mem, c, start, count).Data?
    ensures Fits(Respond(mem, c, start, count).bytes, c, start)
    ensures ReadAlone(mem, c) == Some(ReadTogether(Respond(mem, c, start, count).bytes, c, start))
  {
    if c.IsSingleBit() {
      BitTogetherIsAlone(mem, c, start, count);
    } else {
      WordsTogetherAreAlone(mem, c, start, count);
    }
  }

  lemma BitTogetherIsAlone(mem: Memory, c: RegisterConfig, start: int, count: nat)
    requires c.IsSingleBit() && c.WordWidth() == 1 && start <= c.address < start + count
    requires Respond(mem, c, start, count).Data?
    ensures Fits(Respond(mem, c, start, count).bytes, c, start)
    ensures ReadAlone(mem, c) == Some(ReadTogether(Respond(mem, c, start, count).bytes, c, start))
  {
    BitsTogether(mem.Bits(c.typ), start, count, c.address);
    BitAlone(mem, c);
    BitTogether(BitBytes(mem.Bits(c.typ), start, count), c, start);
  }

  lemma BitTogether(data: seq<Byte>, c: RegisterConfig, start: int)
    requires c.IsSingleBit() && Fits(data, c, start)
    ensures var i := c.address - start; ReadTogether(data, c, start) == Number(if BitAt(data[i / 8], i % 8) then 1 else 0)
  {
  }

  lemma BitAlone(mem: Memory, c: RegisterConfig)
    requires c.IsSingleBit() && c.WordWidth() == 1 && c.address in mem.Bits(c.typ)
    ensures ReadAlone(mem, c) == Some(Number(if mem.Bits(c.typ)[c.address] then 1 else 0))
  {
    var table := mem.Bits(c.typ);
    BitsTogether(table, c.address, 1, c.address);
    BitAsValue(BitBytes(table, c.address, 1)[0], table[c.address]);
  }

  lemma BitAsValue(b: Byte, bit: bool)
    requires b == if bit then 1 else 0
    ensures b as Value == if bit then 1 else 0
  {
  }

  lemma WordsTogetherAreAlone(mem: Memory, c: RegisterConfig, start: int, count: nat)
    requires c.WordWidth() > 0 && !c.IsSingleBit()
    requires start <= c.address && c.address + c.WordWidth() <= start + count
    requires Respond(mem, c, start, count).Data?
    ensures Fits(Respond(mem, c, start, count).bytes, c, start)
    ensures ReadAlone(mem, c) == Some(ReadTogether(Respond(mem, c, start, count).bytes, c, start))
  {
    var table := mem.Words(c.typ);
    var alone, together := WordBytes(table, c.address, c.WordWidth()), WordBytes(table, start, count);
    WordsTogether(table, start, count, c);
    AloneIs(mem, c, alone);
    TogetherIs(together, c, start, c.address - start);
  }

  lemma AloneIs(mem: Memory, c: RegisterConfig, data: seq<Byte>)
    requires c.WordWidth() > 0 && !c.IsSingleBit() && Exists(mem.Words(c.typ), c.address, c.WordWidth())
    requires data == WordBytes(mem.Words(c.typ), c.address, c.WordWidth())
    ensures ReadAlone(mem, c) == Some(ValueOf(c, WordsAt(data, c, 0)))
  {
  }

  lemma TogetherIs(data: seq<Byte>, c: RegisterConfig, start: int, index: nat)
    requires !c.IsSingleBit() && Fits(data, c, start) && index == c.address - start
    ensures ReadTogether(data, c, start) == ValueOf(c, WordsAt(data, c, index))
  {
  }

  predicate IsSecond(c: RegisterConfig, a: int) {
    a == c.address + 1
  }

  /** A bit register that spans two or more addresses is read differently alone: then other bits show, too. */
  lemma WideBitDiffers(c: RegisterConfig) returns (mem: Memory)
    requires c.IsSingleBit() && 1 < c.WordWidth()
    ensures Respond(mem, c, c.address, c.WordWidth()).Data?
    ensures ReadAlone(mem, c) != Some(ReadTogether(Respond(mem, c, c.address, c.WordWidth()).bytes, c, c.address))
  {
    var width := c.WordWidth();
    var table := map a | c.address <= a < c.address + width :: IsSecond(c, a);
    mem := Memory(map[], map[], table, table);
    OnlySecondArrives(table, c.address, width);
  }

  lemma OnlySecondArrives(table: map<int, bool>, address: int, width: nat)
    requires 1 < width && address in table && address + 1 in table && !table[address] && table[address + 1]
    ensures !BitAt(BitBytes(table, address, width)[0], 0) && BitBytes(table, address, width)[0] as Value != 0
  {
    SentBitArrives(table, address, width, 0);
    SentBitArrives(table, address, width, 1);
    SecondBitShows(BitBytes(table, address, width)[0]);
  }

  lemma SecondBitShows(b: Byte)
    requires BitAt(b, 1)
    ensures b as Value != 0
  {
  }
}
