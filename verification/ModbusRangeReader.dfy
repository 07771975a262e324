/**
 A whole read of a range: the request, the answer sliced into the registers and the cache,
 and what becomes of the registers and the device when the read fails.
 */
module ModbusRangeReader {
  import opened Common
  import opened Registers
  import opened WordCodec
  import opened ModbusCache
  import opened ModbusRange
  import opened ModbusRead

  datatype Transfer = Answered | NotAnswered

  // ----- Wirenboard devices mark the strings they do not have -----

  const UNKNOWN_TEXT: seq<Byte> := [0x75, 0x6E, 0x6B, 0x6E, 0x6F, 0x77, 0x6E]

  predicate IsUnknownText(v: RegisterValue, width: nat) {
    v.Text? && |v.text| >= width && forall i | 0 <= i < width :: v.text[i] == 0xFE
  }

  /** The value a register is left with when `v` is read for it. */
  function Published(c: RegisterConfig, isWb: bool, v: RegisterValue): RegisterValue {
    if isWb && c.format == String && !c.IsSingleBit() && IsUnknownText(v, c.WordWidth()) then Text(UNKNOWN_TEXT) else v
  }

  /** Only strings of Wirenboard devices that begin with as many bytes 0xFE as there are words are not published. */
  lemma PublishedExactly(c: RegisterConfig, isWb: bool, v: RegisterValue)
    ensures isWb && c.format == String && c.typ != Coil && c.typ != Discrete && v.Text?
            && seq(c.WordWidth(), i => 0xFE) <= v.text ==>
        Published(c, isWb, v) == Text([0x75, 0x6E, 0x6B, 0x6E, 0x6F, 0x77, 0x6E])
    ensures !isWb || c.format != String || c.typ == Coil || c.typ == Discrete || !v.Text?
            || !(seq(c.WordWidth(), i => 0xFE) <= v.text) ==>
        Published(c, isWb, v) == v
  {
    var marks := seq(c.WordWidth(), i => 0xFE);
    if v.Text? && IsUnknownText(v, c.WordWidth()) {
      assert v.text[..|marks|] == marks;
    }
    if v.Text? && marks <= v.text {
      forall i | 0 <= i < |marks| ensures v.text[i] == 0xFE {
        assert v.text[i] == marks[i];
      }
    }
  }

  method CheckWbStringRegister(reg: Register)
    requires reg.value.Text?
    modifies reg
    ensures if |old(reg.value).text| >= reg.config.WordWidth()
               && (forall i | 0 <= i < reg.config.WordWidth() :: old(reg.value).text[i] == 0xFE) then
              && reg.value == Text(UNKNOWN_TEXT) && reg.readError && !reg.supported && reg.excludedFromPolling
              && reg.available ==
                if reg.config.unsupportedValue == Some(Text(UNKNOWN_TEXT)) then Unavailable else Available
            else unchanged(reg)
  {
    var str := reg.value.text;
    var width := reg.config.WordWidth();
    if |str| < width {
      return;
    }
    for i := 0 to width
      invariant forall k | 0 <= k < i :: str[k] == 0xFE
      invariant unchanged(reg)
    {
      if str[i] != 0xFE {
        return;
      }
    }
    reg.SetValue(Text(UNKNOWN_TEXT));
    reg.readError := true;
    reg.supported := false;
    reg.excludedFromPolling := true;
  }

  // ----- the values -----

  /** What the answer holds for the registers, one by one. */
  function Answers(configs: seq<RegisterConfig>, data: seq<Byte>, start: int): (r: seq<RegisterValue>)
    requires AllFit(configs, data, start)
    ensures |r| == |configs|
  {
    if configs == [] then []
    else Answers(configs[..|configs| - 1], data, start) + [ReadTogether(data, configs[|configs| - 1], start)]
  }

  predicate AllFit(configs: seq<RegisterConfig>, data: seq<Byte>, start: int) {
    forall i | 0 <= i < |configs| :: Fits(data, configs[i], start)
  }

  lemma {:induction false} AnswersAt(configs: seq<RegisterConfig>, data: seq<Byte>, start: int, i: nat)
    requires AllFit(configs, data, start) && i < |configs|
    ensures Answers(configs, data, start)[i] == ReadTogether(data, configs[i], start)
  {
    if i < |configs| - 1 {
      AnswersAt(configs[..|configs| - 1], data, start, i);
    }
  }

  method BitAnswers(configs: seq<RegisterConfig>, data: seq<Byte>, start: int, count: nat)
    returns (values: seq<RegisterValue>)
    requires count <= 8 * |data| && AllFit(configs, data, start)
    requires forall c | c in configs :: c.IsSingleBit() && c.address < start + count
    ensures values == Answers(configs, data, start)
  {
    var bits := ParseBits(data, count);
    values := [];
    for i := 0 to |configs|
      invariant values == Answers(configs[..i], data, start)
    {
      assert configs[..i + 1][..i] == configs[..i];
      values := values + [Number(if bits[configs[i].address - start] then 1 else 0)];
    }
    assert configs[..|configs|] == configs;
  }

  ghost predicate Within(configs: seq<RegisterConfig>, start: int, count: nat) {
    forall c | c in configs :: start <= c.address && c.address + c.WordWidth() <= start + count
  }

  ghost predicate AllUseOrder(configs: seq<RegisterConfig>, orderOf: OrderOf) {
    forall c | c in configs :: UsesOrder(c, orderOf)
  }

  /** What reading the registers does to the cache. */
  ghost predicate AllFollow(
      cache: Cache, newCache: Cache, configs: seq<RegisterConfig>, table: map<int, Word>, orderOf: OrderOf)
  {
    && cache.Keys <= newCache.Keys
    && (forall c | c in configs && c.IsHolding() :: AllCached(c, newCache))
    && ((forall c | c in configs :: !c.IsHolding()) ==> newCache == cache)
    && (CacheAgrees(cache, table, orderOf) && AllUseOrder(configs, orderOf) ==> CacheAgrees(newCache, table, orderOf))
  }

  lemma FollowNext(
      cache: Cache, soFar: Cache, newCache: Cache,
      configs: seq<RegisterConfig>, i: nat, table: map<int, Word>, orderOf: OrderOf)
    requires i < |configs| && AllFollow(cache, soFar, configs[..i], table, orderOf)
    requires if configs[i].IsHolding() then Follows(soFar, newCache, configs[i], table, orderOf) else newCache == soFar
    ensures AllFollow(cache, newCache, configs[..i + 1], table, orderOf)
  {
  }

  lemma {:induction false} AnswersNext(configs: seq<RegisterConfig>, data: seq<Byte>, start: int, i: nat)
    requires i < |configs| && AllFit(configs, data, start)
    ensures Answers(configs[..i + 1], data, start)
         == Answers(configs[..i], data, start) + [ReadTogether(data, configs[i], start)]
  {
    assert configs[..i + 1][..i] == configs[..i];
  }

  method WordAnswer(c: RegisterConfig, data: seq<Byte>, start: int, cache: Cache)
    returns (v: RegisterValue, newCache: Cache)
    requires !c.IsSingleBit() && Fits(data, c, start)
    ensures v == ReadTogether(data, c, start)
    ensures newCache == if c.IsHolding() then Stored(cache, c.address, WordsAt(data, c, c.address - start)) else cache
  {
    var index := c.address - start;
    v, newCache := GetRegisterValue(data, c, cache, index);
    TogetherIs(data, c, start, index);
  }

  /** A register's own part of the answer, and its part of the cache. */
  method WordAnswerCached(
      c: RegisterConfig, data: seq<Byte>, start: int, cache: Cache,
      ghost count: nat, ghost table: map<int, Word>, ghost orderOf: OrderOf)
    returns (v: RegisterValue, newCache: Cache)
    requires !c.IsSingleBit() && Fits(data, c, start)
    requires Exists(table, start, count) && data == WordBytes(table, start, count)
    requires c.address + c.WordWidth() <= start + count
    ensures v == ReadTogether(data, c, start)
    ensures if c.IsHolding() then Follows(cache, newCache, c, table, orderOf) else newCache == cache
  {
    v, newCache := WordAnswer(c, data, start, cache);
    StoringAnswer(cache, c, start, count, table, orderOf);
  }

  method NextWordAnswer(
      configs: seq<RegisterConfig>, i: nat, data: seq<Byte>, start: int, cache: Cache,
      ghost count: nat, ghost table: map<int, Word>, ghost orderOf: OrderOf, ghost atFirst: Cache)
    returns (v: RegisterValue, newCache: Cache)
    requires i < |configs| && forall c | c in configs :: !c.IsSingleBit()
    requires Exists(table, start, count) && data == WordBytes(table, start, count)
    requires AllFit(configs, data, start) && Within(configs, start, count)
    requires AllFollow(atFirst, cache, configs[..i], table, orderOf)
    ensures Answers(configs[..i + 1], data, start) == Answers(configs[..i], data, start) + [v]
    ensures AllFollow(atFirst, newCache, configs[..i + 1], table, orderOf)
  {
    AnswersNext(configs, data, start, i);
    v, newCache := WordAnswerCached(configs[i], data, start, cache, count, table, orderOf);
    FollowNext(atFirst, cache, newCache, configs, i, table, orderOf);
  }

  method WordAnswers(
      configs: seq<RegisterConfig>, data: seq<Byte>, start: int, cache: Cache,
      ghost count: nat, ghost table: map<int, Word>, ghost orderOf: OrderOf)
    returns (values: seq<RegisterValue>, newCache: Cache)
    requires forall c | c in configs :: !c.IsSingleBit()
    requires Exists(table, start, count) && data == WordBytes(table, start, count)
    requires AllFit(configs, data, start) && Within(configs, start, count)
    ensures values == Answers(configs, data, start)
    ensures AllFollow(cache, newCache, configs, table, orderOf)
  {
    values, newCache := [], cache;
    for i := 0 to |configs|
      invariant values == Answers(configs[..i], data, start)
      invariant AllFollow(cache, newCache, configs[..i], table, orderOf)
    {
      var v: RegisterValue;
      v, newCache := NextWordAnswer(configs, i, data, start, newCache, count, table, orderOf, cache);
      values := values + [v];
    }
    assert configs[..|configs|] == configs;
  }

  // ----- the registers -----

  function ConfigsOf(regs: seq<Register>): (r: seq<RegisterConfig>)
    ensures |r| == |regs| && forall i | 0 <= i < |regs| :: r[i] == regs[i].config
  {
    seq(|regs|, i requires 0 <= i < |regs| => regs[i].config)
  }

  /** A value for every register that depends on how the register is configured only. */
  type ValueFor = RegisterConfig -> RegisterValue

  predicate ChecksString(reg: Register) {
    reg.device.isWb && reg.config.format == String && !reg.config.IsSingleBit()
  }

  ghost predicate Holds(reg: Register, valueFor: ValueFor)
    reads reg
  {
    reg.value == Published(reg.config, reg.device.isWb, valueFor(reg.config))
  }

  method SetValues(regs: seq<Register>, values: seq<RegisterValue>, ghost valueFor: ValueFor)
    requires |values| == |regs|
    requires forall i | 0 <= i < |regs| :: values[i] == valueFor(regs[i].config)
    requires forall i | 0 <= i < |regs| && ChecksString(regs[i]) :: values[i].Text?
    modifies regs
    ensures forall i | 0 <= i < |regs| :: Holds(regs[i], valueFor)
  {
    for i := 0 to |regs|
      invariant forall k | 0 <= k < i :: Holds(regs[k], valueFor)
    {
      var reg := regs[i];
      reg.SetValue(values[i]);
      if ChecksString(reg) {
        CheckWbStringRegister(reg);
      }
    }
  }

  /** Sets the error of every register that was to be read; an address that does not exist makes it unavailable. */
  method MarkFailed(regs: seq<Register>, unavailable: bool)
    modifies regs
    ensures forall r | r in regs :: r.readError && r.value == old(r.value)
    ensures forall r | r in regs :: r.available == if unavailable then Unavailable else old(r.available)
    ensures forall r | r in regs :: r.excludedFromPolling == (unavailable || old(r.excludedFromPolling))
  {
    for i := 0 to |regs|
      invariant forall r | r in regs[..i] :: r.readError
      invariant forall r | r in regs :: r.value == old(r.value)
      invariant forall r | r in regs[..i] :: r.available == if unavailable then Unavailable else old(r.available)
      invariant forall r | r in regs[..i] :: r.excludedFromPolling == (unavailable || old(r.excludedFromPolling))
      invariant forall r | r in regs && r !in regs[..i] ::
          r.available == old(r.available) && r.excludedFromPolling == old(r.excludedFromPolling)
    {
      var reg := regs[i];
      assert regs[..i + 1] == regs[..i] + [reg];
      if unavailable {
        reg.SetAvailable(Unavailable);
      }
      reg.readError := true;
    }
    assert regs[..|regs|] == regs;
  }

  // ----- the read -----

  /** What the invariant of a range says of its registers. */
  ghost predicate Readable(range: RegisterRange)
    reads range
  {
    && range.registerList != []
    && CanRead(ConfigsOf(range.registerList), range.start, range.count)
  }

  ghost predicate CanRead(configs: seq<RegisterConfig>, start: int, count: nat) {
    && (forall c, d | c in configs && d in configs :: c.typ == d.typ)
    && (forall c | c in configs :: 0 < c.WordWidth())
    && Within(configs, start, count)
  }

  lemma InvariantMeansReadable(range: RegisterRange)
    requires range.Valid() && Invariant(range.State()) && range.registerList != []
    ensures Readable(range)
  {
  }

  /** The answer of the device, cut up for every register. */
  function Cut(data: seq<Byte>, start: int): ValueFor {
    (c: RegisterConfig) => if Fits(data, c, start) then ReadTogether(data, c, start) else Undefined
  }

  lemma AnswerFits(mem: Memory, configs: seq<RegisterConfig>, start: int, count: nat)
    requires configs != [] && CanRead(configs, start, count) && Respond(mem, configs[0], start, count).Data?
    ensures AllFit(configs, Respond(mem, configs[0], start, count).bytes, start)
  {
  }

  method ParseReadResponse(
      data: seq<Byte>, configs: seq<RegisterConfig>, start: int, count: nat, cache: Cache,
      ghost mem: Memory, ghost orderOf: OrderOf)
    returns (values: seq<RegisterValue>, newCache: Cache)
    requires configs != [] && CanRead(configs, start, count) && Respond(mem, configs[0], start, count) == Data(data)
    ensures AllFit(configs, data, start) && values == Answers(configs, data, start)
    ensures AllFollow(cache, newCache, configs, mem.Words(configs[0].typ), orderOf)
  {
    AnswerFits(mem, configs, start, count);
    assert configs[0] in configs;
    if configs[0].IsSingleBit() {
      values := BitAnswers(configs, data, start, count);
      newCache := cache;
    } else {
      values, newCache := WordAnswers(configs, data, start, cache, count, mem.Words(configs[0].typ), orderOf);
    }
  }

  /** What reading the registers one by one would leave in this one; bits are taken to be one address wide. */
  predicate AsReadAlone(mem: Memory, reg: Register)
    requires 0 < reg.config.WordWidth()
    reads reg
  {
    (reg.config.IsSingleBit() && reg.config.WordWidth() != 1)
    || match ReadAlone(mem, reg.config)
       case None => false
       case Some(v) => reg.value == Published(reg.config, reg.device.isWb, v)
  }

  lemma HeldIsReadAlone(mem: Memory, reg: Register, start: int, count: nat, data: seq<Byte>)
    requires Respond(mem, reg.config, start, count) == Data(data)
    requires 0 < reg.config.WordWidth()
    requires start <= reg.config.address && reg.config.address + reg.config.WordWidth() <= start + count
    requires Holds(reg, Cut(data, start))
    ensures AsReadAlone(mem, reg)
  {
    if !(reg.config.IsSingleBit() && reg.config.WordWidth() != 1) {
      TogetherIsAlone(mem, reg.config, start, count);
    }
  }

  method SetAnswers(
      regs: seq<Register>, values: seq<RegisterValue>, start: int, count: nat, ghost data: seq<Byte>, ghost mem: Memory)
    requires regs != [] && CanRead(ConfigsOf(regs), start, count) && Respond(mem, regs[0].config, start, count) == Data(data)
    requires AllFit(ConfigsOf(regs), data, start) && values == Answers(ConfigsOf(regs), data, start)
    modifies regs
    ensures forall r | r in regs :: 0 < r.config.WordWidth() && AsReadAlone(mem, r)
  {
    ghost var configs := ConfigsOf(regs);
    forall i | 0 <= i < |regs|
      ensures values[i] == Cut(data, start)(regs[i].config) && (ChecksString(regs[i]) ==> values[i].Text?)
    {
      AnswersAt(configs, data, start, i);
      assert Fits(data, configs[i], start);
    }
    SetValues(regs, values, Cut(data, start));
    forall r | r in regs ensures 0 < r.config.WordWidth() && AsReadAlone(mem, r) {
      var i :| 0 <= i < |regs| && regs[i] == r;
      assert configs[i] in configs && configs[0] in configs;
      HeldIsReadAlone(mem, r, start, count, data);
    }
  }

  /** The device says that an address does not exist. */
  method HandleIllegalAddress(range: RegisterRange)
    requires range.registerList != []
    modifies range.registerList, range.registerList[0].device`supportsHoles
    ensures range.registerList[0].device.supportsHoles == (old(range.registerList[0].device.supportsHoles) && !range.hasHoles)
    ensures forall r | r in range.registerList :: r.readError && r.value == old(r.value)
    ensures !range.hasHoles && !range.registerList[0].device.config.continuePollingOnIllegalModbusException ==>
      forall r | r in range.registerList :: r.available == Unavailable
    ensures range.hasHoles || range.registerList[0].device.config.continuePollingOnIllegalModbusException ==>
      forall r | r in range.registerList :: r.available == old(r.available)
  {
    var device := range.registerList[0].device;
    if range.hasHoles {
      device.supportsHoles := false;
      MarkFailed(range.registerList, false);
    } else {
      MarkFailed(range.registerList, !device.config.continuePollingOnIllegalModbusException);
    }
  }

  method HandleAnswer(
      range: RegisterRange, data: seq<Byte>, cache: Cache, ghost mem: Memory, ghost orderOf: OrderOf)
    returns (newCache: Cache)
    requires Readable(range) && Respond(mem, range.registerList[0].config, range.start, range.count) == Data(data)
    modifies range.registerList
    ensures forall r | r in range.registerList :: 0 < r.config.WordWidth() && AsReadAlone(mem, r)
    ensures AllFollow(
      cache, newCache, ConfigsOf(range.registerList), mem.Words(range.registerList[0].config.typ), orderOf)
  {
    var regs, start, count := range.registerList, range.start, range.count;
    var configs := ConfigsOf(regs);
    ghost var table := mem.Words(configs[0].typ);
    var values;
    values, newCache := ParseReadResponse(data, configs, start, count, cache, mem, orderOf);
    assert AllFollow(cache, newCache, configs, table, orderOf);
    SetAnswers(regs, values, start, count, data, mem);
  }

  /**
   One read of a range.  When the device answers, every register has the value that reading it alone would have
   given, and the cache follows the memory.  Otherwise no value changes: an address that does not exist ends holes
   if the range may have had one, and else makes its registers unavailable unless the device is to be polled anyway.
   */
  method ReadRegisterRange(
      range: RegisterRange, mem: Memory, transfer: Transfer, cache: Cache, ghost orderOf: OrderOf)
    returns (newCache: Cache, reply: Option<Answer>)
    requires Readable(range)
    modifies range`count, range.registerList, range.registerList[0].device`supportsHoles
    ensures range.count == Max(old(range.count), range.registerList[0].device.config.minReadRegisters)
    ensures reply ==
      if transfer.Answered? then Some(Respond(mem, range.registerList[0].config, range.start, range.count)) else None
    ensures reply.Some? && reply.value.Data? ==>
        && (forall r | r in range.registerList :: 0 < r.config.WordWidth() && AsReadAlone(mem, r))
        && AllFollow(
             cache, newCache, ConfigsOf(range.registerList), mem.Words(range.registerList[0].config.typ), orderOf)
    ensures reply == None || reply.value.IllegalAddress? ==>
        newCache == cache && forall r | r in range.registerList :: r.readError && r.value == old(r.value)
    ensures reply == Some(IllegalAddress) && !range.hasHoles
            && !range.registerList[0].device.config.continuePollingOnIllegalModbusException ==>
      forall r | r in range.registerList :: r.available == Unavailable
    ensures reply == None || (reply.value.IllegalAddress?
              && (range.hasHoles || range.registerList[0].device.config.continuePollingOnIllegalModbusException)) ==>
      forall r | r in range.registerList :: r.available == old(r.available)
    ensures range.registerList[0].device.supportsHoles ==
        (old(range.registerList[0].device.supportsHoles) && !(reply == Some(IllegalAddress) && range.hasHoles))
  {
    newCache := cache;
    if range.count < range.registerList[0].device.config.minReadRegisters {
      range.count := range.registerList[0].device.config.minReadRegisters;
    }
    reply := if transfer.Answered? then Some(Respond(mem, range.registerList[0].config, range.start, range.count)) else None;
    match reply
    case Some(Data(data)) => newCache := HandleAnswer(range, data, cache, mem, orderOf);
    case Some(IllegalAddress) => HandleIllegalAddress(range);
    case None => MarkFailed(range.registerList, false);
  }
}
