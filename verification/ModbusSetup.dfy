/**
 Writing the setup items of a device: neighbouring registers go out in one request as far as the
 word limit allows.  What is sent, in which requests, and what it leaves in the device.
 */
module ModbusSetup {
  import opened Common
  import opened ModbusRead
  import opened ModbusWrite
  import opened Registers
  import opened WordCodec
  import opened WordFields

  const MAX_WRITE_REGISTERS := 123

  datatype SetupItem = SetupItem(c: RegisterConfig, value: RegisterValue)
  {
    /** The value is of the type that the format asks for, and a number fits a 64-bit value. */
    predicate IsConsistent() {
      && value != Undefined
      && c.IsString() == value.Text?
      && (c.IsString() || c.WordWidth() <= MAX_WORDS)
    }
  }

  function MaxRegs(configured: int): nat {
    if 0 < configured < MAX_WRITE_REGISTERS then configured else MAX_WRITE_REGISTERS
  }

  // ----- which items share a request -----

  predicate CanStart(item: SetupItem, maxRegs: nat) {
    maxRegs > 1 && item.c.typ == Holding && !item.c.IsPartial()
  }

  predicate Continues(last: SetupItem, item: SetupItem) {
    item.c.typ == last.c.typ && item.c.writeAddress == last.c.writeAddress + last.c.WordWidth()
  }

  /** The end of a request that has the items up to `i`, with `count` words. */
  function BatchEnd(items: seq<SetupItem>, i: nat, count: nat, maxRegs: nat): (end: nat)
    requires 0 < i <= |items|
    ensures i <= end <= |items|
    decreases |items| - i
  {
    if i == |items| || items[i].c.IsPartial() || !Continues(items[i - 1], items[i]) then i
    else if count != 0 && count + items[i].c.WordWidth() > maxRegs then i
    else BatchEnd(items, i + 1, count + items[i].c.WordWidth(), maxRegs)
  }

  /** The end of the request that starts with an item, and whether the request is forgotten at its end. */
  function Batch(items: seq<SetupItem>, from: nat, maxRegs: nat): (r: (nat, bool))
    requires from < |items|
    ensures from < r.0 <= |items|
  {
    var end := BatchEnd(items, from + 1, items[from].c.WordWidth(), maxRegs);
    (end, end < |items| && items[end].c.IsPartial())
  }

  /** Items from `from` up to `to` in one request. */
  datatype Request = Request(from: nat, to: nat, batched: bool)

  /** The requests for the items from an index on, in the order they are sent. */
  function Requests(items: seq<SetupItem>, from: nat, maxRegs: nat): seq<Request>
    requires from <= |items|
    decreases |items| - from
  {
    if from == |items| then []
    else if CanStart(items[from], maxRegs) then
      var (end, forgotten) := Batch(items, from, maxRegs);
      (if forgotten then [] else [Request(from, end, true)]) + Requests(items, end, maxRegs)
    else [Request(from, from + 1, false)] + Requests(items, from + 1, maxRegs)
  }

  function TotalWidth(items: seq<SetupItem>): nat {
    if items == [] then 0 else TotalWidth(items[..|items| - 1]) + items[|items| - 1].c.WordWidth()
  }

  // ----- sending -----

  /** What is written to, what is remembered of it, and whether an exception has ended the writing. */
  datatype State = State(mem: Memory, cache: Cache, running: bool)

  ghost predicate AllConsistent(items: seq<SetupItem>) {
    forall item {:trigger item.IsConsistent()} | item in items :: item.IsConsistent()
  }

  /** What an item brings to the data of a request, and how its words are remembered. */
  datatype ItemEncoding = ItemEncoding(bytes: SetupItem -> seq<Byte>, remember: (Cache, SetupItem) -> Cache)

  function ItemBytes(item: SetupItem, cache: Cache): seq<Byte>
    requires item.IsConsistent()
  {
    BytesOf(item.c.byteOrder, PackedWords(item.c, item.value, cache))
  }

  function Remembered(tmpCache: Cache, item: SetupItem, cache: Cache): Cache
    requires item.IsConsistent()
  {
    if item.c.IsString() || item.c.accessType == WriteOnly then tmpCache
    else Stored(tmpCache, item.c.address, PackedWords(item.c, item.value, cache))
  }

  function EncodingWith(cache: Cache): ItemEncoding {
    ItemEncoding(
      (item: SetupItem) => if item.IsConsistent() then ItemBytes(item, cache) else [],
      (tmpCache: Cache, item: SetupItem) => if item.IsConsistent() then Remembered(tmpCache, item, cache) else tmpCache)
  }

  predicate EncodesItem(e: ItemEncoding, cache: Cache, tmpCache: Cache, item: SetupItem) {
    item.IsConsistent() ==>
      && e.bytes(item) == ItemBytes(item, cache)
      && e.remember(tmpCache, item) == Remembered(tmpCache, item, cache)
  }

  ghost predicate EncodesItems(e: ItemEncoding, cache: Cache) {
    forall tmpCache, item :: EncodesItem(e, cache, tmpCache, item)
  }

  lemma EncodingWithEncodes(cache: Cache)
    ensures EncodesItems(EncodingWith(cache), cache)
  {
  }

  /** The data of items in one request. */
  function BatchData(items: seq<SetupItem>, e: ItemEncoding): seq<Byte> {
    if items == [] then [] else BatchData(items[..|items| - 1], e) + e.bytes(items[|items| - 1])
  }

  /** What is to be remembered when the request is accepted. */
  function BatchCache(items: seq<SetupItem>, e: ItemEncoding): Cache {
    if items == [] then map[] else e.remember(BatchCache(items[..|items| - 1], e), items[|items| - 1])
  }

  /** A request whose data does not match its count of words is an error; a refusal ends the writing if it is to. */
  function SendBatch(state: State, address: int, data: seq<Byte>, count: nat, tmpCache: Cache, breakOnError: bool): State {
    if count == 0 || |data| != 2 * count then state.(running := false)
    else
      match DeviceStores(state.mem.holding, address, data)
      case None => state.(running := !breakOnError)
      case Some(table) => State(state.mem.(holding := table), state.cache + tmpCache, true)
  }

  function SendAlone(state: State, item: SetupItem, breakOnError: bool): State {
    var after := Write(state.mem, state.cache, item.c, item.value);
    State(after.memory, after.cache, after.result == Written || (after.result == Refused && !breakOnError))
  }

  function Send(state: State, items: seq<SetupItem>, r: Request, breakOnError: bool): State
    requires r.from < r.to <= |items| && AllConsistent(items)
  {
    if !r.batched then SendAlone(state, items[r.from], breakOnError)
    else
      var batch := items[r.from..r.to];
      var e := EncodingWith(state.cache);
      SendBatch(
        state, items[r.from].c.writeAddress, BatchData(batch, e), TotalWidth(batch), BatchCache(batch, e), breakOnError)
  }

  /** All items from an index on; an exception ends the writing. */
  function SendFrom(state: State, items: seq<SetupItem>, from: nat, maxRegs: nat, breakOnError: bool): State
    requires from <= |items| && AllConsistent(items)
    decreases |items| - from
  {
    if !state.running || from == |items| then state
    else if CanStart(items[from], maxRegs) then
      var (end, forgotten) := Batch(items, from, maxRegs);
      var next := if forgotten then state else Send(state, items, Request(from, end, true), breakOnError);
      SendFrom(next, items, end, maxRegs, breakOnError)
    else
      SendFrom(Send(state, items, Request(from, from + 1, false), breakOnError), items, from + 1, maxRegs, breakOnError)
  }

  method WriteMultipleSetupRegisters(
      state: State, items: seq<SetupItem>, from: nat, maxRegs: nat, breakOnError: bool)
    returns (next: nat, newState: State)
    requires from < |items| && AllConsistent(items) && CanStart(items[from], maxRegs)
    ensures var (end, forgotten) := Batch(items, from, maxRegs);
      && next == end
      && newState == if forgotten then state else Send(state, items, Request(from, end, true), breakOnError)
  {
    ghost var e := EncodingWith(state.cache);
    EncodingWithEncodes(state.cache);
    var data, tmpCache, count, forgotten;
    next, data, tmpCache, count, forgotten := ComposeBatch(state.cache, items, from, maxRegs, e);
    if forgotten {
      return next, state;
    }
    newState := SendBatch(state, items[from].c.writeAddress, data, count, tmpCache, breakOnError);
  }

  /** The next item joins the request, unless it is no neighbour or the request gets too long. */
  method AddItem(cache: Cache, items: seq<SetupItem>, from: nat, i: nat, maxRegs: nat, ghost e: ItemEncoding,
                 data0: seq<Byte>, tmpCache0: Cache, count0: nat, ghost end: nat)
    returns (joins: bool, data: seq<Byte>, tmpCache: Cache, count: nat)
    requires from <= i < |items| && items[i].IsConsistent() && EncodesItems(e, cache) && !items[i].c.IsPartial()
    requires IsComposed(items[from..i], e, data0, tmpCache0, count0)
    requires EndsAt(items, from, i, count0, maxRegs, end)
    ensures joins ==> IsComposed(items[from..i + 1], e, data, tmpCache, count)
    ensures joins ==> EndsAt(items, from, i + 1, count, maxRegs, end)
    ensures !joins ==> from < i && end == i && data == data0 && tmpCache == tmpCache0 && count == count0
  {
    EndNext(items, from, i, count0, maxRegs, end);
    joins, data, tmpCache, count := Joins(items, from, i, count0, maxRegs), data0, tmpCache0, count0;
    if joins {
      var item := items[i];
      ComposedNext(items[from..i], item, e, data0, tmpCache0, count0);
      BatchNext(items, from, i);
      data, tmpCache := ComposeItem(item, cache, data0, tmpCache0, e);
      count := count0 + item.c.WordWidth();
    }
  }

  method ComposeBatch(cache: Cache, items: seq<SetupItem>, from: nat, maxRegs: nat, ghost e: ItemEncoding)
    returns (next: nat, data: seq<Byte>, tmpCache: Cache, count: nat, forgotten: bool)
    requires from < |items| && AllConsistent(items) && CanStart(items[from], maxRegs) && EncodesItems(e, cache)
    ensures (next, forgotten) == Batch(items, from, maxRegs)
    ensures IsComposed(items[from..next], e, data, tmpCache, count)
  {
    ghost var end := Batch(items, from, maxRegs).0;
    next, data, tmpCache, count := AddItems(cache, items, from, maxRegs, e, end);
    forgotten := next < |items| && items[next].c.IsPartial();
  }

  method AddItems(cache: Cache, items: seq<SetupItem>, from: nat, maxRegs: nat, ghost e: ItemEncoding, ghost end: nat)
    returns (next: nat, data: seq<Byte>, tmpCache: Cache, count: nat)
    requires from < |items| && AllConsistent(items) && !items[from].c.IsPartial() && EncodesItems(e, cache)
    requires EndsAt(items, from, from, 0, maxRegs, end)
    ensures next == end && IsComposed(items[from..next], e, data, tmpCache, count)
  {
    data, tmpCache, count, next := [], map[], 0, from;
    while next < |items| && !items[next].c.IsPartial()
      invariant from <= next <= |items|
      invariant IsComposed(items[from..next], e, data, tmpCache, count)
      invariant EndsAt(items, from, next, count, maxRegs, end)
    {
      assert items[next].IsConsistent();
      var joins;
      joins, data, tmpCache, count := AddItem(cache, items, from, next, maxRegs, e, data, tmpCache, count, end);
      if !joins {
        return;
      }
      next := next + 1;
    }
    EndHere(items, from, next, count, maxRegs, end);
  }

  predicate IsComposed(batch: seq<SetupItem>, e: ItemEncoding, data: seq<Byte>, tmpCache: Cache, count: nat) {
    data == BatchData(batch, e) && tmpCache == BatchCache(batch, e) && count == TotalWidth(batch)
  }

  lemma ComposedNext(
      batch: seq<SetupItem>, item: SetupItem, e: ItemEncoding, data: seq<Byte>, tmpCache: Cache, count: nat)
    requires IsComposed(batch, e, data, tmpCache, count)
    ensures IsComposed(batch + [item], e, data + e.bytes(item), e.remember(tmpCache, item), count + item.c.WordWidth())
  {
    assert (batch + [item])[..|batch|] == batch;
  }

  predicate EndsAt(items: seq<SetupItem>, from: nat, i: nat, count: nat, maxRegs: nat, end: nat)
    requires from <= i <= |items| && from < |items|
  {
    if from < i then end == BatchEnd(items, i, count, maxRegs)
    else count == 0 && end == BatchEnd(items, from + 1, items[from].c.WordWidth(), maxRegs)
  }

  lemma EndHere(items: seq<SetupItem>, from: nat, i: nat, count: nat, maxRegs: nat, end: nat)
    requires from < i <= |items| && EndsAt(items, from, i, count, maxRegs, end)
    requires i == |items| || items[i].c.IsPartial()
    ensures end == i
  {
  }

  lemma EndNext(items: seq<SetupItem>, from: nat, i: nat, count: nat, maxRegs: nat, end: nat)
    requires from <= i < |items| && EndsAt(items, from, i, count, maxRegs, end) && !items[i].c.IsPartial()
    ensures if Joins(items, from, i, count, maxRegs)
            then EndsAt(items, from, i + 1, count + items[i].c.WordWidth(), maxRegs, end)
            else from < i && end == i
  {
  }

  /** An item that is not partial is refused when it is no neighbour of the last one or when the request gets too long. */
  predicate Joins(items: seq<SetupItem>, from: nat, i: nat, count: nat, maxRegs: nat)
    requires from <= i < |items|
  {
    && (from < i ==> Continues(items[i - 1], items[i]))
    && (count == 0 || count + items[i].c.WordWidth() <= maxRegs)
  }

  method ComposeItem(item: SetupItem, cache: Cache, data: seq<Byte>, tmpCache: Cache, ghost e: ItemEncoding)
    returns (newData: seq<Byte>, newTmpCache: Cache)
    requires item.IsConsistent() && EncodesItems(e, cache)
    ensures newData == data + e.bytes(item) && newTmpCache == e.remember(tmpCache, item)
  {
    assert EncodesItem(e, cache, tmpCache, item);
    var width;
    newData, newTmpCache, width := ComposeRawMultipleWriteRequestData(data, item.c, item.value, cache, tmpCache);
  }

  lemma BatchNext(items: seq<SetupItem>, from: nat, i: nat)
    requires from <= i < |items|
    ensures items[from..i + 1] == items[from..i] + [items[i]]
    ensures items[from..i + 1][..i - from] == items[from..i]
  {
  }

  method WriteSetupRegisters(
      mem: Memory, cache: Cache, items: seq<SetupItem>, maxWriteRegisters: int, breakOnError: bool)
    returns (r: State)
    requires AllConsistent(items)
    ensures r == SendFrom(State(mem, cache, true), items, 0, MaxRegs(maxWriteRegisters), breakOnError)
  {
    r := State(mem, cache, true);
    var maxRegs := MAX_WRITE_REGISTERS;
    if maxWriteRegisters > 0 && maxWriteRegisters < maxRegs {
      maxRegs := maxWriteRegisters;
    }
    var it := 0;
    while it < |items| && r.running
      invariant it <= |items|
      invariant SendFrom(r, items, it, maxRegs, breakOnError)
             == SendFrom(State(mem, cache, true), items, 0, maxRegs, breakOnError)
      decreases |items| - it
    {
      it, r := WriteNext(r, items, it, maxRegs, breakOnError);
    }
  }

  /** A request of items that share it, or of one item. */
  method WriteNext(state: State, items: seq<SetupItem>, it: nat, maxRegs: nat, breakOnError: bool)
    returns (next: nat, r: State)
    requires it < |items| && AllConsistent(items) && state.running
    ensures it < next <= |items|
    ensures SendFrom(r, items, next, maxRegs, breakOnError) == SendFrom(state, items, it, maxRegs, breakOnError)
  {
    var item := items[it];
    if maxRegs > 1 && item.c.typ == Holding && !item.c.IsPartial() {
      next, r := WriteMultipleSetupRegisters(state, items, it, maxRegs, breakOnError);
    } else {
      assert item.IsConsistent();
      var newMem, newCache, result := WriteRegister(state.mem, item.c, item.value, state.cache);
      r := State(newMem, newCache, result == Written || (result == Refused && !breakOnError));
      next := it + 1;
    }
  }
}
