/** One reading of a poller: which part it is offered, what is read of it, and where the part goes afterwards. */
module PollerReading {
  import opened Common
  import ModbusRange
  import opened ModbusRangeLaws
  import opened PollPlan
  import opened PollableDevices
  import opened PollerParts
  import opened PollerPlan

  /** What an open port brings to a cycle; reading may find out that the device is disconnected. */
  datatype OpenPort = OpenPort(
    now: int,
    spentTime: nat,
    lowPriorityRateLimitIsExceeded: bool,
    maxPollingTime: int,
    readAtLeastOneRegister: bool,
    isAccessible: bool,
    readings: int -> Reading,
    sendTime: ModbusRange.SendTime,
    responseTime: nat,
    disconnects: bool)
  {
    function Policy(): Selection {
      if lowPriorityRateLimitIsExceeded then OnlyHighPriority else All
    }
  }

  /** The parts of a poller and the two queues of its plan. */
  datatype PollState = PollState(devices: Parts, low: Queue<Key>, high: Queue<Key>)
  {
    function QueueOf(priority: Priority): Queue<Key> {
      if priority == Low then low else high
    }
  }

  /** The priority that is chosen, whether one register may take longer, and the time in milliseconds. */
  datatype Offer = Offer(priority: Priority, force: bool, pollLimit: int)
  {
    function LimitsFor(e: OpenPort): Limits {
      Limits(Min(e.maxPollingTime, pollLimit), e.readAtLeastOneRegister && force, e.sendTime, e.responseTime)
    }
  }

  function OfferOf(choice: Choice): Option<Offer> {
    match choice
    case ChooseNothing => None
    case ChooseHigh => Some(Offer(High, true, NEVER))
    case ChooseLow(force, pollLimit) => Some(Offer(Low, force, pollLimit))
  }

  /** A due entry with the earliest deadline of its queue. */
  predicate IsNext(queue: Queue<Key>, now: int, i: nat, k: Key) {
    i < |queue| && IsEarliest(queue, i) && queue[i].data == k && queue[i].deadline <= now
  }

  /** The entry for the next poll of a part. */
  function NextEntry(parts: Parts, k: Key, isDisconnected: bool, now: int): Queue<Key>
    requires k in parts
  {
    if parts[k].HasRegisters() then [Entry(k, NextDeadline(parts[k], isDisconnected, now))] else []
  }

  /** The entry of a part is replaced by one for its next poll, if it still has registers. */
  ghost predicate IsReplaced(before: PollState, after: PollState, i: nat, k: Key, isDisconnected: bool, now: int) {
    && k in before.devices && i < |before.QueueOf(k.priority)|
    && after.devices == WithDelay(before.devices, k, isDisconnected)
    && var back := Without(before.QueueOf(k.priority), i) + NextEntry(before.devices, k, isDisconnected, now);
    && after.low == (if k.priority == Low then back else before.low)
    && after.high == (if k.priority == High then back else before.high)
  }

  /** What one cycle does: the state after rescheduling, the entry that is offered, and what is read of its part. */
  datatype Cycle = Cycle(
    before: PollState, offer: Option<Offer>, i: nat, key: Key, read: Parts, taken: Queue<int>, rest: Queue<int>)
  {
    /** The part is read as far as the offer allows. */
    ghost predicate Reads(e: OpenPort, list: seq<int>) {
      && offer.Some? && key.priority == offer.value.priority
      && IsNext(before.QueueOf(key.priority), e.now, i, key)
      && key in before.devices && key in read && read == before.devices[key := read[key]]
      && var (p, after) := (before.devices[key], read[key]);
      && p.registry.IsSound()
      && IsReadOut(p.registry, p.view, p.registers, e.now, offer.value.LimitsFor(e), e.isAccessible, e.readings,
                   after.registry, after.registers, list, taken, rest)
      && after == p.(registry := after.registry, registers := after.registers,
                     lastReadTime := if list != [] then e.now + e.spentTime else p.lastReadTime)
    }

    /** What the scheduler meets in the cycle. */
    function Met(e: OpenPort, polled: Option<Key>): PortCycle<Key> {
      Open(before.high, before.low, e.now, e.Policy(), if polled.None? then 0 else CeilToMilliseconds(e.spentTime))
    }

    /** All that comes of a cycle. */
    ghost predicate Yields(
        e: OpenPort, polled: Option<Key>, list: seq<int>, after: PollState, disconnected: set<nat>,
        newDisconnected: set<nat>)
    {
      if offer.None? then
        polled == None && list == [] && after == before && newDisconnected == disconnected
      else
        && Reads(e, list)
        && polled == (if list == [] then None else Some(key))
        && newDisconnected == (if list != [] && e.disconnects then disconnected + {key.device} else disconnected)
        && if list == [] then after == before.(devices := read)
           else IsReplaced(before.(devices := read), after, i, key, key.device in newDisconnected, e.now)
    }
  }

  // ----- what a cycle means -----

  /** Every register that a cycle reads was due. */
  lemma ReadWasDue(c: Cycle, e: OpenPort, list: seq<int>, id: int)
    requires c.Reads(e, list) && id in list
    ensures IsReadyIn(c.before.devices[c.key].registers, id, e.now)
  {
    var p := c.before.devices[c.key];
    ListedWasDue(
      p.registry, p.view, c.offer.value.LimitsFor(e), e.now, p.registers, c.taken, c.rest, id);
  }

  /** Microseconds for reading one register of a part alone. */
  function TimeAlone(p: PollableDevice, e: OpenPort, id: int): nat
    requires p.registry.IsSound() && 0 <= id < |p.registry.configs|
  {
    var m := MemberOf(p.registry, p.view, id);
    Microseconds(m, m.config.WordWidth(), ModbusRange.Timing(e.sendTime, e.responseTime, 0))
  }

  /** One register alone can be read, either within both limits, or because one may take any time. */
  predicate IsTimeFor(p: PollableDevice, e: OpenPort, offer: Offer, id: int)
    requires p.registry.IsSound()
  {
    0 <= id < |p.registry.configs| ==>
      var time := TimeAlone(p, e, id);
      if e.readAtLeastOneRegister && offer.force then time <= 1000 * NEVER
      else time <= 1000 * e.maxPollingTime && time <= 1000 * offer.pollLimit
  }

  /** Of the registers of a part that can be read, one that is due first. */
  ghost predicate ComesFirst(p: PollableDevice, now: int, first: Entry<int>) {
    IsFirstDue(p.registry, now, p.registers, first)
  }

  /** Who is offered the cycle: low priority if nothing else is due, or if it lags behind and is not held back. */
  lemma OfferIs(high: Queue<Key>, low: Queue<Key>, totalTime: int, lag: nat, e: OpenPort)
    ensures var offer := OfferOf(Choose(high, low, totalTime, lag, e.now, e.Policy()));
      && (offer == None <==> !SomeIsDue(high, e.now) && !SomeIsDue(low, e.now))
      && (offer.Some? ==>
            && (offer.value.priority == Low <==>
                  SomeIsDue(low, e.now)
                  && (!SomeIsDue(high, e.now) || (!e.lowPriorityRateLimitIsExceeded && totalTime >= lag)))
            && (offer.value.force <==>
                  offer.value.priority == High
                  || (!e.lowPriorityRateLimitIsExceeded && (totalTime >= lag || high == []))))
  {
    ChoiceExactly(high, low, totalTime, lag, e.now, e.Policy());
  }

  /** Nothing that can be read is due, or there is no time for a register that comes first. */
  ghost predicate NothingFits(p: PollableDevice, e: OpenPort, offer: Offer)
    requires p.registry.IsSound()
  {
    || (forall first | first in p.registers :: !IsDueIn(p.registry, e.now, first))
    || exists first :: ComesFirst(p, e.now, first) && !IsTimeFor(p, e, offer, first.data)
  }

  /** The register is one of those that come first, and there is time for it. */
  ghost predicate FitsFirst(p: PollableDevice, e: OpenPort, offer: Offer, id: int)
    requires p.registry.IsSound()
  {
    exists first :: ComesFirst(p, e.now, first) && IsTimeFor(p, e, offer, id) && id == first.data
  }

  lemma TimeIsLimited(p: PollableDevice, e: OpenPort, offer: Offer, id: int)
    requires p.registry.IsSound()
    ensures IsTimeFor(p, e, offer, id) <==> FitsAlone(p.registry, p.view, offer.LimitsFor(e), id)
  {
  }

  lemma {:induction false} TakenFirst(p: PollableDevice, e: OpenPort, offer: Offer, taken: Queue<int>, rest: Queue<int>)
    requires p.Valid() && IsTaken(p.registry, p.view, offer.LimitsFor(e), e.now, p.registers, taken, rest)
    ensures var list := Listed(p.registry, taken);
      if list == [] then NothingFits(p, e, offer) else FitsFirst(p, e, offer, list[0])
  {
    var l := offer.LimitsFor(e);
    if Listed(p.registry, taken) == [] {
      NothingIsRead(p.registry, p.view, l, e.now, p.registers, taken, rest);
      if first :| IsFirstDue(p.registry, e.now, p.registers, first) && !FitsAlone(p.registry, p.view, l, first.data) {
        TimeIsLimited(p, e, offer, first.data);
        assert ComesFirst(p, e.now, first) && !IsTimeFor(p, e, offer, first.data);
      }
    } else {
      var first := FirstReadIsFirstDue(p.registry, p.view, l, e.now, p.registers, taken, rest);
      TimeIsLimited(p, e, offer, first.data);
      assert ComesFirst(p, e.now, first) && IsTimeFor(p, e, offer, first.data);
    }
  }

  /** What is read of a part that is offered begins with a register that comes first, if there is time for it. */
  lemma OfferedIsPolled(
      c: Cycle, e: OpenPort, polled: Option<Key>, list: seq<int>, after: PollState, disconnected: set<nat>,
      newDisconnected: set<nat>)
    requires c.offer.Some? && AreParts(c.before.devices)
    requires c.Yields(e, polled, list, after, disconnected, newDisconnected)
    ensures polled == (if list == [] then None else Some(c.key)) && c.key.priority == c.offer.value.priority
    ensures var queue := if c.key.priority == Low then c.before.low else c.before.high;
      c.i < |queue| && queue[c.i].data == c.key && forall other | other in queue :: queue[c.i].deadline <= other.deadline
    ensures c.before.devices[c.key].registry.IsSound()
    ensures if list == [] then NothingFits(c.before.devices[c.key], e, c.offer.value)
            else FitsFirst(c.before.devices[c.key], e, c.offer.value, list[0])
  {
    assert IsPart(c.key, c.before.devices[c.key]);
    TakenFirst(c.before.devices[c.key], e, c.offer.value, c.taken, c.rest);
  }
}
