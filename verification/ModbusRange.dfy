/**
 Ranges of neighbouring Modbus registers that are read by one request: how a range grows,
 and what every range keeps whatever registers are offered to it.
 */
module ModbusRange {
  import opened Common
  import opened Registers

  const MAX_READ_BITS := 2000
  const MAX_READ_REGISTERS := 125
  const MAX_UNKNOWN_BITS := 16

  /** A register as it was when it was offered to the range. */
  datatype Member = Member(config: RegisterConfig, available: Availability, device: DeviceView)

  datatype Range = Range(start: int, count: nat, hasHoles: bool, members: seq<Member>)

  const EMPTY := Range(0, 0, false, [])

  /** Time in microseconds that a port needs to send a number of bytes. */
  type SendTime = nat -> nat

  /** What the poll time of a range depends on besides its size; the limit is in milliseconds. */
  datatype Timing = Timing(sendTime: SendTime, averageResponseTime: nat, pollLimit: int)

  // ----- one offer -----

  function Limited(configured: int, max: int): int {
    if 0 < configured <= max then configured else max
  }

  /** Words, or bits, that one request may ask for. */
  function MaxCount(m: Member): int {
    Limited(m.device.config.maxReadRegisters, if m.config.IsSingleBit() then MAX_READ_BITS else MAX_READ_REGISTERS)
  }

  function MaxUnknown(m: Member): int {
    var configured := m.device.config.maxReadRegisters;
    if 0 < configured <= MAX_READ_REGISTERS then configured else MAX_UNKNOWN_BITS
  }

  function MaxHole(m: Member): nat {
    if !m.device.supportsHoles then 0
    else if m.config.IsSingleBit() then m.device.config.maxBitHole
    else m.device.config.maxRegHole
  }

  function ReadResponsePduSize(singleBit: bool, count: nat): nat {
    2 + if singleBit then (count + 7) / 8 else count * 2
  }

  /** Milliseconds, rounded up, for the request, the response and the waiting between them. */
  function PollTime(m: Member, count: nat, t: Timing): int {
    var sendTime := t.sendTime(ReadResponsePduSize(m.config.IsSingleBit(), count) + 8 + 5);
    var duration := sendTime + t.averageResponseTime + m.device.config.requestDelay
                    + if m.device.forceFrameTimeout then m.device.config.frameTimeout * 1000 else 0;
    (duration + 999) / 1000
  }

  /** Bits are packed into bytes, so some additions do not make the response longer. */
  predicate IncreasesSize(count: nat, singleBit: bool, extend: nat) {
    if !singleBit then extend != 0
    else count % 16 == 0 || count + extend > (count / 16 + 1) * 16
  }

  /** Registers of unknown availability are read apart, unless the device reads continuously. */
  predicate RefusedByAvailability(r: Range, m: Member, hole: bool)
    requires r.members != []
  {
    if r.members[|r.members| - 1].available == Unknown then
      !m.config.IsSingleBit() || hole || (m.available == Unknown && |r.members| >= MaxUnknown(m))
    else
      m.available == Unknown
  }

  function Append(r: Range, m: Member, extend: nat, t: Timing): (Range, bool) {
    if (r.count != 0 && !IncreasesSize(r.count, m.config.IsSingleBit(), extend))
       || PollTime(m, r.count + extend, t) <= t.pollLimit
    then
      (Range(if r.count == 0 then m.config.address else r.start, r.count + extend, r.hasHoles, r.members + [m]), true)
    else
      (r, false)
  }

  /** Where a register would go in a range that is not empty: the flagged range, and by how much it would grow. */
  function Place(r: Range, m: Member): (Range, Option<nat>)
    requires r.members != []
  {
    var address, end := m.config.address, r.start + r.count;
    if m.device.id != r.members[0].device.id || m.config.typ != r.members[0].config.typ then (r, None)
    else if r.start > address || end + MaxHole(m) < address then (r, None)
    else if !m.device.continuousRead && RefusedByAvailability(r, m, end < address) then (r, None)
    else
      var extend := Max(0, address + m.config.WordWidth() - end);
      (r.(hasHoles := r.hasHoles || end < address), if r.count + extend > MaxCount(m) then None else Some(extend))
  }

  /** The range after a register is offered, and whether it is accepted. */
  function Add(r: Range, m: Member, t: Timing): (Range, bool) {
    if m.available == Unavailable then (r, true)
    else if r.members == [] then Append(r, m, m.config.WordWidth(), t)
    else
      var (flagged, extend) := Place(r, m);
      if extend.None? then (flagged, false) else Append(flagged, m, extend.value, t)
  }

  class RegisterRange {
    var start: int
    var count: nat
    var hasHoles: bool
    var registerList: seq<Register>
    ghost var offered: seq<Member>
    const averageResponseTime: nat

    constructor (averageResponseTime: nat)
      ensures State() == EMPTY && registerList == [] && this.averageResponseTime == averageResponseTime
    {
      this.averageResponseTime := averageResponseTime;
      start, count, hasHoles, registerList, offered := 0, 0, false, [], [];
    }

    ghost function State(): Range
      reads this
    {
      Range(start, count, hasHoles, offered)
    }

    /** The list holds the registers that were offered as the members of the state. */
    ghost predicate Valid()
      reads this, registerList, set r | r in registerList :: r.device
    {
      && |offered| == |registerList|
      && forall i | 0 <= i < |registerList| :: offered[i] == AsMember(registerList[i])
    }

    method AddRegister(reg: Register, sendTime: SendTime, pollLimit: int) returns (accepted: bool)
      requires Valid()
      modifies this
      ensures Valid()
      ensures (State(), accepted) == Add(old(State()), AsMember(reg), Timing(sendTime, averageResponseTime, pollLimit))
      ensures registerList == if |offered| == |old(offered)| then old(registerList) else old(registerList) + [reg]
    {
      if reg.available == Unavailable {
        return true;
      }
      var extend := reg.config.WordWidth();
      if registerList != [] {
        var place := PlaceRegister(reg);
        if place.None? {
          return false;
        }
        extend := place.value;
      }
      accepted := AppendRegister(reg, extend, sendTime, pollLimit);
    }

    /** The checks on a register that is offered to a range that is not empty, in the order they are made. */
    method PlaceRegister(reg: Register) returns (extend: Option<nat>)
      requires Valid() && registerList != []
      modifies this`hasHoles
      ensures Valid()
      ensures (State(), extend) == Place(old(State()), AsMember(reg))
    {
      assert offered[0] == AsMember(registerList[0]);
      assert offered[|offered| - 1] == AsMember(registerList[|registerList| - 1]);
      ghost var s, m := State(), AsMember(reg);
      var config := reg.device.config;
      var singleBit := reg.config.IsSingleBit();
      var address := reg.config.address;
      if reg.device.id != registerList[0].device.id || reg.config.typ != registerList[0].config.typ {
        return None;
      }
      if start > address {
        return None;
      }
      var maxHole := 0;
      if reg.device.supportsHoles {
        maxHole := if singleBit then config.maxBitHole else config.maxRegHole;
      }
      if start + count + maxHole < address {
        return None;
      }
      var hole := start + count < address;
      if !reg.device.continuousRead {
        if registerList[|registerList| - 1].available == Unknown {
          if !singleBit {
            return None;
          }
          if hole {
            return None;
          }
          var maxUnknown := MAX_UNKNOWN_BITS;
          if config.maxReadRegisters > 0 && config.maxReadRegisters <= MAX_READ_REGISTERS {
            maxUnknown := config.maxReadRegisters;
          }
          if reg.available == Unknown && |registerList| >= maxUnknown {
            return None;
          }
        } else if reg.available == Unknown {
          return None;
        }
      }
      // Unknown registers get this far without a hole only.
      assert m.device.continuousRead || !RefusedByAvailability(s, m, hole);
      hasHoles := hasHoles || hole;
      assert State() == s.(hasHoles := s.hasHoles || hole);
      var newExtend := Max(0, address + reg.config.WordWidth() - (start + count));
      var maxRegs := if singleBit then MAX_READ_BITS else MAX_READ_REGISTERS;
      if config.maxReadRegisters > 0 && config.maxReadRegisters <= maxRegs {
        maxRegs := config.maxReadRegisters;
      }
      assert maxRegs == MaxCount(m);
      if count + newExtend > maxRegs {
        return None;
      }
      return Some(newExtend);
    }

    /** The last check: a register that makes the request longer must fit in the poll limit. */
    method AppendRegister(reg: Register, extend: nat, sendTime: SendTime, pollLimit: int) returns (accepted: bool)
      requires Valid()
      modifies this
      ensures Valid()
      ensures (State(), accepted)
           == Append(old(State()), AsMember(reg), extend, Timing(sendTime, averageResponseTime, pollLimit))
      ensures registerList == if accepted then old(registerList) + [reg] else old(registerList)
    {
      var newPollTime := PollTime(AsMember(reg), count + extend, Timing(sendTime, averageResponseTime, pollLimit));
      if (count != 0 && !IncreasesSize(count, reg.config.IsSingleBit(), extend)) || newPollTime <= pollLimit {
        if count == 0 {
          start := reg.config.address;
        }
        registerList := registerList + [reg];
        offered := offered + [AsMember(reg)];
        count := count + extend;
        return true;
      }
      return false;
    }
  }

  function AsMember(reg: Register): Member
    reads reg, reg.device
  {
    Member(reg.config, reg.available, reg.device.View())
  }

  // ----- what every range keeps -----

  ghost predicate OneKind(r: Range) {
    forall i | 0 <= i < |r.members| ::
      && r.members[i].device == r.members[0].device
      && r.members[i].config.typ == r.members[0].config.typ
      && r.members[i].available != Unavailable
  }

  predicate Inside(r: Range, m: Member) {
    r.start <= m.config.address && m.config.address + m.config.WordWidth() <= r.start + r.count
  }

  ghost predicate AllInside(r: Range) {
    forall i | 0 <= i < |r.members| :: r.members[i].config.WordWidth() > 0 && Inside(r, r.members[i])
  }

  /** The range is longer than a request may be only if its first register alone is. */
  ghost predicate WithinLimit(r: Range) {
    r.members != [] ==>
      && r.start == r.members[0].config.address
      && (r.count <= MaxCount(r.members[0]) || r.count == r.members[0].config.WordWidth())
  }

  ghost predicate Covered(members: seq<Member>, a: int) {
    exists i | 0 <= i < |members| :: Holds(members[i], a)
  }

  predicate Holds(m: Member, a: int) {
    m.config.address <= a < m.config.address + m.config.WordWidth()
  }

  /** An address that will be read for no register is admitted by the flag. */
  ghost predicate HolesAreFlagged(r: Range) {
    forall a | r.start <= a < r.start + r.count :: Covered(r.members, a) || r.hasHoles
  }

  /** Without continuous read, word registers are read together only when all are known to be available. */
  ghost predicate KnownTogether(r: Range) {
    forall i | 0 <= i < |r.members| ::
      |r.members| >= 2 && !r.members[0].config.IsSingleBit() && !r.members[0].device.continuousRead
      ==> r.members[i].available == Available
  }

  /** Without continuous read, bits of unknown availability come first, and there are not too many of them. */
  ghost predicate UnknownFirst(r: Range) {
    forall i | 0 <= i < |r.members| && r.members[i].available == Unknown && !r.members[0].device.continuousRead ::
      i < MaxUnknown(r.members[0]) && forall j | 0 <= j < i :: r.members[j].available == Unknown
  }

  ghost predicate Invariant(r: Range) {
    && (r.members == [] ==> r.count == 0 && !r.hasHoles)
    && OneKind(r)
    && AllInside(r)
    && WithinLimit(r)
    && HolesAreFlagged(r)
    && KnownTogether(r)
    && UnknownFirst(r)
  }

  /** Registers that are read take up at least one word, and a device does not change while a range is built. */
  ghost predicate Offerable(r: Range, m: Member) {
    && m.config.WordWidth() > 0
    && (r.members != [] && m.device.id == r.members[0].device.id ==> m.device == r.members[0].device)
  }

  /** Accepting means being left out as unavailable or being put at the end; refusing changes no members. */
  lemma AddOutcome(r: Range, m: Member, t: Timing)
    ensures var (after, accepted) := Add(r, m, t);
      && after.members == (if accepted && m.available != Unavailable then r.members + [m] else r.members)
      && (m.available == Unavailable ==> accepted)
      && (after.members == r.members ==> after.start == r.start && after.count == r.count)
      && (after.hasHoles == r.hasHoles || (after.hasHoles && r.start + r.count < m.config.address))
  {
  }

  /** The response to what is read grows only if the poll limit allows it. */
  lemma PollLimitIsKept(r: Range, m: Member, t: Timing)
    requires Add(r, m, t).1 && m.available != Unavailable
    ensures var after := Add(r, m, t).0;
      PollTime(m, after.count, t) <= t.pollLimit
      || (r.count != 0 && !IncreasesSize(r.count, m.config.IsSingleBit(), after.count - r.count))
  {
  }

  lemma AppendKeepsInvariant(r: Range, m: Member, extend: nat, hole: bool)
    requires Invariant(r) && Offerable(r, m) && r.members != []
    requires m.available != Unavailable
    requires m.device.id == r.members[0].device.id && m.config.typ == r.members[0].config.typ
    requires r.start <= m.config.address
    requires hole == (r.start + r.count < m.config.address)
    requires m.device.continuousRead || !RefusedByAvailability(r, m, hole)
    requires extend == Max(0, m.config.address + m.config.WordWidth() - (r.start + r.count))
    requires r.count + extend <= MaxCount(m)
    ensures Invariant(Range(r.start, r.count + extend, r.hasHoles || hole, r.members + [m]))
  {
    var after := Range(r.start, r.count + extend, r.hasHoles || hole, r.members + [m]);
    assert AllInside(after) by {
      forall i | 0 <= i < |after.members|
        ensures after.members[i].config.WordWidth() > 0 && Inside(after, after.members[i])
      {
        assert i < |r.members| ==> Inside(r, r.members[i]);
      }
    }
    assert HolesAreFlagged(after) by {
      forall a | after.start <= a < after.start + after.count ensures Covered(after.members, a) || after.hasHoles {
        if a < r.start + r.count {
          if Covered(r.members, a) {
            var i :| 0 <= i < |r.members| && Holds(r.members[i], a);
            assert Holds(after.members[i], a);
          }
        } else if !hole {
          assert Holds(after.members[|r.members|], a);
        }
      }
    }
  }

  /** Whatever register is offered, the range stays well formed. */
  lemma AddKeepsInvariant(r: Range, m: Member, t: Timing)
    requires Invariant(r)
    requires Offerable(r, m)
    ensures Invariant(Add(r, m, t).0)
  {
    if m.available != Unavailable {
      if r.members == [] {
        assert Holds(m, m.config.address);
        FirstMember(r, m, t);
      } else {
        var (flagged, extend) := Place(r, m);
        var after := Add(r, m, t).0;
        if after.members == r.members {
          assert after == flagged;
          FlagKeepsInvariant(r, flagged.hasHoles);
        } else {
          assert after == Range(r.start, r.count + extend.value, flagged.hasHoles, r.members + [m]);
          AppendKeepsInvariant(r, m, extend.value, r.start + r.count < m.config.address);
        }
      }
    }
  }

  lemma FlagKeepsInvariant(r: Range, flag: bool)
    requires Invariant(r) && r.members != [] && (r.hasHoles ==> flag)
    ensures Invariant(r.(hasHoles := flag))
  {
  }

  lemma FirstMember(r: Range, m: Member, t: Timing)
    requires Invariant(r) && r.members == [] && m.available != Unavailable && m.config.WordWidth() > 0
    ensures Invariant(Append(r, m, m.config.WordWidth(), t).0)
  {
  }

  // ----- whole runs -----

  datatype Offer = Offer(m: Member, t: Timing)

  function Build(offers: seq<Offer>): Range {
    if offers == [] then EMPTY
    else Add(Build(offers[..|offers| - 1]), offers[|offers| - 1].m, offers[|offers| - 1].t).0
  }

  ghost predicate OfferableRun(offers: seq<Offer>) {
    && (forall o | o in offers :: o.m.config.WordWidth() > 0)
    && (forall o, p | o in offers && p in offers && o.m.device.id == p.m.device.id :: o.m.device == p.m.device)
  }

  lemma {:induction false} MembersWereOffered(offers: seq<Offer>)
    ensures forall m | m in Build(offers).members :: exists o | o in offers :: o.m == m
  {
    if offers != [] {
      var front, last := offers[..|offers| - 1], offers[|offers| - 1];
      MembersWereOffered(front);
      AddOutcome(Build(front), last.m, last.t);
      forall m | m in Build(offers).members ensures exists o | o in offers :: o.m == m {
        if m in Build(front).members {
          var o :| o in front && o.m == m;
          assert o in offers;
        } else {
          assert last in offers;
        }
      }
    }
  }

  /** Every range that is built by offering registers one after another is well formed. */
  lemma {:induction false} BuildKeepsInvariant(offers: seq<Offer>)
    requires OfferableRun(offers)
    ensures Invariant(Build(offers))
  {
    if offers != [] {
      var front, last := offers[..|offers| - 1], offers[|offers| - 1];
      BuildKeepsInvariant(front);
      MembersWereOffered(front);
      var r := Build(front);
      assert last in offers;
      if r.members != [] {
        assert r.members[0] in r.members;
        var o :| o in front && o.m == r.members[0];
        assert o in offers;
      }
      AddKeepsInvariant(r, last.m, last.t);
    }
  }
}
