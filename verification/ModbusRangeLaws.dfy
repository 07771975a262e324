/** What the limits of a range are, in numbers of the configuration. */
module ModbusRangeLaws {
  import opened Common
  import opened ModbusRange
  import opened Registers

  // ----- time -----

  /** Microseconds for a request of 8 bytes, a response with its 5 bytes around the PDU, and the waiting between them. */
  function Microseconds(m: Member, count: nat, t: Timing): nat {
    var pdu := 2 + if m.config.typ == Coil || m.config.typ == Discrete then (count + 7) / 8 else 2 * count;
    t.sendTime(13 + pdu) + t.averageResponseTime + m.device.config.requestDelay
    + if m.device.forceFrameTimeout then 1000 * m.device.config.frameTimeout else 0
  }

  /** A range is read in time exactly if it takes no more than the limit of milliseconds. */
  lemma PollTimeIs(m: Member, count: nat, t: Timing)
    ensures PollTime(m, count, t) <= t.pollLimit <==> Microseconds(m, count, t) <= 1000 * t.pollLimit
  {
  }

  /** The 16-bit words that bits take up. */
  function WordsOfBits(count: nat): nat {
    (count + 15) / 16
  }

  /** More words, or more bits than the last begun word of bits still holds, make a response longer. */
  lemma IncreasesSizeExactly(count: nat, extend: nat)
    ensures IncreasesSize(count, false, extend) <==> extend > 0
    ensures count % 16 != 0 ==> (IncreasesSize(count, true, extend) <==> WordsOfBits(count + extend) > WordsOfBits(count))
    ensures count % 16 == 0 ==> IncreasesSize(count, true, extend)
  {
  }

  /** A register that makes the response longer is accepted only if there is time for all that is then read. */
  lemma AcceptedIsInTime(r: Range, m: Member, t: Timing)
    requires Add(r, m, t).1 && m.available != Unavailable
    ensures var after := Add(r, m, t).0;
      || Microseconds(m, after.count, t) <= 1000 * t.pollLimit
      || (r.count != 0 && if m.config.typ == Coil || m.config.typ == Discrete
                          then r.count % 16 != 0 && WordsOfBits(after.count) == WordsOfBits(r.count)
                          else after.count == r.count)
  {
    PollLimitIsKept(r, m, t);
    var after := Add(r, m, t).0;
    PollTimeIs(m, after.count, t);
    AcceptedGrows(r, m, t);
    IncreasesSizeExactly(r.count, after.count - r.count);
  }

  lemma AcceptedGrows(r: Range, m: Member, t: Timing)
    ensures r.count <= Add(r, m, t).0.count
  {
  }

  /** A first register is accepted exactly if there is time to read it alone. */
  lemma FirstIsAccepted(m: Member, t: Timing)
    requires m.available != Unavailable
    ensures Add(EMPTY, m, t).1 <==> Microseconds(m, m.config.WordWidth(), t) <= 1000 * t.pollLimit
    ensures Add(EMPTY, m, t).1 ==> Add(EMPTY, m, t).0 == Range(m.config.address, m.config.WordWidth(), false, [m])
  {
    PollTimeIs(m, m.config.WordWidth(), t);
  }

  // ----- size -----

  /** A request asks for at most 2000 bits or 125 words, and for no more than is configured within that. */
  lemma CountIsLimited(r: Range)
    requires Invariant(r) && r.members != []
    ensures var first := r.members[0];
      var most, configured := if first.config.IsSingleBit() then 2000 else 125, first.device.config.maxReadRegisters;
      || r.count == first.config.WordWidth()
      || (r.count <= most && (0 < configured <= most ==> r.count <= configured))
  {
  }

  function MostOf(m: Member): int {
    var most, configured :=
      if m.config.typ == Coil || m.config.typ == Discrete then 2000 else 125, m.device.config.maxReadRegisters;
    if 0 < configured <= most then configured else most
  }

  /** How many registers of unknown availability are read together, which only bits are. */
  function MostUnknown(m: Member): int {
    var configured := m.device.config.maxReadRegisters;
    if 0 < configured <= 125 then configured else 16
  }

  /** The response is no longer than before, or there is time for it. */
  predicate IsInTime(r: Range, m: Member, count: nat, t: Timing)
    requires r.count <= count
  {
    || Microseconds(m, count, t) <= 1000 * t.pollLimit
    || if m.config.typ == Coil || m.config.typ == Discrete
       then r.count % 16 != 0 && WordsOfBits(count) == WordsOfBits(r.count) else count == r.count
  }

  /** Without continuous read, what is not known to be available is read with such bits only, not after known ones. */
  predicate MayBeTogether(r: Range, m: Member)
    requires r.members != []
  {
    || m.device.continuousRead
    || (r.members[|r.members| - 1].available != Unknown && m.available != Unknown)
    || (&& r.members[|r.members| - 1].available == Unknown
        && (m.config.typ == Coil || m.config.typ == Discrete) && m.config.address <= r.start + r.count
        && (m.available == Unknown ==> |r.members| < MostUnknown(m)))
  }

  /** Of the device and the type of a range, near its registers, known as they are, and within the size of a request. */
  predicate HasPlace(r: Range, m: Member, count: nat)
    requires r.members != []
  {
    && m.device.id == r.members[0].device.id && m.config.typ == r.members[0].config.typ
    && r.start <= m.config.address <= r.start + r.count + LongestHole(m)
    && MayBeTogether(r, m) && count <= MostOf(m)
  }

  lemma LimitsAre(m: Member)
    ensures MaxCount(m) == MostOf(m) && MaxUnknown(m) == MostUnknown(m) && MaxHole(m) == LongestHole(m)
  {
  }

  lemma RefusedExactly(r: Range, m: Member)
    requires r.members != [] && m.available != Unavailable
    ensures MayBeTogether(r, m)
       <==> m.device.continuousRead || !RefusedByAvailability(r, m, r.start + r.count < m.config.address)
  {
    LimitsAre(m);
  }

  lemma PlacedExactly(r: Range, m: Member, count: nat)
    requires r.members != [] && m.available != Unavailable
    requires count == Max(r.count, m.config.address + m.config.WordWidth() - r.start)
    ensures Place(r, m).1.Some? <==> HasPlace(r, m, count)
    ensures Place(r, m).1.Some? ==> Place(r, m).1.value == count - r.count
    ensures Place(r, m).0.count == r.count
  {
    LimitsAre(m);
    RefusedExactly(r, m);
  }

  lemma AppendedExactly(r: Range, m: Member, count: nat, t: Timing)
    requires 0 < r.count <= count
    ensures Append(r, m, count - r.count, t).1 <==> IsInTime(r, m, count, t)
  {
    PollTimeIs(m, count, t);
    IncreasesSizeExactly(r.count, count - r.count);
  }

  /** A further register is accepted exactly if it has a place and there is time for it. */
  lemma AcceptedExactly(r: Range, m: Member, t: Timing)
    requires r.members != [] && r.count > 0 && m.available != Unavailable
    ensures var count := Max(r.count, m.config.address + m.config.WordWidth() - r.start);
      Add(r, m, t).1 <==> HasPlace(r, m, count) && IsInTime(r, m, count, t)
  {
    var count := Max(r.count, m.config.address + m.config.WordWidth() - r.start);
    PlacedExactly(r, m, count);
    AppendedExactly(Place(r, m).0, m, count, t);
  }

  // ----- holes -----

  /** The longest stretch between registers that a request may read in vain. */
  function LongestHole(m: Member): nat {
    if !m.device.supportsHoles then 0
    else if m.config.typ == Coil || m.config.typ == Discrete then m.device.config.maxBitHole
    else m.device.config.maxRegHole
  }

  predicate HoldsOneOf(members: seq<Member>, a: int, b: int, i: nat)
    requires i < |members|
  {
    a < members[i].config.address + members[i].config.WordWidth() && members[i].config.address <= b
  }

  /** A register holds one of the addresses from a to b. */
  ghost predicate SomeIsCovered(members: seq<Member>, a: int, b: int) {
    exists i: nat :: i < |members| && HoldsOneOf(members, a, b, i)
  }

  /** Of addresses in a row, one more than a hole may have, one belongs to a register; so does the last one. */
  ghost predicate HolesAreShort(r: Range) {
    && (r.members == [] <==> r.count == 0)
    && (r.members != [] ==>
          && SomeIsCovered(r.members, r.start + r.count - 1, r.start + r.count - 1)
          && (forall a, b {:trigger SomeIsCovered(r.members, a, b)} | IsTooLong(r, LongestHole(r.members[0]), a, b) ::
                SomeIsCovered(r.members, a, b)))
  }

  /** Addresses from a to b of a range, one more than a hole may have. */
  predicate IsTooLong(r: Range, hole: nat, a: int, b: int) {
    r.start <= a && b == a + hole && b < r.start + r.count
  }

  lemma CoveredStill(members: seq<Member>, m: Member, a: int, b: int)
    ensures SomeIsCovered(members, a, b) ==> SomeIsCovered(members + [m], a, b)
    ensures a < m.config.address + m.config.WordWidth() && m.config.address <= b ==> SomeIsCovered(members + [m], a, b)
  {
    if SomeIsCovered(members, a, b) {
      var i: nat :| i < |members| && HoldsOneOf(members, a, b, i);
      assert HoldsOneOf(members + [m], a, b, i);
    }
    if a < m.config.address + m.config.WordWidth() && m.config.address <= b {
      assert HoldsOneOf(members + [m], a, b, |members|);
    }
  }

  lemma WiderIsCovered(members: seq<Member>, a: int, b: int, c: int, d: int)
    requires SomeIsCovered(members, a, b) && c <= a && b <= d
    ensures SomeIsCovered(members, c, d)
  {
    var i: nat :| i < |members| && HoldsOneOf(members, a, b, i);
    assert HoldsOneOf(members, c, d, i);
  }

  /** Accepting a register means that it begins within the range or not too far behind it. */
  lemma AcceptedIsNear(r: Range, m: Member, t: Timing)
    requires r.count > 0 && r.members != [] && Add(r, m, t).0.members == r.members + [m]
    ensures r.start <= m.config.address <= r.start + r.count + LongestHole(m)
    ensures m.device.id == r.members[0].device.id && m.config.typ == r.members[0].config.typ
    ensures Add(r, m, t).0.start == r.start
    ensures Add(r, m, t).0.count == Max(r.count, m.config.address + m.config.WordWidth() - r.start)
  {
    assert |Add(r, m, t).0.members| > |r.members|;
  }

  lemma AddKeepsHolesShort(r: Range, m: Member, t: Timing)
    requires HolesAreShort(r) && Offerable(r, m)
    ensures HolesAreShort(Add(r, m, t).0)
  {
    var after := Add(r, m, t).0;
    AddOutcome(r, m, t);
    if after.members != r.members {
      if r.members == [] {
        FirstIsAlone(r, m, t);
      } else {
        AcceptedIsNear(r, m, t);
        var end, hole := r.start + r.count, LongestHole(m);
        CoveredStill(r.members, m, end - 1, end - 1);
        CoveredStill(r.members, m, after.start + after.count - 1, after.start + after.count - 1);
        forall a, b | IsTooLong(after, hole, a, b) ensures SomeIsCovered(after.members, a, b) {
          CoveredStill(r.members, m, a, b);
          assert b < end ==> IsTooLong(r, hole, a, b);
          if end <= b < m.config.address {
            WiderIsCovered(after.members, end - 1, end - 1, a, b);
          }
        }
      }
    }
  }

  lemma FirstIsAlone(r: Range, m: Member, t: Timing)
    requires r.members == [] && m.config.WordWidth() > 0
    requires Add(r, m, t).0.members == [m] && r.count == 0
    ensures HolesAreShort(Add(r, m, t).0)
  {
    var after, hole := Add(r, m, t).0, LongestHole(m);
    assert HoldsOneOf([m], after.start + after.count - 1, after.start + after.count - 1, 0);
    forall a, b | IsTooLong(after, hole, a, b) ensures SomeIsCovered([m], a, b) {
      assert HoldsOneOf([m], a, b, 0);
    }
  }

  /** No stretch of a range that belongs to no register is longer than the configuration allows. */
  lemma {:induction false} BuildKeepsHolesShort(offers: seq<Offer>)
    requires OfferableRun(offers)
    ensures HolesAreShort(Build(offers))
  {
    if offers != [] {
      var front, last := offers[..|offers| - 1], offers[|offers| - 1];
      BuildKeepsHolesShort(front);
      BuildKeepsInvariant(front);
      LastIsOfferable(offers);
      AddKeepsHolesShort(Build(front), last.m, last.t);
    }
  }

  lemma LastIsOfferable(offers: seq<Offer>)
    requires OfferableRun(offers) && offers != []
    ensures Offerable(Build(offers[..|offers| - 1]), offers[|offers| - 1].m)
  {
    var front, last := offers[..|offers| - 1], offers[|offers| - 1];
    MembersWereOffered(front);
    var r := Build(front);
    assert last in offers;
    if r.members != [] {
      assert r.members[0] in r.members;
      var o :| o in front && o.m == r.members[0];
      assert o in offers;
    }
  }
}
