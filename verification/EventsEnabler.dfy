/**
 Enabling events of Fast Modbus devices: registers are sorted and sent in requests, and the bits of each answer are
 matched to addresses by going through the registers once more, not through the request.
 */
module EventsEnabler {
  import opened Common
  import opened EventsRequest
  import opened EventsRequestLaws
  import opened ModbusRead

  const RESPONSE_MIN_SIZE := 3
  const SUB_COMMAND_POS := 1

  /** What a visitor gets: whether events of a register are enabled. */
  datatype Visit = Visit(typ: Octet, addr: nat, enabled: bool)

  datatype Outcome = Done | ExceptionResponse(code: Byte) | InvalidSize | InvalidSubCommand | NotEnoughData

  // ----- the data of an answer -----

  /** Bytes that a record takes in an answer. */
  function BytesFor(n: nat): nat {
    (n + 7) / 8
  }

  function Size(rs: seq<Record>): nat {
    if rs == [] then 0 else Size(rs[..|rs| - 1]) + BytesFor(|rs[|rs| - 1].priorities|)
  }

  predicate DataBit(data: seq<Byte>, offset: nat, k: nat)
    requires offset + k / 8 < |data|
  {
    BitAt(data[offset + k / 8], k % 8)
  }

  /** Visits of addresses from one on, with the bits of a record's data. */
  function RunVisits(typ: Octet, start: nat, count: nat, data: seq<Byte>, offset: nat): (r: seq<Visit>)
    requires offset + BytesFor(count) <= |data|
    ensures |r| == count
    ensures forall k | 0 <= k < count :: r[k] == Visit(typ, start + k, DataBit(data, offset, k))
  {
    seq(count, k requires 0 <= k < count => Visit(typ, start + k, DataBit(data, offset, k)))
  }

  function Visits(rs: seq<Record>, data: seq<Byte>): seq<Visit>
    requires Size(rs) <= |data|
  {
    if rs == [] then []
    else
      var front, r := rs[..|rs| - 1], rs[|rs| - 1];
      Visits(front, data) + RunVisits(r.typ, r.start, |r.priorities|, data, Size(front))
  }

  /** The addresses of a record whose bits are among the data. */
  function Within(count: nat, data: seq<Byte>, offset: nat): nat
    requires offset <= |data|
  {
    Min(count, 8 * (|data| - offset))
  }

  /** The visits of records in order, up to the end of the data. */
  function Walk(rs: seq<Record>, data: seq<Byte>): seq<Visit> {
    if rs == [] then []
    else
      var front, r := rs[..|rs| - 1], rs[|rs| - 1];
      Walk(front, data)
      + if Size(front) > |data| then []
        else RunVisits(r.typ, r.start, Within(|r.priorities|, data, Size(front)), data, Size(front))
  }

  /** With data for all of them, all are visited. */
  lemma {:induction false} WalkToTheEnd(rs: seq<Record>, data: seq<Byte>)
    requires Size(rs) <= |data|
    ensures Walk(rs, data) == Visits(rs, data)
  {
    if rs != [] {
      WalkToTheEnd(rs[..|rs| - 1], data);
    }
  }

  /** What is visited does not depend on data that are missing. */
  lemma {:induction false} WalkIsPrefix(rs: seq<Record>, data: seq<Byte>, more: seq<Byte>)
    ensures Walk(rs, data) <= Walk(rs, data + more)
    ensures Size(rs) <= |data| ==> Walk(rs, data) == Walk(rs, data + more)
  {
    if rs != [] {
      var front, r := rs[..|rs| - 1], rs[|rs| - 1];
      WalkIsPrefix(front, data, more);
      if Size(front) <= |data| {
        RunIsPrefix(r, data, more, Size(front));
      }
    }
  }

  lemma RunIsPrefix(r: Record, data: seq<Byte>, more: seq<Byte>, offset: nat)
    requires offset <= |data|
    ensures var n, m := Within(|r.priorities|, data, offset), Within(|r.priorities|, data + more, offset);
      RunVisits(r.typ, r.start, n, data, offset) <= RunVisits(r.typ, r.start, m, data + more, offset)
  {
    var n := Within(|r.priorities|, data, offset);
    forall k | 0 <= k < n ensures DataBit(data, offset, k) == DataBit(data + more, offset, k) {
    }
  }

  // ----- going through the data -----

  /** A position in the data: starts before the first byte. */
  class BitIterator {
    var pos: int
    var bitIndex: nat
    const size: nat

    constructor (size: nat)
      ensures pos == -1 && bitIndex == 0 && this.size == size
    {
      pos, bitIndex, this.size := -1, 0, size;
    }

    method NextByte() returns (ok: bool)
      modifies this
      ensures pos == old(pos) + 1 && bitIndex == 0
      ensures ok <==> pos < size
    {
      pos, bitIndex := pos + 1, 0;
      ok := pos < size;
    }

    method NextBit() returns (ok: bool)
      requires bitIndex < 8
      modifies this
      ensures if old(bitIndex) == 7 then pos == old(pos) + 1 && bitIndex == 0 && (ok <==> pos < size)
              else ok && pos == old(pos) && bitIndex == old(bitIndex) + 1
    {
      bitIndex := bitIndex + 1;
      ok := true;
      if bitIndex == 8 {
        ok := NextByte();
      }
    }
  }

  /** The last visited bit is the one of the last address of a record that is read up to it. */
  ghost predicate IsAt(it: BitIterator, offset: nat, count: nat)
    reads it
  {
    && count > 0
    && it.pos == offset + BytesFor(count) - 1
    && it.bitIndex == (count - 1) % 8
    && it.pos < it.size
  }

  lemma NextPosition(offset: nat, count: nat)
    requires count > 0
    ensures BytesFor(count + 1) == if (count - 1) % 8 == 7 then BytesFor(count) + 1 else BytesFor(count)
    ensures count % 8 == if (count - 1) % 8 == 7 then 0 else (count - 1) % 8 + 1
    ensures count / 8 == BytesFor(count + 1) - 1
  {
  }

  lemma NextVisit(typ: Octet, start: nat, count: nat, data: seq<Byte>, offset: nat)
    requires offset + BytesFor(count + 1) <= |data|
    ensures BytesFor(count) <= BytesFor(count + 1) && count / 8 == BytesFor(count + 1) - 1
    ensures RunVisits(typ, start, count + 1, data, offset)
         == RunVisits(typ, start, count, data, offset) + [Visit(typ, start + count, DataBit(data, offset, count))]
  {
  }

  /** Where the next bit would be past the end of the data. */
  lemma DataEnd(offset: nat, n: nat, count: nat, data: seq<Byte>)
    requires 0 < n < count && (n - 1) % 8 == 7 && offset + BytesFor(n) == |data|
    ensures Within(count, data, offset) == n
  {
  }

  /** Goes on to the next address of a record. */
  method VisitNext(it: BitIterator, data: seq<Byte>, typ: Octet, addr: nat, ghost start: nat, ghost offset: nat)
    returns (ok: bool, visit: Visit)
    requires start < addr && it.size == |data| && IsAt(it, offset, addr - start)
    modifies it
    ensures ok <==> offset + BytesFor(addr - start + 1) <= |data|
    ensures ok ==> IsAt(it, offset, addr - start + 1) && visit == Visit(typ, addr, DataBit(data, offset, addr - start))
    ensures !ok ==> (addr - start - 1) % 8 == 7 && offset + BytesFor(addr - start) == |data|
  {
    NextPosition(offset, addr - start);
    ok := it.NextBit();
    visit := Visit(typ, addr, ok && BitAt(data[it.pos], it.bitIndex));
  }

  /** Goes on to a register in the record that is being read. */
  method VisitUpTo(it: BitIterator, data: seq<Byte>, typ: Octet, lastDataAddr: nat, addr: nat,
                   ghost start: nat, ghost offset: nat)
    returns (ok: bool, visits: seq<Visit>)
    requires start <= lastDataAddr < addr && it.size == |data|
    requires IsAt(it, offset, lastDataAddr - start + 1)
    modifies it
    ensures ok <==> offset + BytesFor(addr - start + 1) <= |data|
    ensures ok ==> IsAt(it, offset, addr - start + 1)
    ensures var before := RunVisits(typ, start, lastDataAddr - start + 1, data, offset);
      RunVisits(typ, start, Within(addr - start + 1, data, offset), data, offset) == before + visits
  {
    var a := lastDataAddr;
    visits := [];
    while a != addr
      invariant lastDataAddr <= a <= addr
      invariant IsAt(it, offset, a - start + 1)
      invariant RunVisits(typ, start, a - start + 1, data, offset)
             == RunVisits(typ, start, lastDataAddr - start + 1, data, offset) + visits
      decreases addr - a
    {
      var visit;
      ok, visit := VisitNext(it, data, typ, a + 1, start, offset);
      if !ok {
        DataEnd(offset, a - start + 1, addr - start + 1, data);
        return;
      }
      NextVisit(typ, start, a - start + 1, data, offset);
      a := a + 1;
      visits := visits + [visit];
    }
    ok := true;
  }

  // ----- one answer -----

  lemma {:induction false} SizeNext(rs: seq<Record>, r: Record)
    ensures Size(rs + [r]) == Size(rs) + BytesFor(|r.priorities|)
  {
    assert (rs + [r])[..|rs|] == rs;
  }

  lemma {:induction false} VisitsNext(rs: seq<Record>, r: Record, data: seq<Byte>)
    requires Size(rs + [r]) <= |data|
    ensures Size(rs) + BytesFor(|r.priorities|) <= |data|
    ensures Visits(rs + [r], data) == Visits(rs, data) + RunVisits(r.typ, r.start, |r.priorities|, data, Size(rs))
  {
    SizeNext(rs, r);
    assert (rs + [r])[..|rs|] == rs;
  }

  lemma {:induction false} WalkNext(rs: seq<Record>, r: Record, data: seq<Byte>)
    ensures Walk(rs + [r], data) == Walk(rs, data)
      + if Size(rs) > |data| then []
        else RunVisits(r.typ, r.start, Within(|r.priorities|, data, Size(rs)), data, Size(rs))
  {
    assert (rs + [r])[..|rs|] == rs;
  }

  lemma {:induction false} WalkExtended(front: seq<Record>, r: Record, data: seq<Byte>)
    requires Size(front) <= |data|
    ensures Walk(front + [r], data)
         == Visits(front, data) + RunVisits(r.typ, r.start, Within(|r.priorities|, data, Size(front)), data, Size(front))
  {
    WalkToTheEnd(front, data);
    WalkNext(front, r, data);
  }

  lemma {:induction false} WalkStarted(rs: seq<Record>, r: Record, data: seq<Byte>)
    requires Size(rs) <= |data| && |r.priorities| == 1
    ensures Walk(rs + [r], data)
         == Visits(rs, data) + if Size(rs) == |data| then [] else [Visit(r.typ, r.start, DataBit(data, Size(rs), 0))]
  {
    WalkExtended(rs, r, data);
    FirstVisit(r.typ, r.start, data, Size(rs));
  }

  lemma FirstVisit(typ: Octet, start: nat, data: seq<Byte>, offset: nat)
    requires offset <= |data|
    ensures Within(1, data, offset) == if offset == |data| then 0 else 1
    ensures RunVisits(typ, start, Within(1, data, offset), data, offset)
         == if offset == |data| then [] else [Visit(typ, start, DataBit(data, offset, 0))]
  {
  }

  /** How far a going through the settings is, when it has come past some of them. */
  ghost predicate IsPast(it: BitIterator, rs: seq<Record>, data: seq<Byte>, visits: seq<Visit>)
    reads it
  {
    && it.size == |data|
    && Size(rs) <= |data|
    && visits == Visits(rs, data)
    && (if rs == [] then it.pos == -1 else IsAt(it, Size(Front(rs)), |rs[|rs| - 1].priorities|))
  }

  lemma {:induction false} PositionIsLastByte(it: BitIterator, rs: seq<Record>, data: seq<Byte>, visits: seq<Visit>)
    requires IsPast(it, rs, data, visits)
    ensures it.pos == Size(rs) - 1
  {
    if rs != [] {
      assert rs == Front(rs) + [rs[|rs| - 1]];
      SizeNext(Front(rs), rs[|rs| - 1]);
    }
  }

  /** A register that starts a record: its bit is the first one of the next byte. */
  method VisitNewRecord(it: BitIterator, data: seq<Byte>, s: Setting, ghost rs: seq<Record>, visits0: seq<Visit>)
    returns (ok: bool, visits: seq<Visit>)
    requires IsPast(it, rs, data, visits0)
    modifies it
    ensures var longer := rs + [Record(s.typ, s.addr, [s.priority])];
      && (ok <==> Size(longer) <= |data|)
      && (ok ==> IsPast(it, longer, data, visits))
      && visits == Walk(longer, data)
  {
    ghost var r := Record(s.typ, s.addr, [s.priority]);
    PositionIsLastByte(it, rs, data, visits0);
    SizeNext(rs, r);
    WalkStarted(rs, r, data);
    ok := it.NextByte();
    visits := visits0;
    if ok {
      VisitsNext(rs, r, data);
      assert Front(rs + [r]) == rs;
      visits := visits + [Visit(s.typ, s.addr, BitAt(data[it.pos], it.bitIndex))];
    }
  }

  /** The same, with the last of the records apart. */
  ghost predicate IsInRecord(it: BitIterator, front: seq<Record>, r: Record, data: seq<Byte>, visits: seq<Visit>)
    reads it
  {
    && it.size == |data|
    && Size(front) + BytesFor(|r.priorities|) <= |data|
    && visits == Visits(front, data) + RunVisits(r.typ, r.start, |r.priorities|, data, Size(front))
    && IsAt(it, Size(front), |r.priorities|)
  }

  lemma LastRecordApart(it: BitIterator, front: seq<Record>, r: Record, data: seq<Byte>, visits: seq<Visit>)
    ensures IsPast(it, front + [r], data, visits) <==> IsInRecord(it, front, r, data, visits)
  {
    SizeNext(front, r);
    assert Front(front + [r]) == front;
    if Size(front + [r]) <= |data| {
      VisitsNext(front, r, data);
    }
  }

  /** A register in the record that is being read: the addresses up to it are visited one after another. */
  method VisitSameRecord(it: BitIterator, data: seq<Byte>, last: Setting, s: Setting, ghost front: seq<Record>,
                         ghost r: Record, visits0: seq<Visit>)
    returns (ok: bool, visits: seq<Visit>)
    requires IsInRecord(it, front, r, data, visits0)
    requires r.typ == last.typ == s.typ && r.start <= last.addr && r.End() == last.addr + 1 <= s.addr
    modifies it
    ensures ok <==> Size(front) + BytesFor(|Extended(r, s).priorities|) <= |data|
    ensures ok ==> IsInRecord(it, front, Extended(r, s), data, visits)
    ensures visits == Walk(front + [Extended(r, s)], data)
  {
    var more;
    ok, more := VisitUpTo(it, data, s.typ, last.addr, s.addr, r.start, Size(front));
    visits := visits0 + more;
    assert |r.priorities| == last.addr - r.start + 1;
    VisitsExtended(front, r, Extended(r, s), data, more);
  }

  /** The visits of a record that has become longer, as far as there are data. */
  lemma {:induction false} VisitsExtended(
      front: seq<Record>, r: Record, longer: Record, data: seq<Byte>, more: seq<Visit>)
    requires Size(front) + BytesFor(|r.priorities|) <= |data|
    requires longer.typ == r.typ && longer.start == r.start
    requires RunVisits(r.typ, r.start, Within(|longer.priorities|, data, Size(front)), data, Size(front))
          == RunVisits(r.typ, r.start, |r.priorities|, data, Size(front)) + more
    ensures var visits := Visits(front, data) + RunVisits(r.typ, r.start, |r.priorities|, data, Size(front)) + more;
      && visits == Walk(front + [longer], data)
      && (Size(front) + BytesFor(|longer.priorities|) <= |data| ==>
            visits == Visits(front, data) + RunVisits(longer.typ, longer.start, |longer.priorities|, data, Size(front)))
  {
    WalkExtended(front, longer, data);
    AllWithin(|longer.priorities|, data, Size(front));
  }

  lemma AllWithin(count: nat, data: seq<Byte>, offset: nat)
    requires offset <= |data|
    ensures offset + BytesFor(count) <= |data| ==> Within(count, data, offset) == count
  {
  }

  /** How a register changes the records of those before it. */
  lemma {:induction false} RecordsUpTo(settings: seq<Setting>, i: nat, maxRegDistance: nat)
    requires IsOrdered(settings) && i < |settings|
    ensures IsOrdered(settings[..i]) && IsOrdered(settings[..i + 1])
    ensures var rs, s := Records(settings[..i], maxRegDistance), settings[i];
      if i == 0 || StartsRecord(settings[i - 1], s, maxRegDistance)
      then Records(settings[..i + 1], maxRegDistance) == rs + [Record(s.typ, s.addr, [s.priority])]
      else
        var r, last := rs[|rs| - 1], settings[i - 1];
        && r.typ == last.typ == s.typ && r.start <= last.addr && r.End() == last.addr + 1 <= s.addr
        && Records(settings[..i + 1], maxRegDistance) == Front(rs) + [Extended(r, s)]
  {
    OrderedNext(settings, 0, i);
    assert settings[..i + 1] == settings[..i] + [settings[i]];
    RecordsAfter(settings[..i], settings[i], maxRegDistance);
  }

  lemma {:induction false} RecordsAfter(part: seq<Setting>, s: Setting, maxRegDistance: nat)
    requires IsOrdered(part) && IsOrdered(part + [s])
    ensures var rs := Records(part, maxRegDistance);
      if part == [] || StartsRecord(part[|part| - 1], s, maxRegDistance)
      then Records(part + [s], maxRegDistance) == rs + [Record(s.typ, s.addr, [s.priority])]
      else
        var r, last := rs[|rs| - 1], part[|part| - 1];
        && r.typ == last.typ == s.typ && r.start <= last.addr && r.End() == last.addr + 1 <= s.addr
        && Records(part + [s], maxRegDistance) == Front(rs) + [Extended(r, s)]
  {
    RecordsNext(part, s, maxRegDistance);
  }

  lemma MoreBytes(n: nat, m: nat)
    requires n <= m
    ensures BytesFor(n) <= BytesFor(m)
  {
  }

  /** Records grow with the last one of them. */
  lemma {:induction false} LastGrows(front: seq<Record>, r: Record, longer: Record)
    requires |r.priorities| <= |longer.priorities|
    ensures Size(front + [r]) <= Size(front + [longer])
  {
    SizeNext(front, r);
    SizeNext(front, longer);
    MoreBytes(|r.priorities|, |longer.priorities|);
  }

  lemma {:induction false} SizeGrowsOnce(settings: seq<Setting>, i: nat, maxRegDistance: nat)
    requires IsOrdered(settings) && i < |settings|
    ensures IsOrdered(settings[..i]) && IsOrdered(settings[..i + 1])
    ensures Size(Records(settings[..i], maxRegDistance)) <= Size(Records(settings[..i + 1], maxRegDistance))
  {
    RecordsUpTo(settings, i, maxRegDistance);
    var rs, s := Records(settings[..i], maxRegDistance), settings[i];
    if i == 0 || StartsRecord(settings[i - 1], s, maxRegDistance) {
      SizeNext(rs, Record(s.typ, s.addr, [s.priority]));
    } else {
      assert rs == Front(rs) + [rs[|rs| - 1]];
      LastGrows(Front(rs), rs[|rs| - 1], Extended(rs[|rs| - 1], s));
    }
  }

  lemma {:induction false} SizeGrows(settings: seq<Setting>, i: nat, maxRegDistance: nat)
    requires IsOrdered(settings) && i <= |settings|
    ensures IsOrdered(settings[..i])
    ensures Size(Records(settings[..i], maxRegDistance)) <= Size(Records(settings, maxRegDistance))
    decreases |settings| - i
  {
    assert settings[..|settings|] == settings;
    if i < |settings| {
      SizeGrows(settings, i + 1, maxRegDistance);
      SizeGrowsOnce(settings, i, maxRegDistance);
    }
  }

  lemma {:induction false} WalkEnds(front: seq<Record>, r: Record, longer: Record, data: seq<Byte>)
    requires longer.typ == r.typ && longer.start == r.start && |r.priorities| <= |longer.priorities|
    requires Size(front + [r]) > |data|
    ensures Walk(front + [longer], data) == Walk(front + [r], data)
  {
    SizeNext(front, r);
    WalkNext(front, r, data);
    WalkNext(front, longer, data);
  }

  lemma {:induction false} WalkEndsOnce(settings: seq<Setting>, i: nat, maxRegDistance: nat, data: seq<Byte>)
    requires IsOrdered(settings) && i < |settings| && IsOrdered(settings[..i]) && IsOrdered(settings[..i + 1])
    requires Size(Records(settings[..i], maxRegDistance)) > |data|
    ensures Walk(Records(settings[..i + 1], maxRegDistance), data) == Walk(Records(settings[..i], maxRegDistance), data)
  {
    RecordsUpTo(settings, i, maxRegDistance);
    var rs, s := Records(settings[..i], maxRegDistance), settings[i];
    if i == 0 || StartsRecord(settings[i - 1], s, maxRegDistance) {
      WalkNext(rs, Record(s.typ, s.addr, [s.priority]), data);
    } else {
      assert rs == Front(rs) + [rs[|rs| - 1]];
      WalkEnds(Front(rs), rs[|rs| - 1], Extended(rs[|rs| - 1], s), data);
    }
  }

  /** Registers past the end of the data are not visited. */
  lemma {:induction false} WalkStays(settings: seq<Setting>, i: nat, maxRegDistance: nat, data: seq<Byte>)
    requires IsOrdered(settings) && i <= |settings| && IsOrdered(settings[..i])
    requires Size(Records(settings[..i], maxRegDistance)) > |data|
    ensures Walk(Records(settings, maxRegDistance), data) == Walk(Records(settings[..i], maxRegDistance), data)
    ensures Size(Records(settings, maxRegDistance)) > |data|
    decreases |settings| - i
  {
    assert settings[..|settings|] == settings;
    if i < |settings| {
      SizeGrowsOnce(settings, i, maxRegDistance);
      WalkEndsOnce(settings, i, maxRegDistance, data);
      WalkStays(settings, i + 1, maxRegDistance, data);
    }
  }

  /** The next register, in the record that it was put into when the request was composed. */
  method VisitSetting(it: BitIterator, data: seq<Byte>, settings: seq<Setting>, i: nat, maxRegDistance: nat,
                      visits0: seq<Visit>)
    returns (ok: bool, visits: seq<Visit>)
    requires IsOrdered(settings) && i < |settings| && IsOrdered(settings[..i])
    requires IsPast(it, Records(settings[..i], maxRegDistance), data, visits0)
    modifies it
    ensures IsOrdered(settings[..i + 1])
    ensures var rs := Records(settings[..i + 1], maxRegDistance);
      && (ok <==> Size(rs) <= |data|)
      && (ok ==> IsPast(it, rs, data, visits))
      && visits == Walk(rs, data)
  {
    ghost var rs := Records(settings[..i], maxRegDistance);
    RecordsUpTo(settings, i, maxRegDistance);
    if i == 0 || StartsRecord(settings[i - 1], settings[i], maxRegDistance) {
      ok, visits := VisitNewRecord(it, data, settings[i], rs, visits0);
    } else {
      ghost var front, r := Front(rs), rs[|rs| - 1];
      assert rs == front + [r];
      LastRecordApart(it, front, r, data, visits0);
      ok, visits := VisitSameRecord(it, data, settings[i - 1], settings[i], front, r, visits0);
      SizeNext(front, Extended(r, settings[i]));
      LastRecordApart(it, front, Extended(r, settings[i]), data, visits);
    }
  }

  /** Goes through the registers of a request along with the data of its answer. */
  method VisitSettings(settings: seq<Setting>, maxRegDistance: nat, data: seq<Byte>)
    returns (outcome: Outcome, visits: seq<Visit>)
    requires IsOrdered(settings)
    ensures var rs := Records(settings, maxRegDistance);
      visits == Walk(rs, data) && outcome == if Size(rs) <= |data| then Done else NotEnoughData
  {
    var it := new BitIterator(|data|);
    visits := [];
    for i := 0 to |settings|
      invariant IsOrdered(settings[..i])
      invariant IsPast(it, Records(settings[..i], maxRegDistance), data, visits)
    {
      var ok;
      ok, visits := VisitSetting(it, data, settings, i, maxRegDistance, visits);
      if !ok {
        WalkStays(settings, i + 1, maxRegDistance, data);
        return NotEnoughData, visits;
      }
    }
    assert settings[..|settings|] == settings;
    WalkToTheEnd(Records(settings, maxRegDistance), data);
    outcome := Done;
  }

  predicate IsException(command: Byte) {
    command & 0x80 != 0
  }

  /** The answer has all the data that it announces. */
  predicate HasAnnouncedData(response: seq<Byte>) {
    |response| < RESPONSE_MIN_SIZE || DATA_POS + response[DATA_SIZE_POS] as int <= |response|
  }

  /** What comes of an answer to a request for registers. */
  function AnswerTo(settings: seq<Setting>, maxRegDistance: nat, response: seq<Byte>): (Outcome, seq<Visit>)
    requires IsOrdered(settings) && HasAnnouncedData(response)
  {
    if |response| == 2 && IsException(response[0]) then (ExceptionResponse(response[1]), [])
    else if |response| < RESPONSE_MIN_SIZE then (InvalidSize, [])
    else if response[SUB_COMMAND_POS] != ENABLE_EVENTS_COMMAND as Byte then (InvalidSubCommand, [])
    else
      var rs := Records(settings, maxRegDistance);
      var data := response[DATA_POS..DATA_POS + response[DATA_SIZE_POS] as int];
      (if Size(rs) <= |data| then Done else NotEnoughData, Walk(rs, data))
  }

  lemma ExceptionIs(command: Byte)
    ensures IsException(command) <==> command >= 0x80
  {
  }

  lemma CommandIs(command: Byte)
    ensures command == ENABLE_EVENTS_COMMAND as Byte <==> command == 0x18
  {
  }

  /** Which answers fail, and how. */
  lemma {:induction false} AnswerIs(settings: seq<Setting>, maxRegDistance: nat, response: seq<Byte>)
    requires IsOrdered(settings) && HasAnnouncedData(response)
    ensures var outcome := AnswerTo(settings, maxRegDistance, response).0;
      if |response| == 2 && response[0] >= 0x80 then outcome == ExceptionResponse(response[1])
      else if |response| < 3 then outcome == InvalidSize
      else if response[1] != 0x18 then outcome == InvalidSubCommand
      else outcome == if Size(Records(settings, maxRegDistance)) <= response[2] as int then Done else NotEnoughData
  {
    if |response| == 2 {
      ExceptionIs(response[0]);
    } else if |response| > 2 {
      CommandIs(response[1]);
    }
  }

  /** Matches an answer to the registers of the request that it answers. */
  method EnableEvents(settings: seq<Setting>, maxRegDistance: nat, response: seq<Byte>)
    returns (outcome: Outcome, visits: seq<Visit>)
    requires IsOrdered(settings) && HasAnnouncedData(response)
    ensures (outcome, visits) == AnswerTo(settings, maxRegDistance, response)
  {
    if |response| == 2 && IsException(response[0]) {
      return ExceptionResponse(response[1]), [];
    }
    if |response| < RESPONSE_MIN_SIZE {
      return InvalidSize, [];
    }
    if response[SUB_COMMAND_POS] != ENABLE_EVENTS_COMMAND as Byte {
      return InvalidSubCommand, [];
    }
    outcome, visits :=
      VisitSettings(settings, maxRegDistance, response[DATA_POS..DATA_POS + response[DATA_SIZE_POS] as int]);
  }

  // ----- devices -----

  /** The state of events of every register of a device. */
  type States = (int, int) -> bool

  ghost predicate RecordIsPacked(r: Record, data: seq<Byte>, offset: nat, on: States) {
    && offset + BytesFor(|r.priorities|) <= |data|
    && forall k | 0 <= k < |r.priorities| :: DataBit(data, offset, k) == on(r.typ, r.start + k)
  }

  /** One bit for every address, the first one least significant; every record starts with a new byte. */
  ghost predicate ArePacked(rs: seq<Record>, data: seq<Byte>, on: States) {
    rs == [] || (
      && ArePacked(rs[..|rs| - 1], data, on)
      && RecordIsPacked(rs[|rs| - 1], data, Size(rs[..|rs| - 1]), on)
    )
  }

  ghost predicate IsReply(rs: seq<Record>, response: seq<Byte>, on: States) {
    && |response| >= RESPONSE_MIN_SIZE
    && response[SUB_COMMAND_POS] == ENABLE_EVENTS_COMMAND as Byte
    && response[DATA_SIZE_POS] as int == |response| - DATA_POS == Size(rs)
    && ArePacked(rs, response[DATA_POS..], on)
  }

  /** A device that answers the requests it can read. */
  ghost predicate IsDevice(device: seq<int> -> seq<Byte>, on: States) {
    forall pdu :: ParseRequest(pdu).Some? ==> IsReply(ParseRequest(pdu).value, device(pdu), on)
  }

  function Seen(asked: seq<Setting>, on: States): (r: seq<Visit>)
    ensures |r| == |asked|
    ensures forall i | 0 <= i < |r| :: r[i] == Visit(asked[i].typ, asked[i].addr, on(asked[i].typ, asked[i].addr))
  {
    seq(|asked|, i requires 0 <= i < |asked| =>
      Visit(asked[i].typ, asked[i].addr, on(asked[i].typ, asked[i].addr)))
  }

  lemma SeenJoined(a: seq<Setting>, b: seq<Setting>, on: States)
    ensures Seen(a + b, on) == Seen(a, on) + Seen(b, on)
  {
  }

  /** Every address gets its own bit. */
  lemma {:induction false} PackedIsSeen(rs: seq<Record>, data: seq<Byte>, on: States)
    requires FitAddresses(rs) && ArePacked(rs, data, on) && Size(rs) <= |data|
    ensures Visits(rs, data) == Seen(Asked(rs), on)
  {
    if rs != [] {
      var front, r := rs[..|rs| - 1], rs[|rs| - 1];
      PackedIsSeen(front, data, on);
      var run := Run(r.typ, r.start, r.priorities);
      SeenJoined(Asked(front), run, on);
      RunIsSeen(r, data, Size(front), on);
    }
  }

  lemma RunIsSeen(r: Record, data: seq<Byte>, offset: nat, on: States)
    requires r.End() <= 0x1_0000 && RecordIsPacked(r, data, offset, on)
    ensures RunVisits(r.typ, r.start, |r.priorities|, data, offset) == Seen(Run(r.typ, r.start, r.priorities), on)
  {
  }

  // ----- all requests -----

  /** Where packets end: each one takes at least one register. */
  ghost predicate AreCuts(cuts: seq<nat>, n: nat) {
    && cuts != [] && cuts[0] == 0
    && (forall i | 0 <= i < |cuts| :: cuts[i] <= n)
    && (forall i | 0 < i < |cuts| :: cuts[i - 1] < cuts[i])
  }

  /** All that packets ask for. */
  ghost function AskedInAll(settings: seq<Setting>, cuts: seq<nat>, maxRegDistance: nat): seq<Setting>
    requires IsOrdered(settings) && AreCuts(cuts, |settings|)
  {
    var n := |cuts| - 1;
    if n == 0 then []
    else
      OrderedPart(settings, cuts[n - 1], cuts[n]);
      AskedInAll(settings, cuts[..n], maxRegDistance) + Filled(settings[cuts[n - 1]..cuts[n]], maxRegDistance)
  }

  /** A packet on the wire: a device can read it, and every count fits in its byte. */
  ghost predicate IsPacket(pdu: seq<int>, rs: seq<Record>) {
    && |pdu| <= 130
    && pdu == Request(rs)
    && pdu[DATA_SIZE_POS] == |pdu| - DATA_POS
    && ParseRequest(pdu) == Some(rs)
  }

  lemma {:induction false} ReplyIsSeen(part: seq<Setting>, maxRegDistance: nat, response: seq<Byte>, on: States)
    requires IsOrdered(part) && IsReply(Records(part, maxRegDistance), response, on)
    ensures var rs, data := Records(part, maxRegDistance), response[DATA_POS..];
      Size(rs) == |data| && Visits(rs, data) == Seen(Filled(part, maxRegDistance), on)
  {
    var rs, data := Records(part, maxRegDistance), response[DATA_POS..];
    RecordsAskFilled(part, maxRegDistance);
    PackedIsSeen(rs, data, on);
  }

  lemma {:induction false} AnswerIsSeen(part: seq<Setting>, maxRegDistance: nat, response: seq<Byte>, on: States)
    requires IsOrdered(part) && HasAnnouncedData(response) && IsReply(Records(part, maxRegDistance), response, on)
    ensures AnswerTo(part, maxRegDistance, response) == (Done, Seen(Filled(part, maxRegDistance), on))
  {
    ReplyIsSeen(part, maxRegDistance, response, on);
    WalkToTheEnd(Records(part, maxRegDistance), response[DATA_POS..]);
    WholeAnswer(part, maxRegDistance, response);
  }

  lemma {:induction false} WholeAnswer(part: seq<Setting>, maxRegDistance: nat, response: seq<Byte>)
    requires IsOrdered(part) && |response| >= RESPONSE_MIN_SIZE
    requires response[SUB_COMMAND_POS] == ENABLE_EVENTS_COMMAND as Byte
    requires response[DATA_SIZE_POS] as int == |response| - DATA_POS == Size(Records(part, maxRegDistance))
    ensures AnswerTo(part, maxRegDistance, response) == (Done, Walk(Records(part, maxRegDistance), response[DATA_POS..]))
  {
    assert response[DATA_POS..DATA_POS + response[DATA_SIZE_POS] as int] == response[DATA_POS..];
  }

  /** What comes of the packets for registers up to the last cut; the first failure ends the sending. */
  ghost function Answers(settings: seq<Setting>, cuts: seq<nat>, maxRegDistance: nat, device: seq<int> -> seq<Byte>)
    : (Outcome, seq<Visit>)
    requires IsOrdered(settings) && AreCuts(cuts, |settings|) && forall pdu :: HasAnnouncedData(device(pdu))
  {
    var n := |cuts| - 1;
    if n == 0 then (Done, [])
    else
      var (outcome, visits) := Answers(settings, cuts[..n], maxRegDistance, device);
      if outcome != Done then (outcome, visits)
      else
        OrderedPart(settings, cuts[n - 1], cuts[n]);
        var (last, more) := Answered(settings[cuts[n - 1]..cuts[n]], maxRegDistance, device);
        (last, visits + more)
  }

  /** What a device answers to a packet for registers. */
  ghost function Answered(part: seq<Setting>, maxRegDistance: nat, device: seq<int> -> seq<Byte>): (Outcome, seq<Visit>)
    requires IsOrdered(part) && forall pdu :: HasAnnouncedData(device(pdu))
  {
    AnswerTo(part, maxRegDistance, device(Request(Records(part, maxRegDistance))))
  }

  /** A packet for registers, and what comes of its answer. */
  method SendSingleRequest(settings: seq<Setting>, from: nat, maxRegDistance: nat, device: seq<int> -> seq<Byte>)
    returns (end: nat, pdu: seq<int>, outcome: Outcome, visits: seq<Visit>)
    requires from < |settings| && IsOrdered(settings) && 1 <= maxRegDistance <= MIN_REC_SIZE
    requires forall pdu :: HasAnnouncedData(device(pdu))
    ensures from < end <= |settings| && IsOrdered(settings[from..end])
    ensures IsPacket(pdu, Records(settings[from..end], maxRegDistance)) && (end < |settings| ==> |pdu| > 125)
    ensures (outcome, visits) == Answered(settings[from..end], maxRegDistance, device)
  {
    end, pdu := ComposeRequest(settings, from, maxRegDistance);
    var part := settings[from..end];
    RequestIsRead(Records(part, maxRegDistance));
    outcome, visits := EnableEvents(part, maxRegDistance, device(pdu));
  }

  ghost predicate IsNextCut(cuts: seq<nat>, end: nat, n: nat) {
    AreCuts(cuts, n) && cuts[|cuts| - 1] < end <= n
  }

  lemma CutsNext(cuts: seq<nat>, end: nat, n: nat)
    requires IsNextCut(cuts, end, n)
    ensures AreCuts(cuts + [end], n)
  {
  }

  /** Packets for the registers up to the last cut. */
  ghost predicate ArePackets(settings: seq<Setting>, cuts: seq<nat>, pdus: seq<seq<int>>, maxRegDistance: nat)
    requires AreCuts(cuts, |settings|)
  {
    && |cuts| == |pdus| + 1
    && forall i | 0 <= i < |pdus| :: IsPacketFor(pdus[i], settings[cuts[i]..cuts[i + 1]], maxRegDistance)
  }

  ghost predicate IsPacketFor(pdu: seq<int>, part: seq<Setting>, maxRegDistance: nat) {
    IsOrdered(part) && IsPacket(pdu, Records(part, maxRegDistance))
  }

  lemma PacketsNext(settings: seq<Setting>, cuts: seq<nat>, pdus: seq<seq<int>>, maxRegDistance: nat, end: nat,
                    pdu: seq<int>)
    requires IsNextCut(cuts, end, |settings|) && AreCuts(cuts + [end], |settings|)
    requires ArePackets(settings, cuts, pdus, maxRegDistance)
    requires IsPacketFor(pdu, settings[cuts[|cuts| - 1]..end], maxRegDistance)
    ensures ArePackets(settings, cuts + [end], pdus + [pdu], maxRegDistance)
  {
    var longer, all := cuts + [end], pdus + [pdu];
    forall i | 0 <= i < |all|
      ensures IsPacketFor(all[i], settings[longer[i]..longer[i + 1]], maxRegDistance)
    {
      if i < |pdus| {
        assert longer[i] == cuts[i] && longer[i + 1] == cuts[i + 1];
      }
    }
  }

  lemma {:induction false} AnswersNext(settings: seq<Setting>, cuts: seq<nat>, end: nat, maxRegDistance: nat,
                    device: seq<int> -> seq<Byte>, visits: seq<Visit>)
    requires IsOrdered(settings) && IsNextCut(cuts, end, |settings|) && AreCuts(cuts + [end], |settings|)
    requires forall pdu :: HasAnnouncedData(device(pdu))
    requires Answers(settings, cuts, maxRegDistance, device) == (Done, visits)
    ensures IsOrdered(settings[cuts[|cuts| - 1]..end])
    ensures var (outcome, more) := Answered(settings[cuts[|cuts| - 1]..end], maxRegDistance, device);
      Answers(settings, cuts + [end], maxRegDistance, device) == (outcome, visits + more)
  {
    OrderedPart(settings, cuts[|cuts| - 1], end);
    assert (cuts + [end])[..|cuts|] == cuts;
  }

  /** A device that answers every request has every address in the packets visited in order, with its own state. */
  lemma {:induction false} AnswersAreSeen(
      settings: seq<Setting>, cuts: seq<nat>, pdus: seq<seq<int>>, maxRegDistance: nat, device: seq<int> -> seq<Byte>,
      on: States)
    requires IsOrdered(settings) && AreCuts(cuts, |settings|) && forall pdu :: HasAnnouncedData(device(pdu))
    requires ArePackets(settings, cuts, pdus, maxRegDistance) && IsDevice(device, on)
    ensures Answers(settings, cuts, maxRegDistance, device)
         == (Done, Seen(AskedInAll(settings, cuts, maxRegDistance), on))
  {
    var n := |cuts| - 1;
    if n > 0 {
      PacketsBefore(settings, cuts, pdus, maxRegDistance);
      AnswersAreSeen(settings, cuts[..n], pdus[..n - 1], maxRegDistance, device, on);
      OrderedPart(settings, cuts[n - 1], cuts[n]);
      var part := settings[cuts[n - 1]..cuts[n]];
      assert IsPacketFor(pdus[n - 1], part, maxRegDistance);
      AnswerIsSeen(part, maxRegDistance, device(Request(Records(part, maxRegDistance))), on);
      SeenJoined(AskedInAll(settings, cuts[..n], maxRegDistance), Filled(part, maxRegDistance), on);
    }
  }

  lemma PacketsBefore(settings: seq<Setting>, cuts: seq<nat>, pdus: seq<seq<int>>, maxRegDistance: nat)
    requires AreCuts(cuts, |settings|) && ArePackets(settings, cuts, pdus, maxRegDistance) && pdus != []
    ensures var n := |pdus|; AreCuts(cuts[..n], |settings|) && ArePackets(settings, cuts[..n], pdus[..n - 1], maxRegDistance)
  {
    var n := |pdus|;
    forall i | 0 <= i < n - 1
      ensures IsPacketFor(pdus[..n - 1][i], settings[cuts[..n][i]..cuts[..n][i + 1]], maxRegDistance)
    {
      assert IsPacketFor(pdus[i], settings[cuts[i]..cuts[i + 1]], maxRegDistance);
    }
  }

  /** Every packet but the last one has no space for more. */
  ghost predicate AreFull(pdus: seq<seq<int>>) {
    forall i {:trigger IsFull(pdus, i)} | 0 <= i < |pdus| - 1 :: IsFull(pdus, i)
  }

  predicate IsFull(pdus: seq<seq<int>>, i: nat) {
    i < |pdus| ==> |pdus[i]| > 125
  }

  lemma FullNext(pdus: seq<seq<int>>, pdu: seq<int>)
    requires AreFull(pdus) && (pdus != [] ==> IsFull(pdus, |pdus| - 1))
    ensures AreFull(pdus + [pdu]) && (|pdu| > 125 ==> IsFull(pdus + [pdu], |pdus|))
  {
    forall i | 0 <= i < |pdus| ensures IsFull(pdus + [pdu], i) {
      assert IsFull(pdus, i);
    }
  }

  /** What came of everything before the last packet. */
  ghost predicate AllWereAnswered(
      settings: seq<Setting>, cuts: seq<nat>, maxRegDistance: nat, device: seq<int> -> seq<Byte>)
    requires IsOrdered(settings) && AreCuts(cuts, |settings|) && forall pdu :: HasAnnouncedData(device(pdu))
  {
    |cuts| > 1 ==> Answers(settings, cuts[..|cuts| - 1], maxRegDistance, device).0 == Done
  }

  /**
   Sends registers in order. The packets follow each other without a gap, and what comes of it is what comes of the
   answers, one after another, up to the first failure.
   */
  method SendInOrder(settings: seq<Setting>, maxRegDistance: nat, device: seq<int> -> seq<Byte>)
    returns (outcome: Outcome, visits: seq<Visit>, ghost cuts: seq<nat>, pdus: seq<seq<int>>)
    requires IsOrdered(settings) && 1 <= maxRegDistance <= MIN_REC_SIZE
    requires forall pdu :: HasAnnouncedData(device(pdu))
    ensures AreCuts(cuts, |settings|) && ArePackets(settings, cuts, pdus, maxRegDistance) && AreFull(pdus)
    ensures outcome == Done ==> cuts[|cuts| - 1] == |settings|
    ensures (outcome, visits) == Answers(settings, cuts, maxRegDistance, device)
    ensures AllWereAnswered(settings, cuts, maxRegDistance, device)
  {
    var settingsEnd := 0;
    visits, cuts, pdus, outcome := [], [0], [], Done;
    while settingsEnd < |settings|
      invariant AreCuts(cuts, |settings|) && cuts[|cuts| - 1] == settingsEnd
      invariant ArePackets(settings, cuts, pdus, maxRegDistance)
      invariant AreFull(pdus) && (settingsEnd < |settings| && pdus != [] ==> IsFull(pdus, |pdus| - 1))
      invariant outcome == Done && Answers(settings, cuts, maxRegDistance, device) == (Done, visits)
      invariant AllWereAnswered(settings, cuts, maxRegDistance, device)
      decreases |settings| - settingsEnd
    {
      var end, pdu, more;
      end, pdu, outcome, more := SendSingleRequest(settings, settingsEnd, maxRegDistance, device);
      CutsNext(cuts, end, |settings|);
      PacketsNext(settings, cuts, pdus, maxRegDistance, end, pdu);
      AnswersNext(settings, cuts, end, maxRegDistance, device, visits);
      FullNext(pdus, pdu);
      assert (cuts + [end])[..|cuts|] == cuts;
      cuts, pdus, visits, settingsEnd := cuts + [end], pdus + [pdu], visits + more, end;
      if outcome != Done {
        return;
      }
    }
  }
}
