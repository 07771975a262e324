/**
 Requests that enable events of Fast Modbus devices: registers in order are packed into records of
 neighbouring addresses, as many as a packet has room for.
 */
module EventsRequest {
  import opened Common

  const ENABLE_EVENTS_COMMAND := 0x18
  const COMMAND: seq<int> := [0x46, ENABLE_EVENTS_COMMAND]
  const RTU_MAX_PACKET_SIZE := 256
  const CRC_SIZE := 2
  const RTU_HEADER_SIZE := 1
  const DATA_SIZE_POS := 2
  const DATA_POS := 3
  const MIN_REC_SIZE := 5
  const DISABLE := 0

  type Address = x: int | 0 <= x < 0x1_0000

  /** A register whose events are to be enabled. */
  datatype Setting = Setting(typ: Octet, addr: Address, priority: Octet)

  /** Events of neighbouring addresses, one priority for each. */
  datatype Record = Record(typ: Octet, start: Address, priorities: seq<Octet>)
  {
    function End(): int {
      start + |priorities|
    }
  }

  predicate Precedes(a: Setting, b: Setting) {
    a.typ < b.typ || (a.typ == b.typ && a.addr < b.addr)
  }

  /** In order and without repetition. */
  ghost predicate IsOrdered(settings: seq<Setting>) {
    forall i, j {:trigger Precedes(settings[i], settings[j])} | 0 <= i < j < |settings| ::
      Precedes(settings[i], settings[j])
  }

  // ----- records -----

  /** Whether a register cannot be reached from the one before it. */
  predicate StartsRecord(last: Setting, s: Setting, maxRegDistance: nat) {
    last.typ != s.typ || last.addr + maxRegDistance < s.addr
  }

  function Disabled(n: nat): (r: seq<Octet>)
    ensures |r| == n
  {
    seq(n, i => DISABLE)
  }

  /** A record up to a register; the addresses between are disabled. */
  function Extended(r: Record, s: Setting): Record
    requires r.End() <= s.addr
  {
    r.(priorities := r.priorities + Disabled(s.addr - r.End()) + [s.priority])
  }

  /** The records of registers that come in order. */
  function Records(settings: seq<Setting>, maxRegDistance: nat): (r: seq<Record>)
    requires IsOrdered(settings)
    ensures r == [] <==> settings == []
    ensures settings != [] ==>
      var last, s := r[|r| - 1], settings[|settings| - 1];
      last.typ == s.typ && last.End() == s.addr + 1 && last.priorities != [] && last.start <= s.addr
  {
    if settings == [] then []
    else
      var n := |settings| - 1;
      var rs, s := Records(settings[..n], maxRegDistance), settings[n];
      if n == 0 || StartsRecord(settings[n - 1], s, maxRegDistance) then rs + [Record(s.typ, s.addr, [s.priority])]
      else
        assert Precedes(settings[n - 1], settings[n]);
        rs[..|rs| - 1] + [Extended(rs[|rs| - 1], s)]
  }

  function Header(r: Record): seq<int> {
    [r.typ, r.start / 0x100, r.start % 0x100]
  }

  function Encoded(r: Record): (e: seq<int>)
    ensures |e| == 4 + |r.priorities|
  {
    Header(r) + [|r.priorities|] + r.priorities
  }

  function EncodedAll(rs: seq<Record>): seq<int> {
    if rs == [] then [] else EncodedAll(rs[..|rs| - 1]) + Encoded(rs[|rs| - 1])
  }

  // ----- the request -----

  predicate HasSpaceForRecord(pdu: seq<int>)
    requires |pdu| > DATA_SIZE_POS
  {
    |pdu| + pdu[DATA_SIZE_POS] + MIN_REC_SIZE < RTU_MAX_PACKET_SIZE - CRC_SIZE - RTU_HEADER_SIZE
  }

  function Framed(data: seq<int>): seq<int> {
    COMMAND + [|data|] + data
  }

  function Request(rs: seq<Record>): seq<int> {
    Framed(EncodedAll(rs))
  }

  /** More bytes for the last record: both counts of the request are corrected. */
  function Lengthened(pdu: seq<int>, regCountPos: nat, more: seq<int>): (r: seq<int>)
    requires DATA_SIZE_POS < regCountPos < |pdu|
    ensures |r| == |pdu| + |more| && r[DATA_SIZE_POS] == pdu[DATA_SIZE_POS] + |more|
  {
    pdu[regCountPos := pdu[regCountPos] + |more|][DATA_SIZE_POS := pdu[DATA_SIZE_POS] + |more|] + more
  }

  /** A new record: the size of the data is corrected. */
  function Started(pdu: seq<int>, s: Setting): (r: seq<int>)
    requires |pdu| > DATA_SIZE_POS
    ensures |r| == |pdu| + MIN_REC_SIZE && r[DATA_SIZE_POS] == pdu[DATA_SIZE_POS] + MIN_REC_SIZE
  {
    pdu[DATA_SIZE_POS := pdu[DATA_SIZE_POS] + MIN_REC_SIZE] + (Header(Record(s.typ, s.addr, [])) + [1] + [s.priority])
  }

  lemma LengthenLast(front: seq<int>, r: Record, longer: Record, more: seq<Octet>)
    requires longer == r.(priorities := r.priorities + more)
    ensures var pdu, pos := Framed(front + Encoded(r)), DATA_POS + |front| + 3;
      && pos < |pdu| && Framed(front + Encoded(longer)) == Lengthened(pdu, pos, more)
  {
  }

  lemma StartNext(data: seq<int>, s: Setting)
    ensures Framed(data + Encoded(Record(s.typ, s.addr, [s.priority]))) == Started(Framed(data), s)
  {
  }

  lemma {:induction false} EncodedLast(rs: seq<Record>, r: Record)
    ensures EncodedAll(rs + [r]) == EncodedAll(rs) + Encoded(r)
  {
    assert (rs + [r])[..|rs|] == rs;
  }

  // ----- records of one more register -----

  ghost function Front(rs: seq<Record>): seq<Record>
    requires rs != []
  {
    rs[..|rs| - 1]
  }

  lemma {:induction false} RecordsNext(part: seq<Setting>, s: Setting, maxRegDistance: nat)
    requires IsOrdered(part) && IsOrdered(part + [s])
    ensures part != [] ==> Precedes(part[|part| - 1], s)
    ensures var rs := Records(part, maxRegDistance);
      if part == [] || StartsRecord(part[|part| - 1], s, maxRegDistance)
      then Records(part + [s], maxRegDistance) == rs + [Record(s.typ, s.addr, [s.priority])]
      else
        && rs[|rs| - 1].End() <= s.addr
        && Records(part + [s], maxRegDistance) == Front(rs) + [Extended(rs[|rs| - 1], s)]
  {
    assert (part + [s])[..|part|] == part;
    if part != [] {
      assert Precedes(part[|part| - 1], s) by {
        assert (part + [s])[|part|] == s;
      }
    }
  }

  /** The last record of registers that are known to end with it. */
  lemma {:induction false} LastRecord(part: seq<Setting>, maxRegDistance: nat, closed: seq<Record>, last: Record)
    requires part != [] && IsOrdered(part) && Records(part, maxRegDistance) == closed + [last]
    ensures last.typ == part[|part| - 1].typ && last.End() == part[|part| - 1].addr + 1
    ensures Front(closed + [last]) == closed
  {
    assert (closed + [last])[|closed + [last]| - 1] == last;
  }

  lemma {:induction false} RecordsExtended(
      part: seq<Setting>, s: Setting, maxRegDistance: nat, closed: seq<Record>, last: Record)
    requires part != [] && IsOrdered(part) && IsOrdered(part + [s])
    requires Records(part, maxRegDistance) == closed + [last]
    requires !StartsRecord(part[|part| - 1], s, maxRegDistance)
    ensures part[|part| - 1].addr < s.addr && last.End() == part[|part| - 1].addr + 1
    ensures Records(part + [s], maxRegDistance) == closed + [Extended(last, s)]
  {
    RecordsNext(part, s, maxRegDistance);
    LastRecord(part, maxRegDistance, closed, last);
  }

  lemma OrderedNext(settings: seq<Setting>, from: nat, end: nat)
    requires from <= end < |settings| && IsOrdered(settings)
    ensures settings[from..end + 1] == settings[from..end] + [settings[end]]
    ensures IsOrdered(settings[from..end]) && IsOrdered(settings[from..end] + [settings[end]])
    ensures from < end ==> settings[from..end][end - from - 1] == settings[end - 1]
  {
    OrderedPart(settings, from, end);
    OrderedPart(settings, from, end + 1);
  }

  lemma OrderedPart(settings: seq<Setting>, from: nat, end: nat)
    requires from <= end <= |settings| && IsOrdered(settings)
    ensures IsOrdered(settings[from..end])
  {
    var part := settings[from..end];
    forall i | 0 < i < |part| ensures Precedes(part[i - 1], part[i]) {
      assert Precedes(settings[from + i - 1], settings[from + i]);
    }
  }

  lemma OrderedJoined(a: seq<Setting>, b: seq<Setting>)
    requires IsOrdered(a) && IsOrdered(b)
    requires a == [] || b == [] || Precedes(a[|a| - 1], b[0])
    ensures IsOrdered(a + b)
  {
    var all := a + b;
    forall i, j | 0 <= i < j < |all| ensures Precedes(all[i], all[j]) {
      if i < |a| <= j {
        assert i == |a| - 1 || Precedes(a[i], a[|a| - 1]);
        assert j == |a| || Precedes(b[0], b[j - |a|]);
      } else if j < |a| {
        assert Precedes(a[i], a[j]);
      } else {
        assert Precedes(b[i - |a|], b[j - |a|]);
      }
    }
  }

  // ----- the request under construction -----

  /** The request for registers, and the place of the count of its last record. */
  ghost predicate IsOpen(part: seq<Setting>, maxRegDistance: nat, pdu: seq<int>, regCountPos: int,
                         closed: seq<Record>, last: Record)
  {
    && part != [] && IsOrdered(part)
    && Records(part, maxRegDistance) == closed + [last]
    && pdu == Framed(EncodedAll(closed) + Encoded(last))
    && regCountPos == DATA_POS + |EncodedAll(closed)| + 3
  }

  lemma {:induction false} OpenIsRequest(part: seq<Setting>, maxRegDistance: nat, pdu: seq<int>, regCountPos: int,
                      closed: seq<Record>, last: Record)
    requires IsOpen(part, maxRegDistance, pdu, regCountPos, closed, last)
    ensures pdu == Request(Records(part, maxRegDistance))
    ensures DATA_SIZE_POS < regCountPos < |pdu| && |pdu| > 3 && pdu[DATA_SIZE_POS] == |pdu| - 3
  {
    EncodedLast(closed, last);
  }

  lemma OpenExtended(part: seq<Setting>, s: Setting, maxRegDistance: nat, pdu: seq<int>, pos: int,
                     closed: seq<Record>, last: Record)
    requires IsOpen(part, maxRegDistance, pdu, pos, closed, last) && IsOrdered(part + [s])
    requires !StartsRecord(part[|part| - 1], s, maxRegDistance)
    ensures part[|part| - 1].addr < s.addr && last.End() <= s.addr && DATA_SIZE_POS < pos < |pdu|
    ensures var more := Disabled(s.addr - part[|part| - 1].addr - 1) + [s.priority];
      IsOpen(part + [s], maxRegDistance, Lengthened(pdu, pos, more), pos, closed, Extended(last, s))
  {
    RecordsExtended(part, s, maxRegDistance, closed, last);
    var front, more := EncodedAll(closed), Disabled(s.addr - part[|part| - 1].addr - 1) + [s.priority];
    assert Extended(last, s).priorities == last.priorities + more;
    LengthenLast(front, last, Extended(last, s), more);
  }

  lemma FirstOpened(s: Setting, maxRegDistance: nat)
    ensures IsOpen([s], maxRegDistance, Started(Framed([]), s), DATA_POS + 3, [], Record(s.typ, s.addr, [s.priority]))
  {
    RecordsNext([], s, maxRegDistance);
    StartNext([], s);
    assert [] + [s] == [s] && [] + Encoded(Record(s.typ, s.addr, [s.priority])) == Encoded(Record(s.typ, s.addr, [s.priority]));
  }

  lemma NextOpened(part: seq<Setting>, s: Setting, maxRegDistance: nat, pdu: seq<int>, pos: int,
                   closed: seq<Record>, last: Record)
    requires IsOpen(part, maxRegDistance, pdu, pos, closed, last) && IsOrdered(part + [s])
    requires StartsRecord(part[|part| - 1], s, maxRegDistance)
    ensures |pdu| > DATA_SIZE_POS
    ensures IsOpen(part + [s], maxRegDistance, Started(pdu, s), |pdu| + 3, closed + [last],
                   Record(s.typ, s.addr, [s.priority]))
  {
    RecordsNext(part, s, maxRegDistance);
    EncodedLast(closed, last);
    StartNext(EncodedAll(closed) + Encoded(last), s);
  }

  /** Whether the register at an index starts a record of a request that begins at another one. */
  predicate StartsAt(settings: seq<Setting>, from: nat, end: nat, maxRegDistance: nat)
    requires from <= end < |settings|
  {
    end == from || StartsRecord(settings[end - 1], settings[end], maxRegDistance)
  }

  /** What is known of a request that has the registers between two indices. */
  ghost predicate IsPartly(settings: seq<Setting>, from: nat, end: nat, maxRegDistance: nat, pdu: seq<int>, pos: int,
                           closed: seq<Record>, last: Record)
  {
    && from <= end <= |settings|
    && |pdu| >= 3 && pdu[DATA_SIZE_POS] == |pdu| - 3
    && (end == from ==> pdu == Framed([]))
    && (end > from ==> IsOpen(settings[from..end], maxRegDistance, pdu, pos, closed, last))
  }

  /** The register at an index is the next in the request. */
  lemma RegisterTaken(settings: seq<Setting>, from: nat, end: nat, maxRegDistance: nat, pdu: seq<int>, pos: int,
                      closed: seq<Record>, last: Record)
    returns (newClosed: seq<Record>, newLast: Record)
    requires end < |settings| && IsOrdered(settings) && 1 <= maxRegDistance <= MIN_REC_SIZE
    requires IsPartly(settings, from, end, maxRegDistance, pdu, pos, closed, last)
    ensures var s := settings[end];
      if StartsAt(settings, from, end, maxRegDistance) then
        IsPartly(settings, from, end + 1, maxRegDistance, Started(pdu, s), |pdu| + 3, newClosed, newLast)
      else
        var n := s.addr - settings[end - 1].addr - 1;
        && 0 <= n < MIN_REC_SIZE && DATA_SIZE_POS < pos < |pdu|
        && IsPartly(settings, from, end + 1, maxRegDistance, Lengthened(pdu, pos, Disabled(n) + [s.priority]), pos,
                    newClosed, newLast)
  {
    var part, s := settings[from..end], settings[end];
    OrderedNext(settings, from, end);
    if end == from {
      FirstOpened(s, maxRegDistance);
      newClosed, newLast := [], Record(s.typ, s.addr, [s.priority]);
    } else if StartsAt(settings, from, end, maxRegDistance) {
      NextOpened(part, s, maxRegDistance, pdu, pos, closed, last);
      newClosed, newLast := closed + [last], Record(s.typ, s.addr, [s.priority]);
    } else {
      OpenExtended(part, s, maxRegDistance, pdu, pos, closed, last);
      newClosed, newLast := closed, Extended(last, s);
    }
  }

  /** The register at an index is added to the request, which has space for a record. */
  method AddRegister(settings: seq<Setting>, from: nat, end: nat, maxRegDistance: nat, pdu: seq<int>, pos: int,
                     ghost closed: seq<Record>, ghost last: Record)
    returns (newPdu: seq<int>, newPos: int, ghost newClosed: seq<Record>, ghost newLast: Record)
    requires end < |settings| && IsOrdered(settings) && 1 <= maxRegDistance <= MIN_REC_SIZE
    requires IsPartly(settings, from, end, maxRegDistance, pdu, pos, closed, last) && HasSpaceForRecord(pdu)
    ensures IsPartly(settings, from, end + 1, maxRegDistance, newPdu, newPos, newClosed, newLast) && |newPdu| <= 130
  {
    newClosed, newLast := RegisterTaken(settings, from, end, maxRegDistance, pdu, pos, closed, last);
    var s := settings[end];
    if StartsAt(settings, from, end, maxRegDistance) {
      newPdu, newPos := Started(pdu, s), |pdu| + 3;
    } else {
      newPdu, newPos := Lengthened(pdu, pos, Disabled(s.addr - settings[end - 1].addr - 1) + [s.priority]), pos;
    }
  }

  lemma {:induction false} PartIsRequest(
      settings: seq<Setting>, from: nat, end: nat, maxRegDistance: nat, pdu: seq<int>, pos: int,
                      closed: seq<Record>, last: Record)
    requires IsPartly(settings, from, end, maxRegDistance, pdu, pos, closed, last)
    requires from < |settings| && (end == |settings| || !HasSpaceForRecord(pdu))
    ensures from < end && IsOrdered(settings[from..end])
    ensures pdu == Request(Records(settings[from..end], maxRegDistance))
  {
    OpenIsRequest(settings[from..end], maxRegDistance, pdu, pos, closed, last);
  }

  /** There is still space for a record after the registers between two indices. */
  ghost predicate HasMoreSpace(settings: seq<Setting>, from: nat, end: nat, maxRegDistance: nat) {
    && from <= end <= |settings| && IsOrdered(settings[from..end])
    && |Request(Records(settings[from..end], maxRegDistance))| <= 125
  }

  lemma SpaceIs(settings: seq<Setting>, from: nat, end: nat, maxRegDistance: nat, pdu: seq<int>, pos: int,
                closed: seq<Record>, last: Record)
    requires IsPartly(settings, from, end, maxRegDistance, pdu, pos, closed, last) && from < end
    ensures HasSpaceForRecord(pdu) <==> HasMoreSpace(settings, from, end, maxRegDistance)
    ensures HasSpaceForRecord(pdu) <==> |pdu| <= 125
  {
    OpenIsRequest(settings[from..end], maxRegDistance, pdu, pos, closed, last);
  }

  /**
   One request for as many registers from an index on as there is room for: at least one, and more while the request has
   no more than 125 bytes.  It never gets longer than 130 bytes, so that all its counts fit in a byte.
   */
  method ComposeRequest(settings: seq<Setting>, from: nat, maxRegDistance: nat) returns (end: nat, pdu: seq<int>)
    requires from < |settings| && IsOrdered(settings) && 1 <= maxRegDistance <= MIN_REC_SIZE
    ensures from < end <= |settings| && IsOrdered(settings[from..end])
    ensures pdu == Request(Records(settings[from..end], maxRegDistance))
    ensures |pdu| <= 130 && pdu[DATA_SIZE_POS] == |pdu| - 3
    ensures end == |settings| || |pdu| > 125
    ensures forall i {:trigger HasMoreSpace(settings, from, i, maxRegDistance)} | from < i < end ::
      HasMoreSpace(settings, from, i, maxRegDistance)
  {
    pdu := COMMAND + [0];
    end := from;
    var regCountPos := 0;
    ghost var closed: seq<Record>, last := [], Record(0, 0, []);
    assert pdu == Framed([]);
    while HasSpaceForRecord(pdu) && end < |settings|
      invariant IsPartly(settings, from, end, maxRegDistance, pdu, regCountPos, closed, last) && |pdu| <= 130
      invariant forall i {:trigger HasMoreSpace(settings, from, i, maxRegDistance)} | from < i < end ::
        HasMoreSpace(settings, from, i, maxRegDistance)
      decreases |settings| - end
    {
      if from < end {
        SpaceIs(settings, from, end, maxRegDistance, pdu, regCountPos, closed, last);
      }
      pdu, regCountPos, closed, last := AddRegister(settings, from, end, maxRegDistance, pdu, regCountPos, closed, last);
      end := end + 1;
    }
    PartIsRequest(settings, from, end, maxRegDistance, pdu, regCountPos, closed, last);
    SpaceIs(settings, from, end, maxRegDistance, pdu, regCountPos, closed, last);
  }
}
