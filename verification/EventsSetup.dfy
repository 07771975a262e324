/** Registers collected in any order, made known to a device in requests, and what a visitor learns of them. */
module EventsSetup {
  import opened Common
  import opened EventsRequest
  import opened EventsRequestLaws
  import opened EventsEnabler
  import opened ModbusRead

  // ----- a device -----

  function TableOf(r: Record, on: States): map<int, bool> {
    map a | r.start <= a < r.End() :: on(r.typ, a)
  }

  function PackedData(rs: seq<Record>, on: States): (data: seq<Byte>)
    ensures |data| == Size(rs)
  {
    if rs == [] then []
    else
      var r := rs[|rs| - 1];
      PackedData(rs[..|rs| - 1], on) + BitBytes(TableOf(r, on), r.start, |r.priorities|)
  }

  lemma {:induction false} PackedStays(rs: seq<Record>, data: seq<Byte>, more: seq<Byte>, on: States)
    requires ArePacked(rs, data, on)
    ensures ArePacked(rs, data + more, on)
  {
    if rs != [] {
      PackedStays(rs[..|rs| - 1], data, more, on);
      var r, offset := rs[|rs| - 1], Size(rs[..|rs| - 1]);
      forall k | 0 <= k < |r.priorities| ensures DataBit(data + more, offset, k) == on(r.typ, r.start + k) {
        assert DataBit(data, offset, k) == on(r.typ, r.start + k);
      }
    }
  }

  lemma {:induction false} DataIsPacked(rs: seq<Record>, on: States)
    ensures ArePacked(rs, PackedData(rs, on), on)
  {
    if rs != [] {
      var front, r := rs[..|rs| - 1], rs[|rs| - 1];
      DataIsPacked(front, on);
      var before, bytes := PackedData(front, on), BitBytes(TableOf(r, on), r.start, |r.priorities|);
      PackedStays(front, before, bytes, on);
      RunIsPacked(r, before, bytes, on);
    }
  }

  lemma RunIsPacked(r: Record, before: seq<Byte>, bytes: seq<Byte>, on: States)
    requires bytes == BitBytes(TableOf(r, on), r.start, |r.priorities|)
    ensures RecordIsPacked(r, before + bytes, |before|, on)
  {
    forall k | 0 <= k < |r.priorities| ensures DataBit(before + bytes, |before|, k) == on(r.typ, r.start + k) {
      BitIsPacked(r, before, bytes, on, k);
    }
  }

  lemma BitIsPacked(r: Record, before: seq<Byte>, bytes: seq<Byte>, on: States, k: nat)
    requires bytes == BitBytes(TableOf(r, on), r.start, |r.priorities|) && k < |r.priorities|
    ensures DataBit(before + bytes, |before|, k) == on(r.typ, r.start + k)
  {
    SentBitArrives(TableOf(r, on), r.start, |r.priorities|, k);
    assert (before + bytes)[|before| + k / 8] == bytes[k / 8];
  }

  /** A device that packs its bits the way it packs coils. */
  function Reply(on: States, pdu: seq<int>): seq<Byte> {
    match ParseRequest(pdu)
    case None => []
    case Some(rs) =>
      var data := PackedData(rs, on);
      if |data| < 0x100 then WithHeader([0x46, ENABLE_EVENTS_COMMAND as Byte], ByteOf(|data|), data) else []
  }

  function ByteOf(n: nat): (b: Byte)
    requires n < 0x100
    ensures b as int == n
  {
    if n == 0 then 0
    else
      var b := ByteOf(n - 1);
      NextByte(b);
      b + 1
  }

  lemma NextByte(b: Byte)
    requires b as int < 0xff
    ensures (b + 1) as int == b as int + 1
  {
  }

  function WithHeader(command: seq<Byte>, size: Byte, data: seq<Byte>): (r: seq<Byte>)
    requires |command| == DATA_SIZE_POS
    ensures |r| == DATA_POS + |data| && r[DATA_POS..] == data
    ensures r[SUB_COMMAND_POS] == command[1] && r[DATA_SIZE_POS] == size
  {
    command + [size] + data
  }

  lemma {:induction false} RecordsAreShort(data: seq<int>)
    requires AreOctets(data) && ParseRecords(data).Some?
    ensures Size(ParseRecords(data).value) <= |data|
  {
    if data != [] {
      var n := 4 + data[3];
      RecordsAreShort(data[n..]);
      var r := Record(data[0], data[1] * 0x100 + data[2], data[4..n]);
      SizeFirst(r, ParseRecords(data[n..]).value);
    }
  }

  lemma {:induction false} SizeFirst(r: Record, rs: seq<Record>)
    ensures Size([r] + rs) == BytesFor(|r.priorities|) + Size(rs)
  {
    if rs == [] {
      SizeNext([], r);
      assert [] + [r] == [r] + rs;
    } else {
      var front, last := rs[..|rs| - 1], rs[|rs| - 1];
      SizeFirst(r, front);
      SizeNext([r] + front, last);
      SizeNext(front, last);
      assert [r] + rs == ([r] + front) + [last] && rs == front + [last];
    }
  }

  /** There are devices that answer every request. */
  lemma ReplyIsFromDevice(on: States)
    ensures IsDevice(pdu => Reply(on, pdu), on)
    ensures forall pdu :: HasAnnouncedData(Reply(on, pdu))
  {
    forall pdu | ParseRequest(pdu).Some? ensures IsReply(ParseRequest(pdu).value, Reply(on, pdu), on) {
      ReplyIsRight(on, pdu);
    }
    forall pdu ensures HasAnnouncedData(Reply(on, pdu)) {
      if ParseRequest(pdu).Some? {
        ReplyIsRight(on, pdu);
      }
    }
  }

  lemma ReplyIsRight(on: States, pdu: seq<int>)
    requires ParseRequest(pdu).Some?
    ensures IsReply(ParseRequest(pdu).value, Reply(on, pdu), on)
  {
    var rs := ParseRequest(pdu).value;
    RecordsAreShort(pdu[DATA_POS..]);
    DataIsPacked(rs, on);
  }

  // ----- all packets together -----

  lemma HoleStays(settings: seq<Setting>, from: nat, end: nat, maxRegDistance: nat, hole: Setting)
    requires from <= end <= |settings| && IsHole(settings[from..end], maxRegDistance, hole)
    ensures IsHole(settings, maxRegDistance, hole)
  {
  }

  /** A register, or a hole between two near ones. */
  ghost predicate BelongsTo(settings: seq<Setting>, maxRegDistance: nat, a: Setting) {
    a in settings || IsHole(settings, maxRegDistance, a)
  }

  ghost predicate AllBelong(asked: seq<Setting>, settings: seq<Setting>, maxRegDistance: nat) {
    forall a {:trigger BelongsTo(settings, maxRegDistance, a)} | a in asked :: BelongsTo(settings, maxRegDistance, a)
  }

  /** Every register up to an index, each once, and nothing else but holes between them. */
  ghost predicate Covers(asked: seq<Setting>, settings: seq<Setting>, end: nat, maxRegDistance: nat)
    requires end <= |settings|
  {
    && IsOrdered(asked)
    && (forall i | 0 <= i < end :: settings[i] in asked)
    && AllBelong(asked, settings, maxRegDistance)
    && (if end == 0 then asked == [] else asked != [] && asked[|asked| - 1] == settings[end - 1])
  }

  lemma {:induction false} CoversNext(
      asked: seq<Setting>, settings: seq<Setting>, from: nat, end: nat, maxRegDistance: nat)
    requires from < end <= |settings| && IsOrdered(settings) && Covers(asked, settings, from, maxRegDistance)
    ensures IsOrdered(settings[from..end])
    ensures Covers(asked + Filled(settings[from..end], maxRegDistance), settings, end, maxRegDistance)
  {
    OrderedPart(settings, from, end);
    var filled := Filled(settings[from..end], maxRegDistance);
    PartIsOrdered(asked, settings, from, end, maxRegDistance, filled);
    PartIsFilled(settings, from, end, maxRegDistance, filled);
    CoversBoth(asked, filled, settings, from, end, maxRegDistance);
  }

  lemma {:induction false} PartIsOrdered(
      asked: seq<Setting>, settings: seq<Setting>, from: nat, end: nat, maxRegDistance: nat, filled: seq<Setting>)
    requires from < end <= |settings| && IsOrdered(settings) && IsOrdered(settings[from..end]) && IsOrdered(asked)
    requires if from == 0 then asked == [] else asked != [] && asked[|asked| - 1] == settings[from - 1]
    requires filled == Filled(settings[from..end], maxRegDistance)
    ensures IsOrdered(asked + filled) && filled != [] && filled[|filled| - 1] == settings[end - 1]
  {
    FilledIsOrdered(settings[from..end], maxRegDistance);
    assert from > 0 ==> Precedes(settings[from - 1], settings[from]);
    OrderedJoined(asked, filled);
  }

  lemma {:induction false} PartIsFilled(
      settings: seq<Setting>, from: nat, end: nat, maxRegDistance: nat, filled: seq<Setting>)
    requires from < end <= |settings| && IsOrdered(settings[from..end])
    requires filled == Filled(settings[from..end], maxRegDistance)
    ensures forall i | from <= i < end :: settings[i] in filled
    ensures AllBelong(filled, settings, maxRegDistance)
  {
    var part := settings[from..end];
    FilledCovers(part, maxRegDistance);
    forall i | from <= i < end ensures settings[i] in filled {
      assert part[i - from] in part;
    }
    forall a | a in filled ensures BelongsTo(settings, maxRegDistance, a) {
      if a !in part {
        HoleStays(settings, from, end, maxRegDistance, a);
      }
    }
  }

  lemma CoversBoth(asked: seq<Setting>, more: seq<Setting>, settings: seq<Setting>, from: nat, end: nat,
                   maxRegDistance: nat)
    requires from < end <= |settings| && Covers(asked, settings, from, maxRegDistance) && IsOrdered(asked + more)
    requires forall i | from <= i < end :: settings[i] in more
    requires AllBelong(more, settings, maxRegDistance)
    requires more != [] && more[|more| - 1] == settings[end - 1]
    ensures Covers(asked + more, settings, end, maxRegDistance)
  {
    assert (asked + more)[|asked + more| - 1] == more[|more| - 1];
  }

  /** However registers are cut into packets, together they ask for every register once. */
  lemma {:induction false} PacketsCover(settings: seq<Setting>, cuts: seq<nat>, maxRegDistance: nat)
    requires IsOrdered(settings) && AreCuts(cuts, |settings|)
    ensures Covers(AskedInAll(settings, cuts, maxRegDistance), settings, cuts[|cuts| - 1], maxRegDistance)
  {
    var n := |cuts| - 1;
    if n > 0 {
      PacketsCover(settings, cuts[..n], maxRegDistance);
      CoversNext(AskedInAll(settings, cuts[..n], maxRegDistance), settings, cuts[n - 1], cuts[n], maxRegDistance);
    }
  }

  /** A hole between two registers of the same packet. */
  ghost predicate IsHoleWithin(settings: seq<Setting>, cuts: seq<nat>, maxRegDistance: nat, hole: Setting)
    requires AreCuts(cuts, |settings|)
  {
    && hole.priority == DISABLE
    && exists i | 0 < i < cuts[|cuts| - 1] && i !in cuts ::
         IsBetween(settings[i - 1], hole, settings[i], maxRegDistance)
  }

  lemma EarlierCuts(cuts: seq<nat>, n: nat)
    requires AreCuts(cuts, n)
    ensures forall i, j | 0 <= i < j < |cuts| :: cuts[i] < cuts[j]
  {
    if |cuts| > 1 {
      var last := |cuts| - 1;
      var earlier := cuts[..last];
      EarlierCuts(earlier, n);
      forall i, j | 0 <= i < j < |cuts| ensures cuts[i] < cuts[j] {
        assert j < last ==> earlier[i] < earlier[j];
        assert j == last && i < last - 1 ==> earlier[i] < earlier[last - 1] < cuts[last];
      }
    }
  }

  lemma HoleIsInPart(settings: seq<Setting>, from: nat, end: nat, maxRegDistance: nat, hole: Setting)
    requires from <= end <= |settings|
    ensures IsHole(settings[from..end], maxRegDistance, hole) <==> (
      && hole.priority == DISABLE
      && exists i | from < i < end :: IsBetween(settings[i - 1], hole, settings[i], maxRegDistance))
  {
    var part := settings[from..end];
    if i :| 0 < i < |part| && IsBetween(part[i - 1], hole, part[i], maxRegDistance) {
      assert IsBetween(settings[from + i - 1], hole, settings[from + i], maxRegDistance);
    }
    if i :| from < i < end && IsBetween(settings[i - 1], hole, settings[i], maxRegDistance) {
      assert IsBetween(part[i - from - 1], hole, part[i - from], maxRegDistance);
    }
  }

  /** The holes of one more packet. */
  lemma HoleWithinNext(settings: seq<Setting>, cuts: seq<nat>, maxRegDistance: nat, hole: Setting)
    requires AreCuts(cuts, |settings|) && |cuts| > 1 && AreCuts(cuts[..|cuts| - 1], |settings|)
    ensures var n := |cuts| - 1;
      IsHoleWithin(settings, cuts, maxRegDistance, hole) <==>
        || IsHoleWithin(settings, cuts[..n], maxRegDistance, hole)
        || IsHole(settings[cuts[n - 1]..cuts[n]], maxRegDistance, hole)
  {
    var n := |cuts| - 1;
    EarlierCuts(cuts, |settings|);
    HoleIsInPart(settings, cuts[n - 1], cuts[n], maxRegDistance, hole);
    forall i | i < cuts[n - 1] ensures i in cuts <==> i in cuts[..n] {
    }
    assert forall i | cuts[n - 1] < i < cuts[n] :: i !in cuts;
    assert cuts[n - 1] in cuts;
    assert forall i | 0 < i < cuts[n] && i !in cuts :: i < cuts[n - 1] || cuts[n - 1] < i;
  }

  /**
   All packets together ask for the registers up to the last cut and for the holes between near registers of the same
   packet, and for nothing else.
   */
  lemma {:induction false} AskedExactly(settings: seq<Setting>, cuts: seq<nat>, maxRegDistance: nat, a: Setting)
    requires IsOrdered(settings) && AreCuts(cuts, |settings|)
    ensures a in AskedInAll(settings, cuts, maxRegDistance)
      <==> a in settings[..cuts[|cuts| - 1]] || IsHoleWithin(settings, cuts, maxRegDistance, a)
  {
    var n := |cuts| - 1;
    if n > 0 {
      AskedExactly(settings, cuts[..n], maxRegDistance, a);
      OrderedPart(settings, cuts[n - 1], cuts[n]);
      FilledHas(settings[cuts[n - 1]..cuts[n]], maxRegDistance, a);
      HoleWithinNext(settings, cuts, maxRegDistance, a);
      IsInParts(settings, cuts[n - 1], cuts[n], a);
    }
  }

  lemma FilledHas(part: seq<Setting>, maxRegDistance: nat, a: Setting)
    requires IsOrdered(part)
    ensures a in Filled(part, maxRegDistance) <==> a in part || IsHole(part, maxRegDistance, a)
  {
    FilledCovers(part, maxRegDistance);
  }

  lemma IsInParts<A>(s: seq<A>, i: nat, j: nat, x: A)
    requires i <= j <= |s|
    ensures x in s[..j] <==> x in s[..i] || x in s[i..j]
  {
    assert s[..j] == s[..i] + s[i..j];
  }

  lemma PacketsAreShort(settings: seq<Setting>, cuts: seq<nat>, pdus: seq<seq<int>>, maxRegDistance: nat)
    requires AreCuts(cuts, |settings|) && ArePackets(settings, cuts, pdus, maxRegDistance)
    ensures forall pdu | pdu in pdus :: |pdu| <= 130 && ParseRequest(pdu).Some?
  {
    forall i | 0 <= i < |pdus| ensures |pdus[i]| <= 130 && ParseRequest(pdus[i]).Some? {
      assert IsPacketFor(pdus[i], settings[cuts[i]..cuts[i + 1]], maxRegDistance);
    }
  }

  // ----- sorting -----

  predicate SameRegister(a: Setting, b: Setting) {
    a.typ == b.typ && a.addr == b.addr
  }

  ghost predicate Has(settings: seq<Setting>, s: Setting) {
    exists i | 0 <= i < |settings| :: SameRegister(settings[i], s)
  }

  /** In order, each register once with one of its priorities. */
  ghost predicate IsSorted(sorted: seq<Setting>, settings: seq<Setting>) {
    && IsOrdered(sorted)
    && (forall s | s in sorted :: s in settings)
    && (forall s | s in settings :: Has(sorted, s))
  }

  method Insert(sorted: seq<Setting>, s: Setting) returns (r: seq<Setting>)
    requires IsOrdered(sorted)
    ensures IsOrdered(r) && Has(r, s)
    ensures forall t | t in r :: t in sorted || t == s
    ensures forall t | t in sorted :: t in r
  {
    var i := 0;
    while i < |sorted| && Precedes(sorted[i], s)
      invariant 0 <= i <= |sorted|
      invariant i > 0 ==> Precedes(sorted[i - 1], s)
    {
      i := i + 1;
    }
    if i < |sorted| && SameRegister(sorted[i], s) {
      return sorted;
    }
    OrderedPart(sorted, 0, i);
    OrderedPart(sorted, i, |sorted|);
    OrderedJoined(sorted[..i], [s]);
    OrderedJoined(sorted[..i] + [s], sorted[i..]);
    r := sorted[..i] + [s] + sorted[i..];
    assert SameRegister(r[i], s);
  }

  lemma HasStays(a: seq<Setting>, b: seq<Setting>, s: Setting)
    requires Has(a, s) && forall t | t in a :: t in b
    ensures Has(b, s)
  {
    var i :| 0 <= i < |a| && SameRegister(a[i], s);
    assert a[i] in b;
    var j :| 0 <= j < |b| && b[j] == a[i];
    assert SameRegister(b[j], s);
  }

  method SortAndUnique(settings: seq<Setting>) returns (sorted: seq<Setting>)
    ensures IsSorted(sorted, settings)
  {
    sorted := [];
    for i := 0 to |settings|
      invariant IsSorted(sorted, settings[..i])
    {
      var next := Insert(sorted, settings[i]);
      assert settings[..i + 1] == settings[..i] + [settings[i]];
      forall s | s in settings[..i + 1] ensures Has(next, s) {
        if s in settings[..i] {
          HasStays(sorted, next, s);
        }
      }
      sorted := next;
    }
    assert settings[..|settings|] == settings;
  }

  // ----- the whole -----

  class Enabler {
    var settings: seq<Setting>
    const maxRegDistance: nat

    constructor (disableEventsInHoles: bool)
      ensures settings == []
      ensures maxRegDistance == if disableEventsInHoles then MIN_REC_SIZE else 1
    {
      settings := [];
      maxRegDistance := if disableEventsInHoles then MIN_REC_SIZE else 1;
    }

    method AddRegister(addr: Address, typ: Octet, priority: Octet)
      modifies this
      ensures settings == old(settings) + [Setting(typ, addr, priority)]
    {
      settings := settings + [Setting(typ, addr, priority)];
    }

    /**
     Makes all registers known to a device. With a device that answers every request, a visitor gets the state of every
     register exactly once and in order, and of nothing else but the holes between them. Otherwise it gets what comes of
     the answers up to the first failure.
     */
    method SendRequests(device: seq<int> -> seq<Byte>, ghost on: States)
      returns (outcome: Outcome, visits: seq<Visit>, pdus: seq<seq<int>>, ghost asked: seq<Setting>,
               ghost cuts: seq<nat>)
      requires 1 <= maxRegDistance <= MIN_REC_SIZE
      requires forall pdu :: HasAnnouncedData(device(pdu))
      modifies this
      ensures IsSorted(settings, old(settings))
      ensures AreCuts(cuts, |settings|) && ArePackets(settings, cuts, pdus, maxRegDistance)
      ensures AreFull(pdus) && forall pdu | pdu in pdus :: |pdu| <= 130 && ParseRequest(pdu).Some?
      ensures (outcome, visits) == Answers(settings, cuts, maxRegDistance, device)
      ensures AllWereAnswered(settings, cuts, maxRegDistance, device)
      ensures asked == AskedInAll(settings, cuts, maxRegDistance)
      ensures outcome == Done ==>
        cuts[|cuts| - 1] == |settings| && Covers(asked, settings, |settings|, maxRegDistance)
      ensures IsDevice(device, on) ==> outcome == Done && visits == EventsEnabler.Seen(asked, on)
    {
      settings := SortAndUnique(settings);
      outcome, visits, cuts, pdus := SendInOrder(settings, maxRegDistance, device);
      PacketsCover(settings, cuts, maxRegDistance);
      PacketsAreShort(settings, cuts, pdus, maxRegDistance);
      if IsDevice(device, on) {
        AnswersAreSeen(settings, cuts, pdus, maxRegDistance, device, on);
      }
      asked := AskedInAll(settings, cuts, maxRegDistance);
    }
  }
}
