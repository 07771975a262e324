/** What a request to enable events means to the device that gets it. */
module EventsRequestLaws {
  import opened Common
  import opened EventsRequest

  // ----- reading a request back -----

  predicate AreOctets(bytes: seq<int>) {
    forall i | 0 <= i < |bytes| :: 0 <= bytes[i] < 0x100
  }

  /** The records in the data of a request. */
  function ParseRecords(data: seq<int>): Option<seq<Record>>
    requires AreOctets(data)
  {
    if data == [] then Some([])
    else if |data| < 4 || |data| < 4 + data[3] then None
    else
      var n := 4 + data[3];
      var r := Record(data[0], data[1] * 0x100 + data[2], data[4..n]);
      match ParseRecords(data[n..])
      case None => None
      case Some(rest) => Some([r] + rest)
  }

  /** The records of a request, the way a device reads them. */
  function ParseRequest(pdu: seq<int>): Option<seq<Record>> {
    if AreOctets(pdu) && |pdu| >= 3 && pdu[..DATA_SIZE_POS] == COMMAND && pdu[DATA_SIZE_POS] == |pdu| - DATA_POS
    then ParseRecords(pdu[DATA_POS..])
    else None
  }

  predicate FitCounts(rs: seq<Record>) {
    forall i | 0 <= i < |rs| :: |rs[i].priorities| < 0x100
  }

  lemma {:induction false} EncodedFirst(r: Record, rs: seq<Record>)
    ensures EncodedAll([r] + rs) == Encoded(r) + EncodedAll(rs)
  {
    if rs == [] {
      EncodedLast([], r);
      assert [r] + rs == [] + [r];
    } else {
      var front, last := rs[..|rs| - 1], rs[|rs| - 1];
      EncodedFirst(r, front);
      EncodedLast([r] + front, last);
      EncodedLast(front, last);
      assert [r] + rs == ([r] + front) + [last];
      assert rs == front + [last];
    }
  }

  lemma EncodedRecord(r: Record, rest: seq<int>)
    requires |r.priorities| < 0x100 && AreOctets(rest)
    ensures var data := Encoded(r) + rest;
      && AreOctets(data)
      && |data| >= 4 && data[3] == |r.priorities|
      && data[0] == r.typ && data[1] * 0x100 + data[2] == r.start
      && data[4..4 + data[3]] == r.priorities && data[4 + data[3]..] == rest
  {
  }

  lemma {:induction false} ParseFirst(r: Record, rest: seq<int>, rs: seq<Record>)
    requires |r.priorities| < 0x100 && AreOctets(rest) && ParseRecords(rest) == Some(rs)
    ensures AreOctets(Encoded(r) + rest) && ParseRecords(Encoded(r) + rest) == Some([r] + rs)
  {
    EncodedRecord(r, rest);
  }

  /** Reading undoes writing. */
  lemma {:induction false} ParseEncoded(rs: seq<Record>)
    requires FitCounts(rs)
    ensures AreOctets(EncodedAll(rs)) && ParseRecords(EncodedAll(rs)) == Some(rs)
  {
    if rs != [] {
      var r, rest := rs[0], rs[1..];
      ParseEncoded(rest);
      EncodedFirst(r, rest);
      assert [r] + rest == rs;
      ParseFirst(r, EncodedAll(rest), rest);
    }
  }

  lemma {:induction false} CountsAreShort(rs: seq<Record>)
    ensures forall i | 0 <= i < |rs| :: |rs[i].priorities| <= |EncodedAll(rs)|
  {
    if rs != [] {
      var front, last := rs[..|rs| - 1], rs[|rs| - 1];
      CountsAreShort(front);
      EncodedLast(front, last);
      assert rs == front + [last];
    }
  }

  /** The device reads from a request exactly the records that were packed into it. */
  lemma RequestIsRead(rs: seq<Record>)
    requires |Request(rs)| < 0x100
    ensures ParseRequest(Request(rs)) == Some(rs)
  {
    CountsAreShort(rs);
    ParseEncoded(rs);
    var pdu := Request(rs);
    assert pdu[DATA_POS..] == EncodedAll(rs);
  }

  // ----- what is asked for -----

  /** The addresses of a run of one type, each with its priority. */
  function Run(typ: Octet, start: nat, priorities: seq<Octet>): (r: seq<Setting>)
    requires start + |priorities| <= 0x1_0000
    ensures |r| == |priorities|
    ensures forall i | 0 <= i < |r| :: r[i] == Setting(typ, start + i, priorities[i])
  {
    seq(|priorities|, i requires 0 <= i < |priorities| => Setting(typ, start + i, priorities[i]))
  }

  ghost predicate FitAddresses(rs: seq<Record>) {
    forall i | 0 <= i < |rs| :: rs[i].End() <= 0x1_0000
  }

  /** All addresses that records ask for, in the order of the records. */
  function Asked(rs: seq<Record>): seq<Setting>
    requires FitAddresses(rs)
  {
    if rs == [] then []
    else
      var r := rs[|rs| - 1];
      Asked(rs[..|rs| - 1]) + Run(r.typ, r.start, r.priorities)
  }

  /** The registers, and the disabled addresses between two of them that are too near to each other for two records. */
  function Filled(settings: seq<Setting>, maxRegDistance: nat): seq<Setting>
    requires IsOrdered(settings)
  {
    if settings == [] then []
    else
      var n := |settings| - 1;
      var s := settings[n];
      Filled(settings[..n], maxRegDistance)
      + (if n == 0 || StartsRecord(settings[n - 1], s, maxRegDistance) then [] else Holes(settings[n - 1], s))
      + [s]
  }

  function Holes(a: Setting, b: Setting): seq<Setting> {
    if a.addr < b.addr then Run(b.typ, a.addr + 1, Disabled(b.addr - a.addr - 1)) else []
  }

  lemma {:induction false} AskedNext(rs: seq<Record>, r: Record)
    requires FitAddresses(rs) && r.End() <= 0x1_0000
    ensures FitAddresses(rs + [r])
    ensures Asked(rs + [r]) == Asked(rs) + Run(r.typ, r.start, r.priorities)
  {
    assert (rs + [r])[..|rs|] == rs;
  }

  lemma RunExtended(r: Record, a: Setting, b: Setting)
    requires r.typ == a.typ == b.typ && r.End() == a.addr + 1 <= b.addr
    ensures var longer := Extended(r, b);
      && longer.End() == b.addr + 1
      && Run(r.typ, r.start, longer.priorities) == Run(r.typ, r.start, r.priorities) + Holes(a, b) + [b]
  {
  }

  lemma AskedExtended(rs: seq<Record>, a: Setting, b: Setting)
    requires FitAddresses(rs) && rs != []
    requires rs[|rs| - 1].typ == a.typ == b.typ && rs[|rs| - 1].End() == a.addr + 1 <= b.addr
    ensures var longer := Front(rs) + [Extended(rs[|rs| - 1], b)];
      FitAddresses(longer) && Asked(longer) == Asked(rs) + Holes(a, b) + [b]
  {
    var front, r := Front(rs), rs[|rs| - 1];
    assert rs == front + [r];
    AskedNext(front, r);
    RunExtended(r, a, b);
    AskedNext(front, Extended(r, b));
    Regroup(Asked(front), Run(r.typ, r.start, r.priorities), Holes(a, b), [b]);
  }

  lemma Regroup<T>(a: seq<T>, b: seq<T>, c: seq<T>, d: seq<T>)
    ensures a + (b + c + d) == a + b + c + d
  {
  }

  /** The records ask for exactly the registers and the holes between them. */
  lemma {:induction false} RecordsAskFilled(settings: seq<Setting>, maxRegDistance: nat)
    requires IsOrdered(settings)
    ensures FitAddresses(Records(settings, maxRegDistance))
    ensures Asked(Records(settings, maxRegDistance)) == Filled(settings, maxRegDistance)
  {
    if settings != [] {
      var n := |settings| - 1;
      assert settings[..n] + [settings[n]] == settings;
      RecordsAskFilled(settings[..n], maxRegDistance);
      AskFilledNext(settings[..n], settings[n], maxRegDistance);
    }
  }

  lemma {:induction false} AskFilledNext(part: seq<Setting>, s: Setting, maxRegDistance: nat)
    requires IsOrdered(part) && IsOrdered(part + [s])
    requires FitAddresses(Records(part, maxRegDistance))
    requires Asked(Records(part, maxRegDistance)) == Filled(part, maxRegDistance)
    ensures FitAddresses(Records(part + [s], maxRegDistance))
    ensures Asked(Records(part + [s], maxRegDistance)) == Filled(part + [s], maxRegDistance)
  {
    RecordsNext(part, s, maxRegDistance);
    FilledNext(part, s, maxRegDistance);
    var rs := Records(part, maxRegDistance);
    if part == [] || StartsRecord(part[|part| - 1], s, maxRegDistance) {
      AskedNext(rs, Record(s.typ, s.addr, [s.priority]));
    } else {
      AskedExtended(rs, part[|part| - 1], s);
    }
  }

  lemma {:induction false} FilledNext(part: seq<Setting>, s: Setting, maxRegDistance: nat)
    requires IsOrdered(part) && IsOrdered(part + [s])
    ensures Filled(part + [s], maxRegDistance) == Filled(part, maxRegDistance)
      + (if part == [] || StartsRecord(part[|part| - 1], s, maxRegDistance) then [] else Holes(part[|part| - 1], s))
      + [s]
  {
    assert (part + [s])[..|part|] == part;
  }

  ghost predicate IsHole(settings: seq<Setting>, maxRegDistance: nat, hole: Setting) {
    && hole.priority == 0
    && exists i | 0 < i < |settings| :: IsBetween(settings[i - 1], hole, settings[i], maxRegDistance)
  }

  predicate IsBetween(a: Setting, hole: Setting, b: Setting, maxRegDistance: nat) {
    && a.typ == hole.typ == b.typ
    && a.addr < hole.addr < b.addr <= a.addr + maxRegDistance
  }

  lemma HolesAreHoles(settings: seq<Setting>, n: nat, maxRegDistance: nat)
    requires 0 < n < |settings| && !StartsRecord(settings[n - 1], settings[n], maxRegDistance)
    ensures forall f | f in Holes(settings[n - 1], settings[n]) :: IsHole(settings, maxRegDistance, f)
  {
    forall f | f in Holes(settings[n - 1], settings[n]) ensures IsHole(settings, maxRegDistance, f) {
      assert IsBetween(settings[n - 1], f, settings[n], maxRegDistance);
    }
  }

  lemma HoleStaysWithNext(settings: seq<Setting>, n: nat, maxRegDistance: nat, hole: Setting)
    requires n <= |settings| && IsHole(settings[..n], maxRegDistance, hole)
    ensures IsHole(settings, maxRegDistance, hole)
  {
    var i :| 0 < i < n && IsBetween(settings[..n][i - 1], hole, settings[..n][i], maxRegDistance);
    assert IsBetween(settings[i - 1], hole, settings[i], maxRegDistance);
  }

  lemma HolesAreOrdered(a: Setting, b: Setting, holes: seq<Setting>)
    requires Precedes(a, b) && (holes == [] || (a.typ == b.typ && holes == Holes(a, b)))
    ensures IsOrdered(holes + [b]) && Precedes(a, (holes + [b])[0])
  {
  }

  /** All that is asked for is in order, and begins and ends with a register. */
  lemma {:induction false} FilledIsOrdered(settings: seq<Setting>, maxRegDistance: nat)
    requires IsOrdered(settings)
    ensures var filled := Filled(settings, maxRegDistance);
      && IsOrdered(filled)
      && (settings != [] ==>
            filled != [] && filled[0] == settings[0] && filled[|filled| - 1] == settings[|settings| - 1])
  {
    if |settings| > 1 {
      var n := |settings| - 1;
      var front, last, s := Filled(settings[..n], maxRegDistance), settings[n - 1], settings[n];
      FilledIsOrdered(settings[..n], maxRegDistance);
      assert Precedes(last, s);
      var more := if StartsRecord(last, s, maxRegDistance) then [] else Holes(last, s);
      HolesAreOrdered(last, s, more);
      OrderedJoined(front, more + [s]);
      assert Filled(settings, maxRegDistance) == front + (more + [s]);
    }
  }

  lemma HoleIsFilled(a: Setting, hole: Setting, b: Setting, maxRegDistance: nat)
    requires IsBetween(a, hole, b, maxRegDistance) && hole.priority == DISABLE
    ensures !StartsRecord(a, b, maxRegDistance) && hole in Holes(a, b)
  {
    assert Holes(a, b)[hole.addr - a.addr - 1] == hole;
  }

  lemma {:induction false} HolesAreFilled(settings: seq<Setting>, maxRegDistance: nat, hole: Setting)
    requires IsOrdered(settings) && IsHole(settings, maxRegDistance, hole)
    ensures hole in Filled(settings, maxRegDistance)
  {
    var n := |settings| - 1;
    var i :| 0 < i < |settings| && IsBetween(settings[i - 1], hole, settings[i], maxRegDistance);
    if i < n {
      HoleIsEarlier(settings, i, maxRegDistance, hole);
      HolesAreFilled(settings[..n], maxRegDistance, hole);
      FilledGrows(settings, maxRegDistance, hole);
    } else {
      HoleIsFilled(settings[n - 1], hole, settings[n], maxRegDistance);
      FilledLast(settings, maxRegDistance);
    }
  }

  lemma HoleIsEarlier(settings: seq<Setting>, i: nat, maxRegDistance: nat, hole: Setting)
    requires 0 < i < |settings| - 1 && hole.priority == DISABLE
    requires IsBetween(settings[i - 1], hole, settings[i], maxRegDistance)
    ensures IsHole(settings[..|settings| - 1], maxRegDistance, hole)
  {
    var front := settings[..|settings| - 1];
    assert IsBetween(front[i - 1], hole, front[i], maxRegDistance);
  }

  lemma {:induction false} FilledGrows(settings: seq<Setting>, maxRegDistance: nat, a: Setting)
    requires IsOrdered(settings) && settings != [] && a in Filled(settings[..|settings| - 1], maxRegDistance)
    ensures a in Filled(settings, maxRegDistance)
  {
  }

  lemma {:induction false} FilledLast(settings: seq<Setting>, maxRegDistance: nat)
    requires IsOrdered(settings) && |settings| > 1
    ensures var n := |settings| - 1;
      !StartsRecord(settings[n - 1], settings[n], maxRegDistance) ==>
        forall hole | hole in Holes(settings[n - 1], settings[n]) :: hole in Filled(settings, maxRegDistance)
  {
  }

  /**
   What is asked for is every register, with its own priority, and every hole between two registers that are near
   to each other, which is disabled; and nothing else.
   */
  lemma {:induction false} FilledCovers(settings: seq<Setting>, maxRegDistance: nat)
    requires IsOrdered(settings)
    ensures forall f :: f in Filled(settings, maxRegDistance) <==> f in settings || IsHole(settings, maxRegDistance, f)
  {
    FilledHasAll(settings, maxRegDistance);
    forall f | IsHole(settings, maxRegDistance, f) ensures f in Filled(settings, maxRegDistance) {
      HolesAreFilled(settings, maxRegDistance, f);
    }
  }

  lemma {:induction false} FilledHasAll(settings: seq<Setting>, maxRegDistance: nat)
    requires IsOrdered(settings)
    ensures var filled := Filled(settings, maxRegDistance);
      && (forall s | s in settings :: s in filled)
      && (forall f | f in filled :: f in settings || IsHole(settings, maxRegDistance, f))
  {
    if settings != [] {
      var n := |settings| - 1;
      FilledHasAll(settings[..n], maxRegDistance);
      assert settings == settings[..n] + [settings[n]];
      if n > 0 && !StartsRecord(settings[n - 1], settings[n], maxRegDistance) {
        HolesAreHoles(settings, n, maxRegDistance);
      }
      forall f | f in Filled(settings, maxRegDistance) ensures f in settings || IsHole(settings, maxRegDistance, f) {
        if f in Filled(settings[..n], maxRegDistance) && IsHole(settings[..n], maxRegDistance, f) {
          HoleStaysWithNext(settings, n, maxRegDistance, f);
        }
      }
    }
  }

  /** Without holes between registers to be filled, the request asks for the registers only. */
  lemma {:induction false} NoHoles(settings: seq<Setting>)
    requires IsOrdered(settings)
    ensures Filled(settings, 1) == settings
  {
    if settings != [] {
      var n := |settings| - 1;
      NoHoles(settings[..n]);
      assert settings[..n] + [settings[n]] == settings;
    }
  }
}
