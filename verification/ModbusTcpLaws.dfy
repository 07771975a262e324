/** Matching by 16-bit ids in a byte stream is matching of whole responses by unbounded request numbers. */
module ModbusTcpLaws {
  import opened Common
  import opened ModbusTcp

  // ----- frames in the stream -----

  /** The device reads the request that was sent. */
  lemma RequestIsRead(f: Frame)
    requires IsSendable(f)
    ensures var bytes := Encoded(f);
      && WordOf(bytes[0], bytes[1]) == f.id && WordOf(bytes[2], bytes[3]) == 0
      && LengthFromMbap(bytes) == |f.pdu| + 1 && bytes[6] == f.unit && bytes[MBAP_SIZE..] == f.pdu
  {
  }

  ghost predicate AreSendable(fs: seq<Frame>) {
    forall i | 0 <= i < |fs| :: IsSendable(fs[i])
  }

  /** What reading one frame of a stream comes to, by the frame alone. */
  function ReadFirst(f: Frame, r: Reader, wait: Wait): Progress {
    if wait.header == 0 then Ended(Timeout)
    else if wait.header < MBAP_SIZE then Ended(CutHeader)
    else if wait.body == 0 && f.pdu != [] then Ended(NoBody)
    else if wait.body < |f.pdu| then Ended(CutBody)
    else if f.id != r.id then Skipped
    else Ended(if r.matchUnit && f.unit != r.unit then UnitMismatch(f) else Received(f))
  }

  predicate IsCut(o: Outcome) {
    o in {CutHeader, NoBody, CutBody}
  }

  /** A whole frame is taken from the stream, or nothing, or it is cut. */
  lemma FirstIsRead(f: Frame, later: seq<Octet>, r: Reader, wait: Wait)
    requires IsSendable(f)
    ensures var (progress, rest) := ReadOne(Encoded(f) + later, r, wait);
      && progress == ReadFirst(f, r, wait)
      && (progress == Skipped ==> rest == later)
      && (progress.Ended? && (progress.outcome.Received? || progress.outcome.UnitMismatch?) ==> rest == later)
      && (progress == Ended(Timeout) ==> rest == Encoded(f) + later)
      && (progress.Ended? && IsCut(progress.outcome) ==> |later| < |rest| < |Encoded(f) + later|)
  {
    RequestIsRead(f);
    var incoming := Encoded(f) + later;
    StreamParts(Encoded(f), f.pdu, later);
    if wait.header >= MBAP_SIZE {
      assert Taken(incoming, MBAP_SIZE, wait.header) == MBAP_SIZE;
      HeaderIsFirst(f, later);
    }
  }

  lemma StreamParts(frame: seq<Octet>, pdu: seq<Octet>, later: seq<Octet>)
    requires |frame| == MBAP_SIZE + |pdu| && frame[MBAP_SIZE..] == pdu
    ensures (frame + later)[..MBAP_SIZE] == frame[..MBAP_SIZE]
    ensures (frame + later)[MBAP_SIZE..] == pdu + later
    ensures (pdu + later)[..|pdu|] == pdu && (pdu + later)[|pdu|..] == later
  {
  }

  lemma HeaderIsFirst(f: Frame, later: seq<Octet>)
    requires IsSendable(f)
    ensures var header := (Encoded(f) + later)[..MBAP_SIZE];
      LengthFromMbap(header) == |f.pdu| + 1 && WordOf(header[0], header[1]) == f.id && header[6] == f.unit
  {
  }

  lemma EmptyIsTimeout(r: Reader, wait: Wait)
    ensures ReadOne([], r, wait) == (Ended(Timeout), [])
  {
  }

  // ----- frame boundaries -----

  lemma {:induction false} LaterIsShorter(fs: seq<Frame>, i: nat, j: nat)
    requires i < j <= |fs|
    ensures |EncodedAll(fs[j..])| < |EncodedAll(fs[i..])|
    decreases j - i
  {
    assert fs[i..][1..] == fs[i + 1..];
    if i + 1 < j {
      LaterIsShorter(fs, i + 1, j);
    }
  }

  /**
   Where reading stops in a stream of frames: how many of them are used up, or which one is cut. All used frames have
   other ids, but for the last one if it is returned.
   */
  ghost predicate StopsAfter(fs: seq<Frame>, r: Reader, used: nat, outcome: Outcome, rest: seq<Octet>) {
    && used <= |fs|
    && (forall i | 0 <= i < used - 1 :: fs[i].id != r.id)
    && match outcome
       case Received(f) => used > 0 && IsReturned(fs[used - 1], r, f, false) && rest == EncodedAll(fs[used..])
       case UnitMismatch(f) => used > 0 && IsReturned(fs[used - 1], r, f, true) && rest == EncodedAll(fs[used..])
       case Timeout => (used > 0 ==> fs[used - 1].id != r.id) && rest == EncodedAll(fs[used..])
       case ZeroLength => false
       case _ =>
         && (used > 0 ==> fs[used - 1].id != r.id)
         && used < |fs| && |EncodedAll(fs[used + 1..])| < |rest| < |EncodedAll(fs[used..])|
  }

  predicate IsReturned(f: Frame, r: Reader, returned: Frame, mismatch: bool) {
    f == returned && f.id == r.id && mismatch == (r.matchUnit && f.unit != r.unit)
  }

  lemma StopsAfterSkipped(fs: seq<Frame>, r: Reader, used: nat, outcome: Outcome, rest: seq<Octet>)
    requires fs != [] && fs[0].id != r.id && StopsAfter(fs[1..], r, used, outcome, rest)
    ensures StopsAfter(fs, r, used + 1, outcome, rest)
  {
  }

  lemma {:induction false} StopsAtFirst(f: Frame, later: seq<Frame>, r: Reader, wait: Wait)
    requires IsSendable(f) && ReadFirst(f, r, wait) != Skipped
    ensures var (progress, rest) := ReadOne(EncodedAll([f] + later), r, wait);
      progress.Ended? && exists used :: StopsAfter([f] + later, r, used, progress.outcome, rest)
  {
    var fs := [f] + later;
    assert fs[1..] == later && fs[0..] == fs;
    FirstIsRead(f, EncodedAll(later), r, wait);
    var (progress, rest) := ReadOne(EncodedAll(fs), r, wait);
    var o := progress.outcome;
    assert StopsAfter(fs, r, if o.Received? || o.UnitMismatch? then 1 else 0, o, rest);
  }

  lemma {:induction false} WhereReadingStops(fs: seq<Frame>, r: Reader, waits: seq<Wait>) returns (used: nat)
    requires AreSendable(fs)
    ensures var (outcome, rest) := Reading(EncodedAll(fs), r, waits);
      StopsAfter(fs, r, used, outcome, rest)
    decreases |waits|
  {
    assert fs[0..] == fs;
    if waits == [] {
      used := 0;
    } else if fs == [] {
      EmptyIsTimeout(r, waits[0]);
      used := 0;
    } else {
      var f, later := fs[0], fs[1..];
      assert fs == [f] + later;
      if ReadFirst(f, r, waits[0]) == Skipped {
        FirstIsRead(f, EncodedAll(later), r, waits[0]);
        var n := WhereReadingStops(later, r, waits[1..]);
        var (outcome, rest) := Reading(EncodedAll(later), r, waits[1..]);
        StopsAfterSkipped(fs, r, n, outcome, rest);
        used := n + 1;
      } else {
        StopsAtFirst(f, later, r, waits[0]);
        var (progress, rest) := ReadOne(EncodedAll(fs), r, waits[0]);
        used :| StopsAfter(fs, r, used, progress.outcome, rest);
      }
    }
  }

  ghost predicate IsOnBoundary(fs: seq<Frame>, rest: seq<Octet>) {
    exists i :: 0 <= i <= |fs| && rest == EncodedAll(fs[i..])
  }

  /** The stream is left between two frames exactly if no frame was cut. */
  lemma {:induction false} BoundaryIsKept(fs: seq<Frame>, r: Reader, waits: seq<Wait>)
    requires AreSendable(fs)
    ensures var (outcome, rest) := Reading(EncodedAll(fs), r, waits);
      IsOnBoundary(fs, rest) <==> !IsCut(outcome)
  {
    var used := WhereReadingStops(fs, r, waits);
    var (outcome, rest) := Reading(EncodedAll(fs), r, waits);
    StopsOnBoundary(fs, r, used, outcome, rest);
  }

  lemma StopsOnBoundary(fs: seq<Frame>, r: Reader, used: nat, outcome: Outcome, rest: seq<Octet>)
    requires StopsAfter(fs, r, used, outcome, rest)
    ensures IsOnBoundary(fs, rest) <==> !IsCut(outcome)
  {
    if IsCut(outcome) {
      forall i | 0 <= i <= |fs| ensures rest != EncodedAll(fs[i..]) {
        InsideIsNoBoundary(fs, used, |rest|, i);
      }
    } else {
      assert rest == EncodedAll(fs[used..]);
    }
  }

  lemma InsideIsNoBoundary(fs: seq<Frame>, used: nat, n: nat, i: nat)
    requires used < |fs| && |EncodedAll(fs[used + 1..])| < n < |EncodedAll(fs[used..])| && i <= |fs|
    ensures n != |EncodedAll(fs[i..])|
  {
    if i < used {
      LaterIsShorter(fs, i, used);
    } else if i > used + 1 {
      LaterIsShorter(fs, used + 1, i);
    }
  }

  // ----- responses -----

  /** A response to a request, which is known by its number since the last reset of ids. */
  datatype Response = Response(to: nat, unit: Octet, pdu: seq<Octet>)

  function FrameOf(r: Response): Frame {
    Frame(IdOf(r.to), r.unit, r.pdu)
  }

  function FramesOf(rs: seq<Response>): (fs: seq<Frame>)
    ensures |fs| == |rs| && forall i | 0 <= i < |rs| :: fs[i] == FrameOf(rs[i])
  {
    seq(|rs|, i requires 0 <= i < |rs| => FrameOf(rs[i]))
  }

  function Bytes(rs: seq<Response>): seq<Octet> {
    EncodedAll(FramesOf(rs))
  }

  ghost predicate AreGood(rs: seq<Response>) {
    forall i | 0 <= i < |rs| :: |rs[i].pdu| + 1 < ID_COUNT
  }

  /** No response is to a request that is too old, when the n-th one is sent. */
  ghost predicate AreRecent(rs: seq<Response>, n: nat) {
    forall i | 0 <= i < |rs| :: n - ID_COUNT < rs[i].to <= n
  }

  /** A response to an earlier request is taken for the answer exactly if a multiple of 65536 requests lies between. */
  lemma IdsTellApart(to: nat, n: nat)
    requires to <= n
    ensures IdOf(to) == IdOf(n) <==> (n - to) % ID_COUNT == 0
    ensures n - ID_COUNT < to ==> (IdOf(to) == IdOf(n) <==> to == n)
  {
  }

  /** The reference: whole responses are matched by the number of their request. */
  function Matching(rs: seq<Response>, n: nat, unit: Octet, matchUnit: bool, waits: seq<Wait>): (Outcome, seq<Response>)
    decreases |waits|
  {
    if waits == [] || rs == [] || waits[0].header == 0 then (Timeout, rs)
    else
      var r, wait := rs[0], waits[0];
      if wait.header < MBAP_SIZE then (CutHeader, rs)
      else if wait.body == 0 && r.pdu != [] then (NoBody, rs)
      else if wait.body < |r.pdu| then (CutBody, rs)
      else if r.to != n then Matching(rs[1..], n, unit, matchUnit, waits[1..])
      else (if matchUnit && r.unit != unit then UnitMismatch(FrameOf(r)) else Received(FrameOf(r)), rs[1..])
  }

  lemma BytesFirst(rs: seq<Response>)
    requires rs != []
    ensures Bytes(rs) == Encoded(FrameOf(rs[0])) + Bytes(rs[1..])
  {
    assert FramesOf(rs)[1..] == FramesOf(rs[1..]);
  }

  lemma {:induction false} EncodedJoined(a: seq<Frame>, b: seq<Frame>)
    ensures EncodedAll(a + b) == EncodedAll(a) + EncodedAll(b)
  {
    if a == [] {
      assert a + b == b;
    } else {
      EncodedJoined(a[1..], b);
      assert (a + b)[1..] == a[1..] + b;
    }
  }

  lemma BytesJoined(a: seq<Response>, b: seq<Response>)
    ensures Bytes(a + b) == Bytes(a) + Bytes(b)
  {
    EncodedJoined(FramesOf(a), FramesOf(b));
    assert FramesOf(a + b) == FramesOf(a) + FramesOf(b);
  }

  /** Reading bytes by id does what matching responses by number does. */
  lemma {:induction false} ReadingIsMatching(rs: seq<Response>, n: nat, unit: Octet, matchUnit: bool, waits: seq<Wait>)
    requires AreGood(rs) && AreRecent(rs, n)
    ensures var (outcome, rest) := Reading(Bytes(rs), Reader(IdOf(n), unit, matchUnit), waits);
      var (o, later) := Matching(rs, n, unit, matchUnit, waits);
      outcome == o && (!IsCut(o) ==> rest == Bytes(later))
    decreases |waits|
  {
    if waits != [] {
      var r := Reader(IdOf(n), unit, matchUnit);
      if rs == [] {
        EmptyIsTimeout(r, waits[0]);
      } else {
        BytesFirst(rs);
        FirstIsRead(FrameOf(rs[0]), Bytes(rs[1..]), r, waits[0]);
        IdsTellApart(rs[0].to, n);
        ReadingIsMatching(rs[1..], n, unit, matchUnit, waits[1..]);
      }
    }
  }

  // ----- runs -----

  /** Responses that come while a request waits for its own. */
  datatype Exchange = Exchange(arrivals: seq<Response>, unit: Octet, matchUnit: bool, waits: seq<Wait>)

  /** What transactions come to, one after another, until a frame is cut. */
  function ByteRun(last: Option<Id>, incoming: seq<Octet>, es: seq<Exchange>): seq<Outcome>
    decreases |es|
  {
    if es == [] then []
    else
      var e, id := es[0], NextId(last);
      var (outcome, rest) := Reading(incoming + Bytes(e.arrivals), Reader(id, e.unit, e.matchUnit), e.waits);
      [outcome] + if IsCut(outcome) then [] else ByteRun(Some(id), rest, es[1..])
  }

  function NumberedRun(n: nat, unread: seq<Response>, es: seq<Exchange>): seq<Outcome>
    decreases |es|
  {
    if es == [] then []
    else
      var e := es[0];
      var (outcome, rest) := Matching(unread + e.arrivals, n + 1, e.unit, e.matchUnit, e.waits);
      [outcome] + if IsCut(outcome) then [] else NumberedRun(n + 1, rest, es[1..])
  }

  /** During the run no response to a request of 65536 or more ids ago is still to be read. */
  ghost predicate NoneIsTooOld(n: nat, unread: seq<Response>, es: seq<Exchange>)
    decreases |es|
  {
    es == [] ||
    var e := es[0];
    var (outcome, rest) := Matching(unread + e.arrivals, n + 1, e.unit, e.matchUnit, e.waits);
    && AreGood(unread + e.arrivals) && AreRecent(unread + e.arrivals, n + 1)
    && (!IsCut(outcome) ==> NoneIsTooOld(n + 1, rest, es[1..]))
  }

  lemma NextIdIsNumber(n: nat)
    ensures NextId(LastId(n)) == IdOf(n + 1) && LastId(n + 1) == Some(IdOf(n + 1))
  {
  }

  /** Over a whole run, however many ids have been used, bytes and 16-bit ids do what responses and numbers do. */
  lemma {:induction false} RunsAgree(n: nat, unread: seq<Response>, es: seq<Exchange>)
    requires NoneIsTooOld(n, unread, es)
    ensures ByteRun(LastId(n), Bytes(unread), es) == NumberedRun(n, unread, es)
    decreases |es|
  {
    if es != [] {
      var e := es[0];
      NextIdIsNumber(n);
      BytesJoined(unread, e.arrivals);
      ReadingIsMatching(unread + e.arrivals, n + 1, e.unit, e.matchUnit, e.waits);
      var (outcome, rest) := Matching(unread + e.arrivals, n + 1, e.unit, e.matchUnit, e.waits);
      if !IsCut(outcome) {
        RunsAgree(n + 1, rest, es[1..]);
      }
    }
  }

  predicate IsAnswer(r: Response, n: nat, f: Frame) {
    r.to == n && FrameOf(r) == f
  }

  ghost predicate HasAnswer(rs: seq<Response>, n: nat, f: Frame) {
    exists r | r in rs :: IsAnswer(r, n, f)
  }

  lemma {:induction false} MatchedIsOwn(rs: seq<Response>, n: nat, unit: Octet, matchUnit: bool, waits: seq<Wait>)
    ensures var (outcome, later) := Matching(rs, n, unit, matchUnit, waits);
      && (forall r | r in later :: r in rs)
      && (outcome.Received? ==> HasAnswer(rs, n, outcome.frame) && (matchUnit ==> outcome.frame.unit == unit))
    decreases |waits|
  {
    if waits != [] && rs != [] {
      if rs[0].to == n {
        assert IsAnswer(rs[0], n, FrameOf(rs[0]));
      } else {
        MatchedIsOwn(rs[1..], n, unit, matchUnit, waits[1..]);
      }
    }
  }

  /** All responses that have come up to an exchange. */
  function Come(unread: seq<Response>, es: seq<Exchange>, n: nat): seq<Response>
    requires n <= |es|
  {
    if n == 0 then unread else Come(unread, es, n - 1) + es[n - 1].arrivals
  }

  lemma {:induction false} ComeLater(unread: seq<Response>, rest: seq<Response>, es: seq<Exchange>, n: nat, r: Response)
    requires 0 < n <= |es| && r in Come(rest, es[1..], n - 1)
    requires forall q | q in rest :: q in unread + es[0].arrivals
    ensures r in Come(unread, es, n)
  {
    if n == 1 {
      assert Come(unread, es, 1) == Come(unread, es, 0) + es[0].arrivals;
    } else {
      assert es[1..][n - 2] == es[n - 1];
      if r in Come(rest, es[1..], n - 2) {
        ComeLater(unread, rest, es, n - 1, r);
      }
    }
  }

  /** Every frame that a transaction of a run returns is a response that has come to the request of that transaction. */
  lemma {:induction false} ReturnedIsOwn(n: nat, unread: seq<Response>, es: seq<Exchange>, i: nat)
    requires NoneIsTooOld(n, unread, es) && i < |es|
    requires i < |NumberedRun(n, unread, es)| && NumberedRun(n, unread, es)[i].Received?
    ensures HasAnswer(Come(unread, es, i + 1), n + 1 + i, NumberedRun(n, unread, es)[i].frame)
    decreases i
  {
    var e := es[0];
    MatchedIsOwn(unread + e.arrivals, n + 1, e.unit, e.matchUnit, e.waits);
    var (outcome, rest) := Matching(unread + e.arrivals, n + 1, e.unit, e.matchUnit, e.waits);
    if i == 0 {
      assert Come(unread, es, 1) == Come(unread, es, 0) + e.arrivals;
    } else {
      ReturnedIsOwn(n + 1, rest, es[1..], i - 1);
      var f := NumberedRun(n, unread, es)[i].frame;
      assert f == NumberedRun(n + 1, rest, es[1..])[i - 1].frame;
      var r :| r in Come(rest, es[1..], i) && IsAnswer(r, n + 1 + i, f);
      ComeLater(unread, rest, es, i + 1, r);
    }
  }

  /** A response that is 65536 ids late is taken for the answer. */
  lemma OldResponseIsTaken(unit: Octet, pdu: seq<Octet>)
    requires |pdu| + 1 < ID_COUNT
    ensures var n, late := ID_COUNT + 1, Response(1, unit, pdu);
      Reading(Bytes([late]), Reader(IdOf(n), unit, true), [Wait(MBAP_SIZE, |pdu|)]).0 == Received(FrameOf(late))
  {
    var r := Response(1, unit, pdu);
    BytesFirst([r]);
    assert [r][1..] == [];
    FirstIsRead(FrameOf(r), Bytes([]), Reader(1, unit, true), Wait(MBAP_SIZE, |pdu|));
  }
}
