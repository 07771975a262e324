/**
 What batching the setup items keeps: the limit on words, the order of the items, and which of
 them are sent at all.
 */
module ModbusSetupLaws {
  import opened Common
  import opened ModbusRead
  import opened ModbusSetup
  import opened ModbusWrite
  import opened Registers
  import opened WordCodec

  // ----- the limit -----

  /** A request is within the limit, or one of its items alone is not. */
  ghost predicate WithinLimit(items: seq<SetupItem>, from: nat, to: nat, maxRegs: nat)
    requires from <= to <= |items|
  {
    var total := TotalWidth(items[from..to]);
    total <= maxRegs || exists j | from <= j < to :: items[j].c.WordWidth() == total
  }

  lemma {:induction false} BatchIsWithinLimit(items: seq<SetupItem>, from: nat, i: nat, maxRegs: nat)
    requires from < i <= |items| && WithinLimit(items, from, i, maxRegs)
    ensures WithinLimit(items, from, BatchEnd(items, i, TotalWidth(items[from..i]), maxRegs), maxRegs)
    decreases |items| - i
  {
    if i < |items| {
      BatchNext(items, from, i);
      var count, width := TotalWidth(items[from..i]), items[i].c.WordWidth();
      if !items[i].c.IsPartial() && Continues(items[i - 1], items[i]) && !(count != 0 && count + width > maxRegs) {
        assert WithinLimit(items, from, i + 1, maxRegs) by {
          if count == 0 {
            assert items[i].c.WordWidth() == TotalWidth(items[from..i + 1]);
          }
        }
        BatchIsWithinLimit(items, from, i + 1, maxRegs);
      }
    }
  }

  /** A request takes neighbours of one type, and none of them is partial. */
  ghost predicate AreNeighbours(items: seq<SetupItem>, from: nat, to: nat)
    requires from < to <= |items|
  {
    forall j | from < j < to :: Continues(items[j - 1], items[j]) && !items[j].c.IsPartial()
  }

  lemma {:induction false} BatchTakesNeighbours(items: seq<SetupItem>, from: nat, i: nat, count: nat, maxRegs: nat)
    requires from < i <= |items| && AreNeighbours(items, from, i)
    ensures AreNeighbours(items, from, BatchEnd(items, i, count, maxRegs))
    decreases |items| - i
  {
    if i < |items| && !items[i].c.IsPartial() && Continues(items[i - 1], items[i])
       && !(count != 0 && count + items[i].c.WordWidth() > maxRegs)
    {
      BatchTakesNeighbours(items, from, i + 1, count + items[i].c.WordWidth(), maxRegs);
    }
  }

  ghost predicate IsProper(items: seq<SetupItem>, maxRegs: nat, r: Request) {
    && r.from < r.to <= |items|
    && if r.batched then
         && WithinLimit(items, r.from, r.to, maxRegs)
         && CanStart(items[r.from], maxRegs) && AreNeighbours(items, r.from, r.to)
       else r.to == r.from + 1 && !CanStart(items[r.from], maxRegs)
  }

  lemma BatchIsProper(items: seq<SetupItem>, from: nat, maxRegs: nat)
    requires from < |items| && CanStart(items[from], maxRegs)
    ensures IsProper(items, maxRegs, Request(from, Batch(items, from, maxRegs).0, true))
  {
    assert items[from..from + 1][..0] == [] && TotalWidth(items[from..from]) == 0;
    assert TotalWidth(items[from..from + 1]) == items[from].c.WordWidth();
    BatchIsWithinLimit(items, from, from + 1, maxRegs);
    BatchTakesNeighbours(items, from, from + 1, items[from].c.WordWidth(), maxRegs);
  }

  /** Requests take items from some place on in their order, none of them twice. */
  ghost predicate AreInOrder(requests: seq<Request>, from: nat) {
    && (forall r | r in requests :: from <= r.from)
    && (forall i | 0 < i < |requests| :: requests[i - 1].to <= requests[i].from)
  }

  lemma InOrderWithFirst(first: Request, rest: seq<Request>)
    requires first.from < first.to && AreInOrder(rest, first.to)
    ensures AreInOrder([first] + rest, first.from)
  {
    var all := [first] + rest;
    forall i | 0 < i < |all| ensures all[i - 1].to <= all[i].from {
      assert all[i] == rest[i - 1] && rest[i - 1] in rest;
      assert i > 1 ==> all[i - 1] == rest[i - 1 - 1];
    }
  }

  ghost predicate AreProper(items: seq<SetupItem>, maxRegs: nat, requests: seq<Request>) {
    forall r {:trigger IsProper(items, maxRegs, r)} | r in requests :: IsProper(items, maxRegs, r)
  }

  lemma ProperWithFirst(items: seq<SetupItem>, maxRegs: nat, first: Request, rest: seq<Request>)
    requires IsProper(items, maxRegs, first) && AreProper(items, maxRegs, rest)
    ensures AreProper(items, maxRegs, [first] + rest)
  {
  }

  /** Every request is within the limits, and requests take the items in their order, none of them twice. */
  lemma {:induction false} RequestsAreProper(items: seq<SetupItem>, from: nat, maxRegs: nat)
    requires from <= |items|
    ensures AreProper(items, maxRegs, Requests(items, from, maxRegs))
    ensures AreInOrder(Requests(items, from, maxRegs), from)
    decreases |items| - from
  {
    if from < |items| {
      var starts := CanStart(items[from], maxRegs);
      var end := if starts then Batch(items, from, maxRegs).0 else from + 1;
      var first, rest := Request(from, end, starts), Requests(items, end, maxRegs);
      RequestsAreProper(items, end, maxRegs);
      if starts {
        BatchIsProper(items, from, maxRegs);
      }
      ProperWithFirst(items, maxRegs, first, rest);
      InOrderWithFirst(first, rest);
    }
  }

  /** The limit as it is configured; a request of several words has at most 123 in any case. */
  lemma {:induction false} ConfiguredLimit(items: seq<SetupItem>, configured: int, r: Request)
    requires r in Requests(items, 0, MaxRegs(configured)) && r.batched
    ensures r.from < r.to <= |items|
    ensures var total := TotalWidth(items[r.from..r.to]);
      || (total <= 123 && (0 < configured ==> total <= configured))
      || exists j | r.from <= j < r.to :: items[j].c.WordWidth() == total
    ensures configured != 1
  {
    RequestsAreProper(items, 0, MaxRegs(configured));
    assert IsProper(items, MaxRegs(configured), r);
  }

  /** The item after a request is partial, no neighbour, or makes it too long. */
  predicate CannotGoOn(items: seq<SetupItem>, from: nat, end: nat, maxRegs: nat)
    requires from < end <= |items|
  {
    end < |items| ==>
      || items[end].c.IsPartial()
      || items[end].c.typ != items[end - 1].c.typ
      || items[end].c.writeAddress != items[end - 1].c.writeAddress + items[end - 1].c.WordWidth()
      || TotalWidth(items[from..end]) + items[end].c.WordWidth() > maxRegs
  }

  lemma {:induction false} BatchGoesOn(items: seq<SetupItem>, from: nat, i: nat, count: nat, maxRegs: nat)
    requires from < i <= |items| && count == TotalWidth(items[from..i])
    ensures CannotGoOn(items, from, BatchEnd(items, i, count, maxRegs), maxRegs)
    decreases |items| - i
  {
    var end := BatchEnd(items, i, count, maxRegs);
    if end > i {
      OneMoreWidth(items, from, i);
      BatchGoesOn(items, from, i + 1, count + items[i].c.WordWidth(), maxRegs);
    }
  }

  lemma OneMoreWidth(items: seq<SetupItem>, from: nat, i: nat)
    requires from <= i < |items|
    ensures TotalWidth(items[from..i + 1]) == TotalWidth(items[from..i]) + items[i].c.WordWidth()
  {
    BatchNext(items, from, i);
  }

  /** A batch goes on as long as the next item is a neighbour, is not partial and fits. */
  lemma BatchIsLongest(items: seq<SetupItem>, from: nat, maxRegs: nat)
    requires from < |items| && CanStart(items[from], maxRegs)
    ensures CannotGoOn(items, from, Batch(items, from, maxRegs).0, maxRegs)
  {
    assert items[from..from + 1][..0] == [] && TotalWidth(items[from..from]) == 0;
    BatchGoesOn(items, from, from + 1, items[from].c.WordWidth(), maxRegs);
  }

  // ----- the end of writing -----

  /**
   Writing goes on after an item that was written, and after one that the device refused unless it is to end then; an item
   that cannot be written at all ends it.
   */
  lemma AloneGoesOn(state: State, item: SetupItem, breakOnError: bool)
    ensures var after, written := SendAlone(state, item, breakOnError), Write(state.mem, state.cache, item.c, item.value);
      && after.mem == written.memory && after.cache == written.cache
      && (written.result == Written ==> after.running)
      && (written.result == Refused ==> (after.running <==> !breakOnError))
      && (written.result != Written && written.result != Refused ==> !after.running)
  {
  }

  /** A batch that has an address which does not exist changes nothing, and ends the writing if it is to; so does none. */
  lemma BatchGoesOnAfter(
      state: State, address: int, data: seq<Byte>, count: nat, tmpCache: Cache, breakOnError: bool)
    requires |data| == 2 * count
    ensures var after := SendBatch(state, address, data, count, tmpCache, breakOnError);
      && (count == 0 ==> after == state.(running := false))
      && (count > 0 && !Exists(state.mem.holding, address, count) ==> after == state.(running := !breakOnError))
      && (count > 0 && Exists(state.mem.holding, address, count) ==> after.running && after.cache == state.cache + tmpCache)
  {
  }

  // ----- what is forgotten -----

  predicate Has(r: Request, i: int) {
    r.from <= i < r.to
  }

  ghost predicate IsSent(requests: seq<Request>, i: int) {
    exists k | 0 <= k < |requests| :: Has(requests[k], i)
  }

  /** An item that can share a request is followed by a partial one. */
  predicate LosesAt(items: seq<SetupItem>, i: nat, maxRegs: nat)
    requires i + 1 < |items|
  {
    CanStart(items[i], maxRegs) && items[i + 1].c.IsPartial()
  }

  ghost predicate NothingIsLost(items: seq<SetupItem>, from: nat, maxRegs: nat) {
    forall i: nat | from <= i && i + 1 < |items| :: !LosesAt(items, i, maxRegs)
  }

  ghost predicate AllSent(requests: seq<Request>, from: nat, to: nat) {
    forall i | from <= i < to :: IsSent(requests, i)
  }

  lemma AllSentWithFirst(first: Request, rest: seq<Request>, to: nat)
    requires first.from < first.to <= to
    requires forall r | r in rest :: first.to <= r.from
    ensures AllSent([first] + rest, first.from, to) <==> AllSent(rest, first.to, to)
  {
    var all := [first] + rest;
    if AllSent(rest, first.to, to) {
      forall i | first.from <= i < to ensures IsSent(all, i) {
        if i < first.to {
          assert Has(all[0], i);
        } else {
          assert IsSent(rest, i);
          var k :| 0 <= k < |rest| && Has(rest[k], i);
          assert Has(all[k + 1], i);
        }
      }
    } else {
      var i :| first.to <= i < to && !IsSent(rest, i);
      forall k | 0 <= k < |all| ensures !Has(all[k], i) {
        if k > 0 {
          assert !Has(rest[k - 1], i);
        }
      }
      assert !IsSent(all, i);
    }
  }

  lemma BatchLoses(items: seq<SetupItem>, from: nat, maxRegs: nat)
    requires from < |items| && CanStart(items[from], maxRegs)
    ensures var (end, forgotten) := Batch(items, from, maxRegs);
      if forgotten then LosesAt(items, end - 1, maxRegs)
      else NothingIsLost(items, from, maxRegs) <==> NothingIsLost(items, end, maxRegs)
  {
    var (end, forgotten) := Batch(items, from, maxRegs);
    BatchIsProper(items, from, maxRegs);
    NeighboursCanStart(items, from, end, maxRegs);
    if !forgotten && NothingIsLost(items, end, maxRegs) {
      forall i: nat | from <= i && i + 1 < |items| ensures !LosesAt(items, i, maxRegs) {
        if i + 1 < end {
          assert Continues(items[i + 1 - 1], items[i + 1]) && !items[i + 1].c.IsPartial();
        }
      }
    }
  }

  lemma {:induction false} NeighboursCanStart(items: seq<SetupItem>, from: nat, to: nat, maxRegs: nat)
    requires from < to <= |items| && CanStart(items[from], maxRegs) && AreNeighbours(items, from, to)
    ensures CanStart(items[to - 1], maxRegs)
  {
    if from + 1 < to {
      NeighboursCanStart(items, from, to - 1, maxRegs);
      assert Continues(items[to - 2], items[to - 1]);
    }
  }

  lemma BeforeAllIsNotSent(requests: seq<Request>, from: nat, end: nat, to: nat)
    requires from < end <= to && forall r | r in requests :: end <= r.from
    ensures !AllSent(requests, from, to)
  {
    assert !IsSent(requests, from);
  }

  lemma {:induction false} ForgottenIsNotSent(items: seq<SetupItem>, from: nat, maxRegs: nat)
    requires from < |items| && CanStart(items[from], maxRegs) && Batch(items, from, maxRegs).1
    ensures !AllSent(Requests(items, from, maxRegs), from, |items|) && !NothingIsLost(items, from, maxRegs)
  {
    var end := Batch(items, from, maxRegs).0;
    BatchLoses(items, from, maxRegs);
    RequestsAreProper(items, end, maxRegs);
    assert LosesAt(items, end - 1, maxRegs);
    assert Requests(items, from, maxRegs) == Requests(items, end, maxRegs);
    BeforeAllIsNotSent(Requests(items, end, maxRegs), from, end, |items|);
  }

  lemma AloneLosesNothing(items: seq<SetupItem>, from: nat, maxRegs: nat)
    requires from < |items| && !CanStart(items[from], maxRegs)
    ensures NothingIsLost(items, from, maxRegs) <==> NothingIsLost(items, from + 1, maxRegs)
  {
  }

  /**
   All items are sent if and only if none that can share a request is directly followed by a partial one:
   then the request is forgotten with all its items.
   */
  lemma {:induction false} AllSentUnlessLost(items: seq<SetupItem>, from: nat, maxRegs: nat)
    requires from <= |items|
    ensures AllSent(Requests(items, from, maxRegs), from, |items|) <==> NothingIsLost(items, from, maxRegs)
    decreases |items| - from
  {
    if from < |items| {
      var starts := CanStart(items[from], maxRegs);
      if starts && Batch(items, from, maxRegs).1 {
        ForgottenIsNotSent(items, from, maxRegs);
      } else {
        var end := if starts then Batch(items, from, maxRegs).0 else from + 1;
        if starts {
          BatchLoses(items, from, maxRegs);
        } else {
          AloneLosesNothing(items, from, maxRegs);
        }
        RequestsAreProper(items, end, maxRegs);
        AllSentUnlessLost(items, end, maxRegs);
        AllSentWithFirst(Request(from, end, starts), Requests(items, end, maxRegs), |items|);
      }
    }
  }

  /** A whole register followed by a part of the next one. */
  function WholeThenPart(): seq<SetupItem> {
    var whole := RegisterConfig(
      Holding, U16, 2, 0, 0, 0, 0, ReadWrite, BigEndianWords, BigEndianBytes, None, None, None, None);
    var part := whole.(address := 1, writeAddress := 1, dataWidth := 4);
    [SetupItem(whole, Number(5)), SetupItem(part, Number(1))]
  }

  /** The whole register is never written, although it could be sent in a request of its own. */
  lemma WholeBeforePartIsLost()
    ensures CanStart(WholeThenPart()[0], MaxRegs(0)) && !CanStart(WholeThenPart()[1], MaxRegs(0))
    ensures Requests(WholeThenPart(), 0, MaxRegs(0)) == [Request(1, 2, false)]
    ensures !IsSent(Requests(WholeThenPart(), 0, MaxRegs(0)), 0)
  {
    var items := WholeThenPart();
    assert Batch(items, 0, MAX_WRITE_REGISTERS) == (1, true);
    assert Requests(items, 2, MAX_WRITE_REGISTERS) == [];
    var requests := Requests(items, 0, MAX_WRITE_REGISTERS);
    assert requests == Requests(items, 1, MAX_WRITE_REGISTERS) == [Request(1, 2, false)];
    assert !Has(requests[0], 0);
  }

  // ----- one request after another -----

  /** Requests are sent until one of them ends the writing. */
  function SendRequests(state: State, items: seq<SetupItem>, requests: seq<Request>, breakOnError: bool): State
    requires AllConsistent(items) && forall r | r in requests :: r.from < r.to <= |items|
    decreases |requests|
  {
    if !state.running || requests == [] then state
    else SendRequests(Send(state, items, requests[0], breakOnError), items, requests[1..], breakOnError)
  }

  /** The device is sent exactly the planned requests, in their order, up to an exception. */
  lemma {:induction false} RequestsAreSent(
      state: State, items: seq<SetupItem>, from: nat, maxRegs: nat, breakOnError: bool)
    requires from <= |items| && AllConsistent(items)
    ensures forall r | r in Requests(items, from, maxRegs) :: r.from < r.to <= |items|
    ensures SendFrom(state, items, from, maxRegs, breakOnError)
         == SendRequests(state, items, Requests(items, from, maxRegs), breakOnError)
    decreases |items| - from
  {
    RequestsAreProper(items, from, maxRegs);
    forall r | r in Requests(items, from, maxRegs) ensures r.from < r.to <= |items| {
      assert IsProper(items, maxRegs, r);
    }
    if state.running && from < |items| {
      var requests := Requests(items, from, maxRegs);
      if CanStart(items[from], maxRegs) {
        var (end, forgotten) := Batch(items, from, maxRegs);
        if forgotten {
          assert requests == Requests(items, end, maxRegs);
          RequestsAreSent(state, items, end, maxRegs, breakOnError);
        } else {
          var first := Request(from, end, true);
          assert requests[0] == first && requests[1..] == Requests(items, end, maxRegs);
          RequestsAreSent(Send(state, items, first, breakOnError), items, end, maxRegs, breakOnError);
        }
      } else {
        var first := Request(from, from + 1, false);
        assert requests[0] == first && requests[1..] == Requests(items, from + 1, maxRegs);
        RequestsAreSent(Send(state, items, first, breakOnError), items, from + 1, maxRegs, breakOnError);
      }
    }
  }
}
