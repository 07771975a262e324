/** The plan of a poller: how often each part of a device is scheduled, and in which queue. */
module PollerPlan {
  import opened PollPlan

  /** A device has up to two pollable parts, one for each priority. */
  datatype Key = Key(device: nat, priority: Priority)

  // ----- what is scheduled -----

  /** How often a key is in its own queue and in the other one. */
  datatype Plan = Plan(own: Key -> nat, other: Key -> nat)

  function PlanOf(low: Queue<Key>, high: Queue<Key>): Plan {
    Plan(
      (k: Key) => if k.priority == Low then Items(low)[k] else Items(high)[k],
      (k: Key) => if k.priority == Low then Items(high)[k] else Items(low)[k])
  }

  predicate IsAddedAt(p: Plan, q: Plan, k: Key, j: Key) {
    q.own(j) == p.own(j) + (if j == k then 1 else 0) && q.other(j) == p.other(j)
  }

  function OneLess(n: nat): nat {
    if n > 0 then n - 1 else 0
  }

  predicate IsRemovedAt(p: Plan, q: Plan, k: Key, j: Key) {
    && q.own(j) == (if j == k then OneLess(p.own(j)) else p.own(j))
    && q.other(j) == (if j == k then OneLess(p.other(j)) else p.other(j))
  }

  ghost predicate IsAdded(p: Plan, q: Plan, k: Key) {
    forall j :: IsAddedAt(p, q, k, j)
  }

  ghost predicate IsTakenOut(p: Plan, q: Plan, k: Key) {
    forall j :: IsRemovedAt(p, q, k, j)
  }

  /** A key is scheduled in its own queue only, at most once, and only if it is known and its device is not suspended. */
  predicate IsPlannedRightly(p: Plan, keys: set<Key>, suspended: set<nat>, k: Key) {
    && p.other(k) == 0
    && p.own(k) <= 1
    && (p.own(k) == 1 ==> k in keys && k.device !in suspended)
  }

  /** A key is scheduled once, in its own queue. */
  predicate IsAlone(p: Plan, k: Key) {
    p.own(k) == 1 && p.other(k) == 0
  }

  /** A key with queued registers is scheduled unless its device is suspended. */
  predicate IsPlanned(p: Plan, suspended: set<nat>, k: Key) {
    k.device in suspended || p.own(k) == 1
  }

  ghost predicate IsRight(p: Plan, keys: set<Key>, suspended: set<nat>) {
    forall k :: IsPlannedRightly(p, keys, suspended, k)
  }

  ghost predicate IsWhole(p: Plan, full: set<Key>, suspended: set<nat>) {
    forall k {:trigger IsPlanned(p, suspended, k)} | k in full :: IsPlanned(p, suspended, k)
  }

  /** Every key with queued registers is scheduled exactly once, in its own queue, and nothing else is. */
  ghost predicate IsWell(p: Plan, keys: set<Key>, full: set<Key>, suspended: set<nat>) {
    IsRight(p, keys, suspended) && IsWhole(p, full, suspended)
  }

  function HighKey(device: nat): Key {
    Key(device, High)
  }

  function LowKey(device: nat): Key {
    Key(device, Low)
  }

  predicate IsKnown(keys: set<Key>, device: nat) {
    HighKey(device) in keys || LowKey(device) in keys
  }

  /** No known device that is suspended waits to be rescheduled. */
  ghost predicate NoneWaits(waiting: seq<nat>, suspended: set<nat>, keys: set<Key>) {
    forall d | d in waiting && d in suspended :: !IsKnown(keys, d)
  }

  lemma OneMoreWaits(waiting: seq<nat>, suspended: set<nat>, keys: set<Key>, device: nat)
    requires NoneWaits(waiting, suspended, keys) && device !in suspended
    ensures NoneWaits(waiting + [device], suspended, keys)
  {
  }

  // ----- steps -----

  lemma AddedAt(low: Queue<Key>, high: Queue<Key>, e: Entry<Key>, j: Key)
    ensures IsAddedAt(
      PlanOf(low, high),
      PlanOf(if e.data.priority == Low then low + [e] else low, if e.data.priority == High then high + [e] else high),
      e.data, j)
  {
    if e.data.priority == Low {
      CountPutIn(low, e, j);
    } else {
      CountPutIn(high, e, j);
    }
  }

  predicate IsOneLess(before: nat, after: nat, same: bool) {
    after == if same then OneLess(before) else before
  }

  lemma {:induction false} RemovedAt(
      low: Queue<Key>, high: Queue<Key>, newLow: Queue<Key>, newHigh: Queue<Key>, k: Key, j: Key)
    requires IsOneLess(Items(low)[j], Items(newLow)[j], j == k) && IsOneLess(Items(high)[j], Items(newHigh)[j], j == k)
    ensures IsRemovedAt(PlanOf(low, high), PlanOf(newLow, newHigh), k, j)
  {
  }

  lemma ReadyAdded(low: Queue<Key>, high: Queue<Key>, e: Entry<Key>, now: int)
    ensures CountReady(if e.data.priority == Low then low + [e] else low, now)
          + CountReady(if e.data.priority == High then high + [e] else high, now)
         == CountReady(low, now) + CountReady(high, now) + if e.deadline <= now then 1 else 0
  {
    PutIn(low, e, now);
    PutIn(high, e, now);
  }

  /** A key is put in for the first time. */
  lemma FirstWell(p: Plan, q: Plan, keys: set<Key>, left: set<Key>, k: Key)
    requires IsWell(p, keys, keys - left, {}) && left <= keys && k in left && p.own(k) == 0
    requires IsAdded(p, q, k)
    ensures IsWell(q, keys, keys - (left - {k}), {})
  {
    forall j ensures IsPlannedRightly(q, keys, {}, j) {
      assert IsPlannedRightly(p, keys, {}, j) && IsAddedAt(p, q, k, j);
    }
    forall j | j in keys - (left - {k}) ensures IsPlanned(q, {}, j) {
      assert IsPlannedRightly(p, keys, {}, j) && IsAddedAt(p, q, k, j);
      assert j == k || IsPlanned(p, {}, j);
    }
  }

  /** A key of a device that is suspended is taken out. */
  lemma TakenOutRightly(p: Plan, q: Plan, keys: set<Key>, suspended: set<nat>, k: Key)
    requires IsRight(p, keys, suspended) && IsTakenOut(p, q, k)
    ensures IsRight(q, keys, suspended) && q.own(k) == 0
    ensures forall j | j != k :: q.own(j) == p.own(j)
  {
    assert IsPlannedRightly(p, keys, suspended, k) && IsRemovedAt(p, q, k, k);
    forall j ensures IsPlannedRightly(q, keys, suspended, j) {
      assert IsPlannedRightly(p, keys, suspended, j) && IsRemovedAt(p, q, k, j);
    }
    forall j | j != k ensures q.own(j) == p.own(j) {
      assert IsRemovedAt(p, q, k, j);
    }
  }

  /** A device whose keys are out may be suspended. */
  lemma SuspendedWell(p: Plan, q: Plan, keys: set<Key>, full: set<Key>, suspended: set<nat>, device: nat)
    requires IsWell(p, keys, full, suspended) && IsRight(q, keys, suspended)
    requires q.own(HighKey(device)) == 0 && q.own(LowKey(device)) == 0
    requires forall j | j != HighKey(device) && j != LowKey(device) :: q.own(j) == p.own(j)
    ensures IsWell(q, keys, full, suspended + {device})
  {
    forall k ensures IsPlannedRightly(q, keys, suspended + {device}, k) {
      assert IsPlannedRightly(q, keys, suspended, k);
      assert k == if k.priority == High then HighKey(k.device) else LowKey(k.device);
    }
    forall k | k in full ensures IsPlanned(q, suspended + {device}, k) {
      assert IsPlanned(p, suspended, k);
    }
  }

  // ----- rescheduling -----

  /** Like the rules of the plan, but the keys that are done are planned even when their device is suspended. */
  predicate IsReplanned(p: Plan, keys: set<Key>, full: set<Key>, suspended: set<nat>, done: set<Key>, k: Key) {
    && p.other(k) == 0
    && p.own(k) <= 1
    && (p.own(k) == 1 ==> k in keys && (k.device in suspended ==> k in done))
    && (k in done || (k in full && k.device !in suspended) ==> p.own(k) == 1)
  }

  ghost predicate AreReplanned(p: Plan, keys: set<Key>, full: set<Key>, suspended: set<nat>, done: set<Key>) {
    forall k :: IsReplanned(p, keys, full, suspended, done, k)
  }

  /** At first nothing is done. */
  lemma NothingReplanned(p: Plan, keys: set<Key>, full: set<Key>, suspended: set<nat>)
    requires IsWell(p, keys, full, suspended)
    ensures AreReplanned(p, keys, full, suspended, {})
  {
    forall k ensures IsReplanned(p, keys, full, suspended, {}, k) {
      assert IsPlannedRightly(p, keys, suspended, k);
      assert k in full ==> IsPlanned(p, suspended, k);
    }
  }

  predicate IsSuspended(suspended: set<nat>, k: Key) {
    k.device in suspended
  }

  /** The plan is a right one if and only if no key that is done belongs to a suspended device. */
  lemma ReplannedWell(p: Plan, keys: set<Key>, full: set<Key>, suspended: set<nat>, done: set<Key>)
    requires AreReplanned(p, keys, full, suspended, done)
    ensures IsWell(p, keys, full, suspended) <==> forall k | k in done :: !IsSuspended(suspended, k)
  {
    forall k ensures IsReplanned(p, keys, full, suspended, done, k) {
    }
    if forall k | k in done :: !IsSuspended(suspended, k) {
      forall k ensures IsPlannedRightly(p, keys, suspended, k) {
        assert IsReplanned(p, keys, full, suspended, done, k);
        assert k in done ==> !IsSuspended(suspended, k);
      }
      forall k | k in full ensures IsPlanned(p, suspended, k) {
        assert IsReplanned(p, keys, full, suspended, done, k);
      }
    } else {
      var k :| k in done && IsSuspended(suspended, k);
      assert IsReplanned(p, keys, full, suspended, done, k);
      assert !IsPlannedRightly(p, keys, suspended, k);
    }
  }

  predicate SameElsewhere(full: set<Key>, newFull: set<Key>, k: Key) {
    newFull - {k} == full - {k}
  }

  /** A key is taken out, if it is in, and put in. */
  lemma ReplacedOne(
      p: Plan, out: Plan, q: Plan, keys: set<Key>, full: set<Key>, newFull: set<Key>, suspended: set<nat>,
      done: set<Key>, k: Key)
    requires AreReplanned(p, keys, full, suspended, done) && k in keys && SameElsewhere(full, newFull, k)
    requires IsTakenOut(p, out, k) && IsAdded(out, q, k)
    ensures AreReplanned(q, keys, newFull, suspended, done + {k})
  {
    forall j ensures IsReplanned(q, keys, newFull, suspended, done + {k}, j) {
      assert IsReplanned(p, keys, full, suspended, done, j) && IsRemovedAt(p, out, k, j) && IsAddedAt(out, q, k, j);
      if j != k {
        assert j in newFull <==> j in newFull - {k};
        assert j in full <==> j in full - {k};
      }
    }
  }

  /** A key of a suspended device is put in. */
  lemma AddedOne(
      p: Plan, q: Plan, keys: set<Key>, full: set<Key>, newFull: set<Key>, suspended: set<nat>, done: set<Key>, k: Key)
    requires AreReplanned(p, keys, full, suspended, done) && k in keys && SameElsewhere(full, newFull, k)
    requires k.device in suspended && k !in done && IsAdded(p, q, k)
    ensures AreReplanned(q, keys, newFull, suspended, done + {k})
  {
    forall j ensures IsReplanned(q, keys, newFull, suspended, done + {k}, j) {
      assert IsReplanned(p, keys, full, suspended, done, j) && IsAddedAt(p, q, k, j);
      if j != k {
        assert j in newFull <==> j in newFull - {k};
        assert j in full <==> j in full - {k};
      }
    }
  }

  /** With all its keys done, a device need not be suspended any more. */
  lemma ResumedWell(
      p: Plan, keys: set<Key>, full: set<Key>, suspended: set<nat>, done: set<Key>, device: nat)
    requires AreReplanned(p, keys, full, suspended, done) && full <= keys
    requires forall k | k in keys && k.device == device :: k in done
    requires forall k | k in done :: k.device == device
    ensures IsWell(p, keys, full, suspended - {device})
  {
    forall k ensures IsPlannedRightly(p, keys, suspended - {device}, k) {
      assert IsReplanned(p, keys, full, suspended, done, k);
    }
    forall k | k in full ensures IsPlanned(p, suspended - {device}, k) {
      assert IsReplanned(p, keys, full, suspended, done, k);
    }
  }

  /** A key is taken out and put back only if it has registers. */
  lemma PolledOne(
      p: Plan, out: Plan, q: Plan, keys: set<Key>, full: set<Key>, newFull: set<Key>, suspended: set<nat>, k: Key)
    requires IsWell(p, keys, full, suspended) && k in keys && k.device !in suspended && SameElsewhere(full, newFull, k)
    requires IsTakenOut(p, out, k) && if k in newFull then IsAdded(out, q, k) else q == out
    ensures IsWell(q, keys, newFull, suspended)
  {
    forall j ensures IsPlannedRightly(q, keys, suspended, j) {
      assert IsPlannedRightly(p, keys, suspended, j) && IsRemovedAt(p, out, k, j);
      assert k in newFull ==> IsAddedAt(out, q, k, j);
    }
    forall j | j in newFull ensures IsPlanned(q, suspended, j) {
      assert IsPlannedRightly(p, keys, suspended, j) && IsRemovedAt(p, out, k, j);
      assert k in newFull ==> IsAddedAt(out, q, k, j);
      if j != k {
        assert j in newFull - {k} && j in full && IsPlanned(p, suspended, j);
      }
    }
  }

  /** An entry may stay while its registers change. */
  lemma StayedOne(p: Plan, keys: set<Key>, full: set<Key>, newFull: set<Key>, suspended: set<nat>, k: Key)
    requires IsWell(p, keys, full, suspended) && SameElsewhere(full, newFull, k) && p.own(k) == 1
    ensures IsWell(p, keys, newFull, suspended)
  {
    forall j | j in newFull ensures IsPlanned(p, suspended, j) {
      if j != k {
        assert j in newFull - {k} && j in full && IsPlanned(p, suspended, j);
      }
    }
  }


  /** Which keys have a due entry in their own queue. */
  ghost function DueOf(low: Queue<Key>, high: Queue<Key>, now: int): Key -> bool {
    (k: Key) => IsReadyIn(if k.priority == Low then low else high, k, now)
  }

  predicate IsDueAddedAt(before: Key -> bool, after: Key -> bool, k: Key, due: bool, j: Key) {
    after(j) == (before(j) || (j == k && due))
  }

  predicate IsDueTakenOutAt(before: Key -> bool, after: Key -> bool, k: Key, j: Key) {
    after(j) == (before(j) && j != k)
  }

  ghost predicate IsDueAdded(before: Key -> bool, after: Key -> bool, k: Key, due: bool) {
    forall j :: IsDueAddedAt(before, after, k, due, j)
  }

  ghost predicate IsDueTakenOut(before: Key -> bool, after: Key -> bool, k: Key) {
    forall j :: IsDueTakenOutAt(before, after, k, j)
  }

  ghost predicate AreDue(due: Key -> bool, keys: set<Key>) {
    forall k | k in keys :: due(k)
  }

  lemma OneMoreDue(before: Key -> bool, after: Key -> bool, keys: set<Key>, k: Key)
    requires AreDue(before, keys) && IsDueAdded(before, after, k, true)
    ensures AreDue(after, keys + {k})
  {
    forall j | j in keys + {k} ensures after(j) {
      assert IsDueAddedAt(before, after, k, true, j);
    }
  }

  lemma DueAdded(low: Queue<Key>, high: Queue<Key>, e: Entry<Key>, now: int)
    ensures IsDueAdded(
      DueOf(low, high, now),
      DueOf(if e.data.priority == Low then low + [e] else low, if e.data.priority == High then high + [e] else high, now),
      e.data, e.deadline <= now)
  {
    var newLow := if e.data.priority == Low then low + [e] else low;
    var newHigh := if e.data.priority == High then high + [e] else high;
    forall j
      ensures DueOf(newLow, newHigh, now)(j) == (DueOf(low, high, now)(j) || (j == e.data && e.deadline <= now))
    {
      ReadyInParts(if j.priority == Low then low else high, [e], j, now);
      assert e in [e];
    }
  }

  /** The only entry of a key is taken out. */
  lemma {:induction false} NotDueAnyMore(queue: Queue<Key>, i: nat, now: int)
    requires i < |queue| && Items(queue)[queue[i].data] == 1
    ensures forall j :: IsReadyIn(Without(queue, i), j, now) <==> IsReadyIn(queue, j, now) && j != queue[i].data
  {
    TakenOut(queue, i, now);
    ReadyTakenOut(queue, i, now);
    IsQueued(Without(queue, i), queue[i].data);
    assert queue[i].data !in Items(Without(queue, i));
  }

  lemma DueTakenOut(low: Queue<Key>, high: Queue<Key>, priority: Priority, i: nat, k: Key, now: int)
    requires i < |if priority == Low then low else high| && (if priority == Low then low else high)[i].data == k
    requires k.priority == priority && Items(if priority == Low then low else high)[k] == 1
    ensures IsDueTakenOut(
      DueOf(low, high, now),
      DueOf(if priority == Low then Without(low, i) else low, if priority == High then Without(high, i) else high, now),
      k)
  {
    if priority == Low {
      NotDueAnyMore(low, i, now);
    } else {
      NotDueAnyMore(high, i, now);
    }
  }

  lemma PoppedAt(low: Queue<Key>, high: Queue<Key>, priority: Priority, i: nat, j: Key)
    requires i < |if priority == Low then low else high|
    requires var k := (if priority == Low then low else high)[i].data;
      k.priority == priority && PlanOf(low, high).other(k) == 0
    ensures var k := (if priority == Low then low else high)[i].data;
      IsRemovedAt(
        PlanOf(low, high), PlanOf(if priority == Low then Without(low, i) else low, if priority == High then Without(high, i) else high),
        k, j)
  {
    if priority == Low {
      TakenOut(low, i, 0);
    } else {
      TakenOut(high, i, 0);
    }
  }

  /** The keys of some devices. */
  ghost predicate AreDone(keys: set<Key>, list: seq<nat>, done: set<Key>) {
    && (forall k | k in done :: k in keys && k.device in list)
    && (forall d | d in list :: (HighKey(d) in keys ==> HighKey(d) in done) && (LowKey(d) in keys ==> LowKey(d) in done))
  }

  lemma DoneNext(keys: set<Key>, list: seq<nat>, device: nat, done: set<Key>, high: set<Key>, both: set<Key>)
    requires AreDone(keys, list, done)
    requires high == if HighKey(device) in keys then done + {HighKey(device)} else done
    requires both == if LowKey(device) in keys then high + {LowKey(device)} else high
    ensures AreDone(keys, list + [device], both)
  {
  }

  lemma DoneSuspended(keys: set<Key>, list: seq<nat>, suspended: set<nat>, done: set<Key>)
    requires AreDone(keys, list, done)
    ensures (forall k | k in done :: !IsSuspended(suspended, k)) <==> NoneWaits(list, suspended, keys)
  {
    if forall k | k in done :: !IsSuspended(suspended, k) {
      forall d | d in list && d in suspended ensures !IsKnown(keys, d) {
        assert HighKey(d) in keys ==> !IsSuspended(suspended, HighKey(d));
        assert LowKey(d) in keys ==> !IsSuspended(suspended, LowKey(d));
      }
    } else {
      var k :| k in done && IsSuspended(suspended, k);
      assert k == if k.priority == High then HighKey(k.device) else LowKey(k.device);
      assert k.device in list && IsKnown(keys, k.device);
    }
  }
}
