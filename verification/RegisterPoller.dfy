/**
 The poller of a port: which devices are scheduled, suspended, or waiting to be rescheduled because
 they got disconnected.
 */
module RegisterPoller {
  import opened Common
  import opened DeviceConnection
  import opened PollPlan
  import opened PollableDevices
  import opened PollerParts
  import opened PollerPlan
  import opened PollerReading
  import opened Registers

  const MAX_LOW_PRIORITY_LAG: nat := 1000
  const SUSPEND_POLL_TIMEOUT: nat := 600_000_000

  /** Time of high priority is added and that of low priority taken off, within twice the lag; nothing takes no time. */
  function TotalAfter(totalTime: int, polled: Option<Key>, delta: nat): int {
    match polled
    case None => totalTime
    case Some(k) => if k.priority == High then Min(totalTime + delta, 2000) else Max(totalTime - delta, -2000)
  }

  class Poller {
    var devices: Parts
    const scheduler: Scheduler<Key>
    var suspended: map<nat, int>
    var waiting: seq<nat>
    /** The devices that are disconnected at present. */
    var disconnected: set<nat>
    /** What the scheduler has met so far. */
    ghost var cycles: seq<PortCycle<Key>>

    ghost predicate Valid()
      reads this`devices
    {
      AreParts(devices)
    }

    ghost function ThePlan(): Plan
      reads scheduler
    {
      PlanOf(scheduler.low, scheduler.high)
    }

    ghost predicate Scheduled()
      reads this`devices, this`suspended, scheduler
    {
      IsWell(ThePlan(), devices.Keys, Full(devices), suspended.Keys)
    }

    /** What every cycle keeps. */
    ghost predicate IsInOrder()
      reads this`devices, this`suspended, this`waiting, scheduler
    {
      Valid() && Scheduled() && NoneSuspendedWaits()
    }

    /** The balance is that of the cycles so far. */
    ghost predicate IsBalanced()
      reads this`cycles, scheduler, scheduler.balancer
    {
      && scheduler.Valid()
      && scheduler.balancer.totalTimeThreshold == MAX_LOW_PRIORITY_LAG
      && scheduler.balancer.maxTotalTime == 2 * MAX_LOW_PRIORITY_LAG
      && scheduler.balancer.totalTime == BalanceAfter(cycles, MAX_LOW_PRIORITY_LAG).totalTime
    }

    /** No suspended device waits to be rescheduled. */
    ghost predicate NoneSuspendedWaits()
      reads this`devices, this`suspended, this`waiting
    {
      NoneWaits(waiting, suspended.Keys, devices.Keys)
    }

    /** All parts with registers are scheduled at first. */
    constructor (list: seq<ListedDevice>, now: int)
      requires forall i | 0 <= i < |list| :: list[i].IsSound()
      ensures IsBalanced() && cycles == []
      ensures IsInOrder() && suspended == map[] && waiting == [] && disconnected == {}
      ensures fresh(scheduler) && fresh(scheduler.balancer) && ArePartsOf(devices, list, now)
      ensures AreDue(Due(now), devices.Keys)
    {
      devices, suspended, waiting, disconnected, cycles := map[], map[], [], {}, [];
      scheduler := new Scheduler(MAX_LOW_PRIORITY_LAG);
      new;
      devices := MakeParts(list, now);
      NewParts(devices, list, now);
      ScheduleAll(now);
      assert suspended.Keys == {};
    }

    method ScheduleAll(now: int)
      requires scheduler.low == [] && scheduler.high == []
      modifies scheduler
      ensures IsWell(ThePlan(), devices.Keys, devices.Keys, {})
      ensures AreDue(Due(now), devices.Keys)
    {
      var left := devices.Keys;
      assert devices.Keys - left == {};
      while left != {}
        invariant left <= devices.Keys && AreScheduled(left, now)
        decreases |left|
      {
        var k :| k in left;
        ScheduleFirst(k, now, left);
        left := left - {k};
      }
      assert devices.Keys - left == devices.Keys;
    }

    /** All parts but those that are left are scheduled and due. */
    ghost predicate AreScheduled(left: set<Key>, now: int)
      reads this`devices, scheduler
    {
      && IsWell(ThePlan(), devices.Keys, devices.Keys - left, {})
      && AreDue(Due(now), devices.Keys - left)
      && forall k | k in left :: ThePlan().own(k) == 0
    }

    method ScheduleFirst(k: Key, now: int, ghost left: set<Key>)
      requires k in left && left <= devices.Keys && AreScheduled(left, now)
      modifies scheduler
      ensures AreScheduled(left - {k}, now)
    {
      ghost var p, keys, due := ThePlan(), devices.Keys, Due(now);
      AddEntry(k, now);
      OneMoreDue(due, Due(now), keys - left, k);
      assert keys - (left - {k}) == keys - left + {k};
      FirstWell(p, ThePlan(), keys, left, k);
      forall j | j in left - {k} ensures ThePlan().own(j) == 0 {
        assert IsAddedAt(p, ThePlan(), k, j);
      }
    }

    method AddEntry(k: Key, deadline: int)
      modifies scheduler
      ensures scheduler.low == if k.priority == Low then old(scheduler.low) + [Entry(k, deadline)] else old(scheduler.low)
      ensures scheduler.high
           == if k.priority == High then old(scheduler.high) + [Entry(k, deadline)] else old(scheduler.high)
      ensures IsAdded(old(ThePlan()), ThePlan(), k)
      ensures forall now :: Ready(now) == old(Ready(now)) + if deadline <= now then 1 else 0
      ensures forall now :: IsDueAdded(old(Due(now)), Due(now), k, deadline <= now)
    {
      ghost var e, low, high := Entry(k, deadline), scheduler.low, scheduler.high;
      scheduler.AddEntry(k, deadline, k.priority);
      forall j ensures IsAddedAt(PlanOf(low, high), ThePlan(), k, j) {
        AddedAt(low, high, e, j);
      }
      forall now ensures Ready(now) == CountReady(low, now) + CountReady(high, now) + if deadline <= now then 1 else 0 {
        ReadyAdded(low, high, e, now);
      }
      forall now ensures IsDueAdded(DueOf(low, high, now), Due(now), k, deadline <= now) {
        DueAdded(low, high, e, now);
      }
    }

    /** Which entries are due. */
    ghost function Due(now: int): Key -> bool
      reads scheduler
    {
      DueOf(scheduler.low, scheduler.high, now)
    }

    ghost function StateNow(): PollState
      reads this`devices, scheduler
    {
      PollState(devices, scheduler.low, scheduler.high)
    }

    /** How many entries are due. */
    ghost function Ready(now: int): nat
      reads scheduler
    {
      CountReady(scheduler.low, now) + CountReady(scheduler.high, now)
    }

    method RemoveEntry(k: Key)
      modifies scheduler
      ensures IsTakenOut(old(ThePlan()), ThePlan(), k)
    {
      ghost var low, high := scheduler.low, scheduler.high;
      scheduler.Remove(k);
      forall j ensures IsRemovedAt(PlanOf(low, high), ThePlan(), k, j) {
        CountRemoved(low, scheduler.low, k, j);
        CountRemoved(high, scheduler.high, k, j);
        RemovedAt(low, high, scheduler.low, scheduler.high, k, j);
      }
    }

    // ----- suspending -----

    method SuspendPoll(device: nat, now: int) returns (ok: bool)
      requires Valid() && Scheduled()
      modifies this`devices, this`suspended, this`waiting, this`disconnected, scheduler
      ensures Valid() && Scheduled()
      ensures ok <==> device in old(suspended) || IsKnown(devices.Keys, device)
      ensures suspended == if ok then old(suspended)[device := now + SUSPEND_POLL_TIMEOUT] else old(suspended)
      ensures waiting == old(waiting) && devices == old(devices)
      ensures old(NoneSuspendedWaits()) && device !in waiting ==> NoneSuspendedWaits()
    {
      if device !in suspended {
        if !IsKnown(devices.Keys, device) {
          return false;
        }
        TakeOut(device);
      }
      NowSuspended(suspended, device, now + SUSPEND_POLL_TIMEOUT);
      suspended := suspended[device := now + SUSPEND_POLL_TIMEOUT];
      // The device gets disconnected, which is not noted for a suspended one.
      disconnected := disconnected + {device};
      return true;
    }

    /** Both parts of a device are taken out. */
    method TakeOut(device: nat)
      requires Scheduled()
      modifies scheduler
      ensures IsWell(ThePlan(), devices.Keys, Full(devices), suspended.Keys + {device})
    {
      ghost var p, keys, full := ThePlan(), devices.Keys, Full(devices);
      RemoveEntry(HighKey(device));
      ghost var q := ThePlan();
      TakenOutRightly(p, q, keys, suspended.Keys, HighKey(device));
      RemoveEntry(LowKey(device));
      TakenOutRightly(q, ThePlan(), keys, suspended.Keys, LowKey(device));
      SuspendedWell(p, ThePlan(), keys, full, suspended.Keys, device);
    }

    lemma NowSuspended(suspended: map<nat, int>, device: nat, until: int)
      ensures suspended[device := until].Keys == suspended.Keys + {device}
      ensures device in suspended ==> suspended.Keys + {device} == suspended.Keys
    {
    }

    /** Polls all registers of a part again. */
    method RescheduleAll(k: Key)
      requires Valid() && k in devices
      modifies this`devices
      ensures Valid() && devices.Keys == old(devices.Keys) && OnlyRegistersDiffer(old(devices), devices)
      ensures SameElsewhere(old(Full(devices)), Full(devices), k)
      ensures forall id | devices[k].registry.Polls(id) :: Items(devices[k].registers)[id] == 1
    {
      var part := devices[k];
      assert IsPart(k, part);
      part := RescheduleAllRegisters(part);
      FullChanged(devices, k, part);
      assert IsPart(k, part);
      devices := devices[k := part];
    }

    method ResumePoll(device: nat) returns (ok: bool)
      requires Valid() && Scheduled()
      modifies this`devices, this`suspended, this`waiting, this`disconnected, scheduler
      ensures Valid() && Scheduled() && devices.Keys == old(devices.Keys)
      ensures ok <==> device in old(suspended)
      ensures suspended == old(suspended) - {device} && waiting == old(waiting)
      ensures disconnected == old(disconnected) && OnlyRegistersDiffer(old(devices), devices)
    {
      if device !in suspended {
        return false;
      }
      ResumeBoth(device);
      ghost var p, left := ThePlan(), suspended - {device};
      suspended := suspended - {device};
      assert ThePlan() == p && suspended == left;
      return true;
    }

    method ResumeBoth(device: nat)
      requires Valid() && Scheduled() && device in suspended
      modifies this`devices, scheduler
      ensures Valid() && devices.Keys == old(devices.Keys) && OnlyRegistersDiffer(old(devices), devices)
      ensures IsWell(ThePlan(), devices.Keys, Full(devices), (suspended - {device}).Keys)
    {
      ghost var keys, without := devices.Keys, suspended.Keys;
      NothingReplanned(ThePlan(), keys, Full(devices), without);
      ghost var high := ResumeOne(HighKey(device), {});
      ghost var middle := devices;
      ghost var done := ResumeOne(LowKey(device), high);
      StillOnlyRegisters(old(devices), middle, devices);
      ghost var p, full := ThePlan(), Full(devices);
      BothKeys(keys, device, done);
      ResumedWell(p, keys, full, without, done, device);
      assert (suspended - {device}).Keys == suspended.Keys - {device};
    }

    lemma BothKeys(keys: set<Key>, device: nat, done: set<Key>)
      requires HighKey(device) in keys ==> HighKey(device) in done
      requires LowKey(device) in keys ==> LowKey(device) in done
      requires done <= {HighKey(device), LowKey(device)}
      ensures forall k | k in keys && k.device == device :: k in done
      ensures forall k | k in done :: k.device == device
    {
      forall k | k in keys && k.device == device ensures k in done {
        assert k == if k.priority == High then HighKey(device) else LowKey(device);
      }
    }

    method ResumeOne(k: Key, ghost done: set<Key>) returns (ghost newDone: set<Key>)
      requires Valid() && AreReplanned(ThePlan(), devices.Keys, Full(devices), suspended.Keys, done)
      requires k.device in suspended && k !in done
      modifies this`devices, scheduler
      ensures Valid() && devices.Keys == old(devices.Keys) && OnlyRegistersDiffer(old(devices), devices)
      ensures AreReplanned(ThePlan(), devices.Keys, Full(devices), suspended.Keys, newDone)
      ensures newDone == if k in devices then done + {k} else done
    {
      newDone := done;
      if k in devices {
        ghost var p, full := ThePlan(), Full(devices);
        RescheduleAll(k);
        AddEntry(k, devices[k].GetDeadline());
        AddedOne(p, ThePlan(), devices.Keys, full, Full(devices), suspended.Keys, done, k);
        newDone := done + {k};
      }
    }

    // ----- disconnected devices -----

    /** A device got disconnected; it is noted unless its polling is suspended. */
    method OnDeviceDisconnected(device: nat)
      modifies this`waiting, this`disconnected
      ensures waiting == if device in suspended then old(waiting) else old(waiting) + [device]
      ensures old(NoneSuspendedWaits()) ==> NoneSuspendedWaits()
      ensures disconnected == old(disconnected) + {device}
    {
      disconnected := disconnected + {device};
      if device !in suspended {
        if NoneSuspendedWaits() {
          OneMoreWaits(waiting, suspended.Keys, devices.Keys, device);
        }
        waiting := waiting + [device];
      }
    }

    method RescheduleOne(k: Key, ghost done: set<Key>) returns (ghost newDone: set<Key>)
      requires Valid() && AreReplanned(ThePlan(), devices.Keys, Full(devices), suspended.Keys, done)
      modifies this`devices, scheduler
      ensures Valid() && devices.Keys == old(devices.Keys) && OnlyRegistersDiffer(old(devices), devices)
      ensures AreReplanned(ThePlan(), devices.Keys, Full(devices), suspended.Keys, newDone)
      ensures newDone == if k in devices then done + {k} else done
    {
      newDone := done;
      if k in devices {
        ghost var p, full := ThePlan(), Full(devices);
        RemoveEntry(k);
        ghost var out := ThePlan();
        RescheduleAll(k);
        AddEntry(k, devices[k].GetDeadline());
        ReplacedOne(p, out, ThePlan(), devices.Keys, full, Full(devices), suspended.Keys, done, k);
        newDone := done + {k};
      }
    }

    /**
     The devices that wait are scheduled again with all their registers.  The plan stays a right one if and only if
     no known device that waits is suspended: such a device would be polled all the same.
     */
    method RescheduleDisconnectedDevices()
      requires Valid() && Scheduled()
      modifies this`devices, this`waiting, scheduler
      ensures Valid() && devices.Keys == old(devices.Keys) && waiting == []
      ensures OnlyRegistersDiffer(old(devices), devices)
      ensures Scheduled() <==> old(NoneSuspendedWaits())
      ensures old(waiting) == [] ==> StateNow() == old(StateNow())
    {
      ghost var keys, done, list := devices.Keys, {}, waiting;
      NothingReplanned(ThePlan(), keys, Full(devices), suspended.Keys);
      NothingDiffers(devices);
      for i := 0 to |waiting|
        invariant Valid() && waiting == list && devices.Keys == keys && OnlyRegistersDiffer(old(devices), devices)
        invariant AreReplanned(ThePlan(), keys, Full(devices), suspended.Keys, done)
        invariant AreDone(keys, list[..i], done)
        invariant i == 0 ==> StateNow() == old(StateNow())
      {
        done := RescheduleDevice(waiting[i], list[..i], done, old(devices));
        assert list[..i + 1] == list[..i] + [list[i]];
      }
      assert list[..|list|] == list;
      ReplannedWell(ThePlan(), keys, Full(devices), suspended.Keys, done);
      DoneSuspended(keys, list, suspended.Keys, done);
      waiting := [];
    }

    /** Both parts of a device. */
    method RescheduleDevice(device: nat, ghost list: seq<nat>, ghost done: set<Key>, ghost first: Parts)
      returns (ghost both: set<Key>)
      requires Valid() && AreReplanned(ThePlan(), devices.Keys, Full(devices), suspended.Keys, done)
      requires AreDone(devices.Keys, list, done) && OnlyRegistersDiffer(first, devices)
      modifies this`devices, scheduler
      ensures Valid() && devices.Keys == old(devices.Keys) && OnlyRegistersDiffer(first, devices)
      ensures AreReplanned(ThePlan(), devices.Keys, Full(devices), suspended.Keys, both)
      ensures AreDone(devices.Keys, list + [device], both)
    {
      ghost var high := RescheduleOne(HighKey(device), done);
      ghost var middle := devices;
      StillOnlyRegisters(first, old(devices), middle);
      both := RescheduleOne(LowKey(device), high);
      StillOnlyRegisters(first, middle, devices);
      DoneNext(devices.Keys, list, device, done, high, both);
    }

    /** The devices that were suspended for long enough are polled again. */
    method RescheduleDevicesWithSuspendedPoll(now: int)
      requires Valid() && Scheduled()
      modifies this`devices, this`suspended, this`waiting, this`disconnected, scheduler
      ensures Valid() && Scheduled() && devices.Keys == old(devices.Keys) && waiting == old(waiting)
      ensures disconnected == old(disconnected) && OnlyRegistersDiffer(old(devices), devices)
      ensures forall d :: d in suspended <==> d in old(suspended) && old(suspended)[d] > now
      ensures (forall d | d in old(suspended) :: old(suspended)[d] > now) ==> StateNow() == old(StateNow())
    {
      var expired := set d | d in suspended && suspended[d] <= now;
      ghost var before := suspended;
      NothingDiffers(devices);
      ghost var gone: set<nat> := {};
      while expired != {}
        invariant Valid() && Scheduled() && devices.Keys == old(devices.Keys) && waiting == old(waiting)
        invariant disconnected == old(disconnected) && OnlyRegistersDiffer(old(devices), devices)
        invariant suspended == before - gone
        invariant forall d :: d in expired || d in gone <==> d in before && before[d] <= now
        invariant expired !! gone
        invariant gone == {} ==> StateNow() == old(StateNow())
        decreases |expired|
      {
        var d :| d in expired;
        ghost var middle := devices;
        var ok := ResumePoll(d);
        StillOnlyRegisters(old(devices), middle, devices);
        expired := expired - {d};
        gone := gone + {d};
      }
    }

    // ----- cycles -----

    /** Puts a part back if it has registers; a disconnected device is delayed more and more. */
    method ScheduleNextPoll(k: Key, now: int)
      requires Valid() && k in devices
      modifies this`devices, scheduler
      ensures Valid() && devices.Keys == old(devices.Keys) && Full(devices) == old(Full(devices))
      ensures if k in Full(devices) then IsAdded(old(ThePlan()), ThePlan(), k)
              else scheduler.low == old(scheduler.low) && scheduler.high == old(scheduler.high)
      ensures devices == WithDelay(old(devices), k, k.device in disconnected)
      ensures var back := NextEntry(old(devices), k, k.device in disconnected, now);
        && scheduler.low == (if k.priority == Low then old(scheduler.low) + back else old(scheduler.low))
        && scheduler.high == (if k.priority == High then old(scheduler.high) + back else old(scheduler.high))
      ensures var again := IsReadyNext(old(devices)[k], k.device in disconnected, now);
        && Ready(now) == old(Ready(now)) + (if again then 1 else 0)
        && IsDueAdded(old(Due(now)), Due(now), k, again)
    {
      DelayChanges(devices, k, k.device in disconnected);
      var part := devices[k];
      if part.HasRegisters() {
        var delay, deadline := Delayed(part, k.device in disconnected, now);
        devices := devices[k := part.(disconnectedPollDelay := delay)];
        AddEntry(k, deadline);
      }
    }

    /** The entry at the top of the queue of a priority. */
    method NextKey(priority: Priority, now: int) returns (i: nat, k: Key)
      requires Scheduled() && HasReady(scheduler.QueueOf(priority), now)
      ensures IsNext(scheduler.QueueOf(priority), now, i, k)
      ensures k.priority == priority && k in devices && k.device !in suspended && IsAlone(ThePlan(), k)
      ensures Due(now)(k)
    {
      var queue := scheduler.QueueOf(priority);
      i := GetTop(queue);
      k := queue[i].data;
      IsQueued(queue, k);
      assert queue[i] in queue && k in Items(queue);
      assert IsPlannedRightly(ThePlan(), devices.Keys, suspended.Keys, k);
    }

    /** Takes an entry out, which is in its own queue only. */
    method PopEntry(priority: Priority, i: nat, k: Key, now: int)
      requires i < |scheduler.QueueOf(priority)| && scheduler.QueueOf(priority)[i].data == k && k.priority == priority
      requires scheduler.QueueOf(priority)[i].deadline <= now && IsAlone(ThePlan(), k)
      modifies scheduler
      ensures scheduler.low == if priority == Low then Without(old(scheduler.low), i) else old(scheduler.low)
      ensures scheduler.high == if priority == High then Without(old(scheduler.high), i) else old(scheduler.high)
      ensures IsTakenOut(old(ThePlan()), ThePlan(), k) && Ready(now) == old(Ready(now)) - 1
      ensures IsDueTakenOut(old(Due(now)), Due(now), k)
    {
      ghost var low, high := scheduler.low, scheduler.high;
      TakenOut(scheduler.QueueOf(priority), i, now);
      DueTakenOut(low, high, priority, i, k, now);
      scheduler.Pop(priority, i);
      forall j ensures IsRemovedAt(PlanOf(low, high), ThePlan(), k, j) {
        PoppedAt(low, high, priority, i, j);
      }
    }

    method ReadPart(k: Key, e: OpenPort, l: Limits)
      returns (list: seq<int>, ghost taken: Queue<int>, ghost rest: Queue<int>)
      requires Valid() && k in devices
      modifies this`devices
      ensures Valid() && devices.Keys == old(devices.Keys)
      ensures SameElsewhere(old(Full(devices)), Full(devices), k)
      ensures devices == old(devices)[k := devices[k]]
      ensures var (p, after) := (old(devices)[k], devices[k]);
        && p.registry.IsSound()
        && IsReadOut(p.registry, p.view, p.registers, e.now, l, e.isAccessible, e.readings,
                     after.registry, after.registers, list, taken, rest)
        && after == p.(registry := after.registry, registers := after.registers,
                       lastReadTime := if list != [] then e.now + e.spentTime else p.lastReadTime)
    {
      var part := devices[k];
      assert IsPart(k, part);
      ghost var dropped;
      part, list, taken, rest, dropped := ReadRegisterRange(part, e.now, e.spentTime, l, e.isAccessible, e.readings);
      FullChanged(devices, k, part);
      assert IsPart(k, part);
      devices := devices[k := part];
    }

    /** A part that was taken from a queue goes back as far as it has registers. */
    method PutPartBack(priority: Priority, i: nat, k: Key, now: int, ghost full: set<Key>)
      requires Valid() && IsWell(ThePlan(), devices.Keys, full, suspended.Keys)
      requires k in devices && k.device !in suspended && SameElsewhere(full, Full(devices), k)
      requires i < |scheduler.QueueOf(priority)| && scheduler.QueueOf(priority)[i].data == k && k.priority == priority
      requires scheduler.QueueOf(priority)[i].deadline <= now && IsAlone(ThePlan(), k)
      modifies this`devices, scheduler
      ensures Valid() && Scheduled() && devices.Keys == old(devices.Keys)
      ensures IsPutBack(old(FailingAt(now)), FailingAt(now), now, k)
      ensures devices == WithDelay(old(devices), k, k.device in disconnected)
      ensures var back := NextEntry(old(devices), k, k.device in disconnected, now);
        && scheduler.low == (if priority == Low then Without(old(scheduler.low), i) + back else old(scheduler.low))
        && scheduler.high == (if priority == High then Without(old(scheduler.high), i) + back else old(scheduler.high))
    {
      ghost var a, p, keys, without := FailingAt(now), ThePlan(), devices.Keys, suspended.Keys;
      PopEntry(priority, i, k, now);
      ghost var out, between := ThePlan(), Due(now);
      ScheduleNextPoll(k, now);
      ghost var q, newFull, b := ThePlan(), Full(devices), FailingAt(now);
      assert IsWell(q, keys, newFull, without) by {
        PolledOne(p, out, q, keys, full, newFull, without, k);
      }
      assert IsPutBack(a, b, now, k) by {
        PartPutBack(a, between, b, now, k);
      }
    }

    /**
     One cycle with an open port.  Every known part with queued registers stays scheduled exactly once, in its own
     queue, unless its device is suspended.  What is polled is what the scheduler offers, and the balance is counted
     accordingly; so high priority never gets a turn that low priority is ready for and behind with.
     */
    method OpenPortCycle(e: OpenPort) returns (polled: Option<Key>, list: seq<int>, ghost c: Cycle)
      requires IsBalanced() && IsInOrder()
      modifies this, scheduler, scheduler.balancer
      ensures IsBalanced() && IsInOrder() && devices.Keys == old(devices.Keys)
      ensures polled.Some? ==> polled.value in devices && polled.value.device !in suspended
      ensures OnlyRegistersDiffer(old(devices), c.before.devices) && AreParts(c.before.devices)
      ensures old(waiting) == [] && (forall d | d in old(suspended) :: old(suspended)[d] > e.now) ==>
        c.before == old(StateNow())
      ensures c.offer == OfferOf(Choose(
        c.before.high, c.before.low, old(scheduler.balancer.totalTime), MAX_LOW_PRIORITY_LAG, e.now, e.Policy()))
      ensures c.Yields(e, polled, list, StateNow(), old(disconnected), disconnected)
      ensures cycles == old(cycles) + [c.Met(e, polled)]
      ensures scheduler.balancer.totalTime
           == TotalAfter(old(scheduler.balancer.totalTime), polled, CeilToMilliseconds(e.spentTime))
      ensures IsLowReady(c.Met(e, polled)) && c.offer.Some? && c.offer.value.priority == High ==>
        BalanceAfter(old(cycles), MAX_LOW_PRIORITY_LAG).spent < 3 * MAX_LOW_PRIORITY_LAG
    {
      RescheduleDue(e.now);
      polled, list, c := PollAndCount(e);
    }

    /** Polls what is due and counts the time it took. */
    method PollAndCount(e: OpenPort) returns (polled: Option<Key>, list: seq<int>, ghost c: Cycle)
      requires IsBalanced() && IsInOrder()
      modifies this, scheduler, scheduler.balancer
      ensures IsBalanced() && IsInOrder() && devices.Keys == old(devices.Keys)
      ensures polled.Some? ==> polled.value in devices && polled.value.device !in suspended
      ensures c.before == old(StateNow())
      ensures c.offer == OfferOf(Choose(
        c.before.high, c.before.low, old(scheduler.balancer.totalTime), MAX_LOW_PRIORITY_LAG, e.now, e.Policy()))
      ensures c.Yields(e, polled, list, StateNow(), old(disconnected), disconnected)
      ensures cycles == old(cycles) + [c.Met(e, polled)]
      ensures scheduler.balancer.totalTime
           == TotalAfter(old(scheduler.balancer.totalTime), polled, CeilToMilliseconds(e.spentTime))
      ensures IsLowReady(c.Met(e, polled)) && c.offer.Some? && c.offer.value.priority == High ==>
        BalanceAfter(old(cycles), MAX_LOW_PRIORITY_LAG).spent < 3 * MAX_LOW_PRIORITY_LAG
    {
      ghost var choice;
      polled, list, c, choice := PollNext(e);
      CountTurn(polled, CeilToMilliseconds(e.spentTime), choice, c.Met(e, polled));
    }

    /** Counts the time of what was polled to its priority. */
    method CountTurn(polled: Option<Key>, delta: nat, ghost choice: Choice, ghost met: PortCycle<Key>)
      requires IsBalanced() && met.Open? && met.delta == if polled.None? then 0 else delta
      requires choice == Choose(
        met.high, met.low, scheduler.balancer.totalTime, MAX_LOW_PRIORITY_LAG, met.now, met.policy)
      requires polled.Some? ==> OfferOf(choice).Some? && polled.value.priority == OfferOf(choice).value.priority
      modifies this`cycles, scheduler.balancer
      ensures IsBalanced() && cycles == old(cycles) + [met]
      ensures scheduler.balancer.totalTime == TotalAfter(old(scheduler.balancer.totalTime), polled, delta)
      ensures IsLowReady(met) && choice == ChooseHigh ==>
        BalanceAfter(old(cycles), MAX_LOW_PRIORITY_LAG).spent < 3 * MAX_LOW_PRIORITY_LAG
    {
      OneMoreTurn(cycles, met, MAX_LOW_PRIORITY_LAG);
      BalanceIsBounded(TurnsOf(cycles, MAX_LOW_PRIORITY_LAG), MAX_LOW_PRIORITY_LAG);
      LastTurnIsFair(cycles, met, MAX_LOW_PRIORITY_LAG);
      cycles := cycles + [met];
      if polled.Some? {
        scheduler.UpdateSelectionTime(delta, polled.value.priority);
      }
    }

    lemma LastTurnIsFair(cycles: seq<PortCycle<Key>>, met: PortCycle<Key>, lag: nat)
      requires met.Open?
      ensures IsLowReady(met) && ChoiceOf(BalanceAfter(cycles, lag), met, lag) == ChooseHigh ==>
        BalanceAfter(cycles, lag).spent < 3 * lag
    {
      if IsLowReady(met) && ChoiceOf(BalanceAfter(cycles, lag), met, lag) == ChooseHigh {
        assert (cycles + [met])[..|cycles|] == cycles;
        LagIsBounded(cycles + [met], lag, |cycles|);
      }
    }

    method RescheduleDue(now: int)
      requires IsInOrder()
      modifies this`devices, this`suspended, this`waiting, this`disconnected, scheduler
      ensures IsInOrder() && devices.Keys == old(devices.Keys)
      ensures disconnected == old(disconnected) && OnlyRegistersDiffer(old(devices), devices)
      ensures waiting == [] && forall d :: d in suspended <==> d in old(suspended) && old(suspended)[d] > now
      ensures old(waiting) == [] && (forall d | d in old(suspended) :: old(suspended)[d] > now) ==>
        StateNow() == old(StateNow())
    {
      RescheduleDisconnectedDevices();
      ghost var middle := devices;
      RescheduleDevicesWithSuspendedPoll(now);
      StillOnlyRegisters(old(devices), middle, devices);
    }

    method PollNext(e: OpenPort) returns (polled: Option<Key>, list: seq<int>, ghost c: Cycle, ghost choice: Choice)
      requires IsInOrder()
      modifies this`devices, this`suspended, this`waiting, this`disconnected, scheduler
      ensures IsInOrder() && devices.Keys == old(devices.Keys)
      ensures polled.Some? ==> polled.value in devices && polled.value.device !in suspended
      ensures polled.Some? ==> OfferOf(choice).Some? && polled.value.priority == OfferOf(choice).value.priority
      ensures c.before == old(StateNow()) && c.offer == OfferOf(choice)
      ensures choice == Choose(
        c.before.high, c.before.low, scheduler.balancer.totalTime, scheduler.balancer.totalTimeThreshold, e.now,
        e.Policy())
      ensures c.Yields(e, polled, list, StateNow(), old(disconnected), disconnected)
    {
      var next := scheduler.ChooseNext(e.now, e.Policy());
      choice := next;
      match next
      case ChooseNothing =>
        polled, list := None, [];
        c := Cycle(StateNow(), None, 0, HighKey(0), devices, [], []);
      case ChooseHigh => polled, list, c := ReadNext(e, Offer(High, true, NEVER));
      case ChooseLow(force, pollLimit) => polled, list, c := ReadNext(e, Offer(Low, force, pollLimit));
    }

    method ReadNext(e: OpenPort, offer: Offer) returns (polled: Option<Key>, list: seq<int>, ghost c: Cycle)
      requires IsInOrder() && HasReady(scheduler.QueueOf(offer.priority), e.now)
      modifies this`devices, this`suspended, this`waiting, this`disconnected, scheduler
      ensures IsInOrder() && devices.Keys == old(devices.Keys)
      ensures polled.Some? ==>
        polled.value in devices && polled.value.device !in suspended && polled.value.priority == offer.priority
      ensures c.before == old(StateNow()) && c.offer == Some(offer)
      ensures c.Yields(e, polled, list, StateNow(), old(disconnected), disconnected)
    {
      ghost var full := Full(devices);
      var i, k;
      i, k, list, c := ReadEntry(e, offer);
      polled := if list == [] then None else Some(k);
      // If registers are waiting that do not fit in the poll limit, the entry stays.
      MoveEntry(offer.priority, i, k, e.now, list != [], full);
    }

    /** An entry is replaced by one for the next poll of its part, or stays. */
    method MoveEntry(priority: Priority, i: nat, k: Key, now: int, isRead: bool, ghost full: set<Key>)
      requires Valid() && IsWell(ThePlan(), devices.Keys, full, suspended.Keys)
      requires k in devices && k.device !in suspended && SameElsewhere(full, Full(devices), k)
      requires IsNext(scheduler.QueueOf(priority), now, i, k) && k.priority == priority && IsAlone(ThePlan(), k)
      modifies this`devices, scheduler
      ensures Valid() && Scheduled() && devices.Keys == old(devices.Keys)
      ensures if isRead then IsReplaced(old(StateNow()), StateNow(), i, k, k.device in disconnected, now)
              else StateNow() == old(StateNow())
    {
      if isRead {
        PutPartBack(priority, i, k, now, full);
      } else {
        KeepEntry(k, full);
      }
    }

    /** Reads the part whose entry is next; the entry stays for now. */
    method ReadEntry(e: OpenPort, offer: Offer) returns (i: nat, k: Key, list: seq<int>, ghost c: Cycle)
      requires IsInOrder() && HasReady(scheduler.QueueOf(offer.priority), e.now)
      modifies this`devices, this`waiting, this`disconnected
      ensures Valid() && devices.Keys == old(devices.Keys) && NoneSuspendedWaits()
      ensures IsWell(ThePlan(), devices.Keys, old(Full(devices)), suspended.Keys)
      ensures SameElsewhere(old(Full(devices)), Full(devices), k)
      ensures IsNext(scheduler.QueueOf(offer.priority), e.now, i, k)
      ensures k.priority == offer.priority && k in devices && k.device !in suspended && IsAlone(ThePlan(), k)
      ensures c.before == old(StateNow()) && c.offer == Some(offer) && c.i == i && c.key == k && c.read == devices
      ensures c.Reads(e, list)
      ensures disconnected == if list != [] && e.disconnects then old(disconnected) + {k.device} else old(disconnected)
    {
      i, k := NextKey(offer.priority, e.now);
      ghost var before := StateNow();
      ghost var taken, rest;
      list, taken, rest := ReadPart(k, e, offer.LimitsFor(e));
      c := Cycle(before, Some(offer), i, k, devices, taken, rest);
      NoteDisconnected(k.device, list != [] && e.disconnects);
    }

    method NoteDisconnected(device: nat, disconnects: bool)
      modifies this`waiting, this`disconnected
      ensures old(NoneSuspendedWaits()) ==> NoneSuspendedWaits()
      ensures disconnected == if disconnects then old(disconnected) + {device} else old(disconnected)
    {
      if disconnects {
        OnDeviceDisconnected(device);
      }
    }

    lemma KeepEntry(k: Key, full: set<Key>)
      requires IsWell(ThePlan(), devices.Keys, full, suspended.Keys)
      requires IsAlone(ThePlan(), k) && SameElsewhere(full, Full(devices), k)
      ensures Scheduled()
    {
      StayedOne(ThePlan(), devices.Keys, full, Full(devices), suspended.Keys, k);
    }

    // ----- a closed port -----

    ghost function FailingAt(now: int): Failing
      reads this`devices, this`disconnected, scheduler
    {
      Failing(devices, Due(now), Ready(now), disconnected)
    }

    /**
     One cycle with a closed port: due registers fail, one part in each round, until nothing is due or a due part has no
     due register.  The cycle comes to an end if, from some round on, failing disconnects the devices of all parts that
     can get stuck.  If every due part has due registers, all parts that were due have failed in the end.
     */
    method ClosedPortCycle(now: int, disconnects: Disconnects, ghost from: nat) returns (ghost rounds: Rounds)
      requires IsBalanced() && IsInOrder()
      requires forall k | k in devices && CanStick(devices[k], k.device in disconnected, now) ::
        IsGivenUp(disconnects, from, k.device)
      modifies this, scheduler, scheduler.balancer
      ensures IsBalanced() && IsInOrder() && devices.Keys == old(devices.Keys)
      ensures cycles == old(cycles) + [Closed]
      ensures rounds.Valid(now, disconnects)
      ensures OnlyRegistersDiffer(old(devices), rounds.First().parts) && rounds.First().disconnected == old(disconnected)
      ensures IsEndOf(rounds, now)
    {
      scheduler.balancer.Reset();
      OneMoreTurn(cycles, Closed, MAX_LOW_PRIORITY_LAG);
      cycles := cycles + [Closed];
      RescheduleDue(now);
      NoneCanStick(old(devices), FailingAt(now), now, disconnects, from);
      rounds := FailReady(now, disconnects, from);
    }

    /** What is known when rounds have come to their end. */
    ghost predicate IsEndOf(rounds: Rounds, now: int)
      requires rounds.states != []
      reads this`devices, this`disconnected, scheduler
    {
      && rounds.Last().IsOver(now)
      && (rounds.First().DueHaveRegisters(now) ==>
            && FailingAt(now) == rounds.Last()
            && forall k | k in devices :: !Due(now)(k) && (rounds.First().due(k) ==> k in rounds.failed))
    }

    /** Registers fail until the rounds are over. */
    method FailReady(now: int, disconnects: Disconnects, ghost from: nat) returns (ghost rounds: Rounds)
      requires IsInOrder() && FailingAt(now).AreGivenUp(now, disconnects, from)
      modifies this`devices, this`suspended, this`waiting, this`disconnected, scheduler
      ensures IsInOrder() && devices.Keys == old(devices.Keys)
      ensures rounds.Valid(now, disconnects) && rounds.First() == old(FailingAt(now))
      ensures IsEndOf(rounds, now)
    {
      rounds := Rounds([FailingAt(now)], []);
      var more, round := true, 0;
      while more
        invariant IsInOrder() && devices.Keys == old(devices.Keys)
        invariant rounds.Valid(now, disconnects) && rounds.First() == old(FailingAt(now))
        invariant rounds.First().DueHaveRegisters(now) ==> rounds.Last().DueHaveRegisters(now)
        invariant more ==> round == |rounds.failed| && rounds.Last() == FailingAt(now)
        invariant more ==> FailingAt(now).AreGivenUp(now, disconnects, from)
        invariant !more ==> IsEndOf(rounds, now)
        decreases more, if round < from then from - round else 0, Ready(now), |Undelayed(devices)|
      {
        more, rounds := FailOnce(now, disconnects, round, from, rounds);
        round := round + 1;
      }
    }

    /** One more round, or the last look at what is due. */
    method FailOnce(now: int, disconnects: Disconnects, round: nat, ghost from: nat, ghost before: Rounds)
      returns (more: bool, ghost rounds: Rounds)
      requires IsInOrder() && FailingAt(now).AreGivenUp(now, disconnects, from)
      requires before.Valid(now, disconnects) && round == |before.failed| && before.Last() == FailingAt(now)
      requires before.First().DueHaveRegisters(now) ==> before.Last().DueHaveRegisters(now)
      modifies this`devices, this`suspended, this`waiting, this`disconnected, scheduler
      ensures IsInOrder() && devices.Keys == old(devices.Keys)
      ensures rounds.Valid(now, disconnects) && rounds.First() == before.First()
      ensures rounds.First().DueHaveRegisters(now) ==> rounds.Last().DueHaveRegisters(now)
      ensures if more then
                && |rounds.failed| == round + 1 && rounds.Last() == FailingAt(now)
                && FailingAt(now).AreGivenUp(now, disconnects, from)
              else IsEndOf(rounds, now)
      ensures more && from <= round ==>
        (Ready(now) < old(Ready(now)) ||
         (Ready(now) == old(Ready(now)) && |Undelayed(devices)| < old(|Undelayed(devices)|)))
    {
      ghost var a, k := FailingAt(now), HighKey(0);
      more, k := FailNextPart(now, disconnects, round);
      rounds := before;
      if more {
        ghost var b := FailingAt(now);
        GivenUpStill(a, b, now, disconnects, round, k, from);
        if from <= round {
          RoundEnds(a, b, now, disconnects, round, k, from);
        }
        if a.DueHaveRegisters(now) {
          DueStillHaveRegisters(a, b, now, disconnects, round, k);
        }
        OneMoreRound(before, now, disconnects, b, k);
        rounds := before.Then(b, k);
      } else if before.First().DueHaveRegisters(now) {
        forall j | j in devices && before.First().due(j) ensures j in before.failed {
          DueHasFailed(before, now, disconnects, j);
        }
      }
    }

    /**
     Where some part is stuck whose device is not disconnected, there is no end to it: any number of rounds comes about,
     and the part is still stuck after them.
     */
    method FailOften(n: nat, now: int, disconnects: Disconnects, ghost stuck: Key) returns (ghost rounds: Rounds)
      requires IsInOrder() && FailingAt(now).Sticks(stuck, now) && FailingAt(now).DueHaveRegisters(now)
      requires forall round: nat | round < n :: !disconnects(round, stuck.device)
      modifies this`devices, this`suspended, this`waiting, this`disconnected, scheduler
      ensures IsInOrder()
      ensures rounds.Valid(now, disconnects) && |rounds.failed| == n
      ensures rounds.First() == old(FailingAt(now)) && rounds.Last() == FailingAt(now)
      ensures FailingAt(now).Sticks(stuck, now) && FailingAt(now).DueHaveRegisters(now)
    {
      rounds := Rounds([FailingAt(now)], []);
      for i := 0 to n
        invariant IsInOrder() && FailingAt(now).Sticks(stuck, now) && FailingAt(now).DueHaveRegisters(now)
        invariant rounds.Valid(now, disconnects) && |rounds.failed| == i
        invariant rounds.First() == old(FailingAt(now)) && rounds.Last() == FailingAt(now)
      {
        ghost var a := FailingAt(now);
        assert a.due(stuck) && HasReady(a.parts[stuck].registers, now);
        var more;
        ghost var k;
        more, k := FailNextPart(now, disconnects, i);
        ghost var b := FailingAt(now);
        StuckStays(a, b, now, disconnects, i, k, stuck);
        DueStillHaveRegisters(a, b, now, disconnects, i, k);
        OneMoreRound(rounds, now, disconnects, b, k);
        rounds := rounds.Then(b, k);
      }
    }

    /** One round, which is the last one if nothing was due, or only the entry of a part without due registers. */
    method FailNextPart(now: int, disconnects: Disconnects, round: nat) returns (more: bool, ghost k: Key)
      requires IsInOrder()
      modifies this`devices, this`suspended, this`waiting, this`disconnected, scheduler
      ensures IsInOrder() && devices.Keys == old(devices.Keys)
      ensures more ==> FailsOne(old(FailingAt(now)), FailingAt(now), now, disconnects, round, k)
      ensures !more ==> old(FailingAt(now)).IsOver(now)
      ensures !more && old(FailingAt(now)).DueHaveRegisters(now) ==>
        FailingAt(now) == old(FailingAt(now)) && FailingAt(now).NothingIsDue()
    {
      k := HighKey(0);
      var choice := scheduler.ChooseNext(now, All);
      match choice
      case ChooseNothing => more := false;
      case ChooseHigh => more, k := FailNext(High, now, disconnects, round);
      case ChooseLow(_, _) => more, k := FailNext(Low, now, disconnects, round);
    }

    method FailNext(priority: Priority, now: int, disconnects: Disconnects, round: nat)
      returns (more: bool, ghost k: Key)
      requires IsInOrder() && HasReady(scheduler.QueueOf(priority), now)
      modifies this`devices, this`suspended, this`waiting, this`disconnected, scheduler
      ensures IsInOrder() && devices.Keys == old(devices.Keys)
      ensures k in devices && old(FailingAt(now)).due(k) && (more <==> HasReady(old(devices)[k].registers, now))
      ensures more ==> FailsOne(old(FailingAt(now)), FailingAt(now), now, disconnects, round, k)
    {
      ghost var a := FailingAt(now);
      var i, key := NextKey(priority, now);
      k := key;
      ghost var full := Full(devices);
      more := FailAndNote(key, now, disconnects, round);
      ghost var b := FailingAt(now);
      PutPartBack(priority, i, key, now, full);
      if more {
        PartFailed(a, b, FailingAt(now), now, disconnects, round, k);
      }
    }

    method FailAndNote(k: Key, now: int, disconnects: Disconnects, round: nat) returns (more: bool)
      requires IsInOrder() && k in devices
      modifies this`devices, this`waiting, this`disconnected
      ensures Valid() && devices.Keys == old(devices.Keys) && NoneSuspendedWaits()
      ensures SameElsewhere(old(Full(devices)), Full(devices), k)
      ensures IsWell(ThePlan(), devices.Keys, old(Full(devices)), suspended.Keys)
      ensures more <==> HasReady(old(devices)[k].registers, now)
      ensures more ==> AllFail(old(FailingAt(now)), FailingAt(now), now, disconnects, round, k)
    {
      var list := FailPart(k, now);
      more := list != [];
      assert NoneSuspendedWaits();
      NoteDisconnected(k.device, more && disconnects(round, k.device) && k.device !in disconnected);
    }

    method FailPart(k: Key, now: int) returns (list: seq<int>)
      requires Valid() && k in devices
      modifies this`devices
      ensures Valid() && devices.Keys == old(devices.Keys)
      ensures SameElsewhere(old(Full(devices)), Full(devices), k)
      ensures list != [] <==> HasReady(old(devices)[k].registers, now)
      ensures RegistersFail(old(devices), devices, k, now)
    {
      var part := devices[k];
      assert IsPart(k, part);
      ghost var dropped;
      ghost var rest;
      part, list, rest, dropped := MarkWaitingRegistersAsReadErrorAndReschedule(part, now);
      FullChanged(devices, k, part);
      assert IsPart(k, part);
      devices := devices[k := part];
    }
  }

  // ----- what can go wrong -----

  /** A device with one register of low priority. */
  function OneRegister(readRateLimit: Option<int>): ListedDevice {
    ListedDevice(
      DeviceView(1, DeviceConfig(0, 0, 1, 1, 0, 0, 0, false), false, false, false), 0,
      [RegisterConfig(Holding, U16, 2, 0, 0, 0, 0, ReadWrite, BigEndianWords, BigEndianBytes, None, readRateLimit,
                      None, None)],
      [Flags(Availability.Unknown, false, Undefined)])
  }

  lemma OneRegisterIsPolled(readRateLimit: Option<int>)
    ensures OneRegister(readRateLimit).RegistryOf(Low).Polls(0)
    ensures HasPart([OneRegister(readRateLimit)], LowKey(0))
  {
    assert [OneRegister(readRateLimit)][LowKey(0).device].RegistryOf(Low).Polls(0);
  }

  lemma DeviceIsKnown(parts: Parts, readRateLimit: Option<int>)
    requires ArePartsOf(parts, [OneRegister(readRateLimit)], 0)
    ensures IsKnown(parts.Keys, 0)
  {
    OneRegisterIsPolled(readRateLimit);
    assert LowKey(0) in parts.Keys;
  }

  /** All parts of a new poller have due registers. */
  lemma NewPartsAreReady(parts: Parts, list: seq<ListedDevice>, now: int, k: Key, id: int)
    requires ArePartsOf(parts, list, now) && k in parts
    ensures HasReady(parts[k].registers, now)
    ensures parts[k].registry.Polls(id) ==> IsReadyIn(parts[k].registers, id, now)
  {
    var registers := parts[k].registers;
    assert registers[0] in registers;
    if parts[k].registry.Polls(id) {
      assert id in Items(registers);
      IsQueued(registers, id);
      var i :| 0 <= i < |registers| && registers[i].data == id;
      assert registers[i] in registers;
    }
  }

  /** A part with a register without a period, which is due. */
  lemma ZeroLimitSticks(f: Failing, list: seq<ListedDevice>, now: int)
    requires list == [OneRegister(Some(0))] && ArePartsOf(f.parts, list, now)
    requires f.disconnected == {} && AreDue(f.due, f.parts.Keys)
    ensures f.Sticks(LowKey(0), now) && f.DueHaveRegisters(now)
  {
    OneRegisterIsPolled(Some(0));
    NewPartsAreReady(f.parts, list, now, LowKey(0), 0);
    assert f.parts[LowKey(0)].registry.StaysDue(0);
    forall k | k in f.parts ensures HasReady(f.parts[k].registers, now) {
      NewPartsAreReady(f.parts, list, now, k, 0);
    }
  }

  /** The only device of a port is disconnected when so many of its transfers have failed at their times. */
  function OneDevice(s: Settings, times: nat -> int): Disconnects {
    (round: nat, device: nat) =>
      AfterFailures(s, Connection(ConnectionState.Unknown, 0, 0), seq(round + 1, (i: nat) => times(i))).state == Disconnected
  }

  /** It is disconnected in a round exactly if this is tracked and the timeout has passed by then. */
  lemma OneDeviceExactly(s: Settings, times: nat -> int, round: nat, device: nat)
    ensures OneDevice(s, times)(round, device)
            <==> s.timeout >= 0 && s.maxFailCycles >= 0 && exists i: nat | i <= round :: times(i) > s.timeout
  {
    var c, list := Connection(ConnectionState.Unknown, 0, 0), seq(round + 1, (i: nat) => times(i));
    DisconnectedExactly(s, c, list);
    if i: nat :| i <= round && times(i) > s.timeout {
      assert IsTooMany(s, c, list, i);
    }
  }

  /** Its parts are given up once its failures go on for longer than the timeout. */
  lemma GivenUpInTime(s: Settings, times: nat -> int, from: nat, device: nat)
    requires s.IsTracking() && times(from) > s.timeout
    ensures IsGivenUp(OneDevice(s, times), from, device)
  {
    forall round: nat | from <= round ensures OneDevice(s, times)(round, device) {
      OneDeviceExactly(s, times, round, device);
    }
  }

  lemma NeverDisconnected(s: Settings, times: nat -> int)
    requires !s.IsTracking()
    ensures forall round: nat, device: nat :: !OneDevice(s, times)(round, device)
  {
    forall round: nat, device: nat ensures !OneDevice(s, times)(round, device) {
      OneDeviceExactly(s, times, round, device);
    }
  }

  method NewPoller(device: ListedDevice) returns (p: Poller)
    requires device.IsSound()
    ensures fresh(p) && fresh(p.scheduler) && fresh(p.scheduler.balancer) && p.IsBalanced() && p.IsInOrder()
    ensures p.suspended == map[] && p.waiting == [] && p.disconnected == {}
    ensures ArePartsOf(p.devices, [device], 0) && AreDue(p.Due(0), p.devices.Keys)
  {
    p := new Poller([device], 0);
  }

  /**
   With a rate limit of zero, and settings that do not let a device count as disconnected, a closed cycle has no end: any
   number of rounds comes about, and the part is still due.
   */
  method EndlessCycle(n: nat, settings: Settings, times: nat -> int) returns (p: Poller, ghost rounds: Rounds)
    requires !settings.IsTracking()
    ensures rounds.Valid(0, OneDevice(settings, times)) && |rounds.failed| == n
    ensures ArePartsOf(rounds.First().parts, [OneRegister(Some(0))], 0) && rounds.First().disconnected == {}
    ensures rounds.Last() == p.FailingAt(0) && p.FailingAt(0).Sticks(LowKey(0), 0)
  {
    p := NewPoller(OneRegister(Some(0)));
    ZeroLimitSticks(p.FailingAt(0), [OneRegister(Some(0))], 0);
    NeverDisconnected(settings, times);
    rounds := p.FailOften(n, 0, OneDevice(settings, times), LowKey(0));
  }

  /** With settings that let it be disconnected the same cycle ends: some failure comes later than the timeout. */
  method EndingCycle(settings: Settings, times: nat -> int, ghost from: nat) returns (p: Poller, ghost rounds: Rounds)
    requires settings.IsTracking() && times(from) > settings.timeout
    ensures rounds.Valid(0, OneDevice(settings, times)) && p.IsEndOf(rounds, 0)
  {
    p := NewPoller(OneRegister(Some(0)));
    forall device ensures IsGivenUp(OneDevice(settings, times), from, device) {
      GivenUpInTime(settings, times, from, device);
    }
    rounds := p.ClosedPortCycle(0, OneDevice(settings, times), from);
  }

  // ----- a suspended device that is polled -----

  /** What matters of a poller when devices are disconnected and suspended. */
  datatype Pause = Pause(waiting: seq<nat>, suspended: map<nat, int>, isRight: bool)

  ghost function PauseOf(p: Poller): Pause
    reads p, p.scheduler
  {
    Pause(p.waiting, p.suspended, p.Scheduled())
  }

  /**
   A device that is disconnected and then suspended is scheduled again by the next cycle, whatever the poller: the notice
   of the disconnection is still there.
   */
  method DisconnectThenSuspend(p: Poller, device: nat, now: int)
      returns (ghost noticed: Pause, ghost suspended: Pause)
    requires p.IsInOrder() && IsKnown(p.devices.Keys, device) && device !in p.suspended
    modifies p, p.scheduler
    ensures old(PauseOf(p)).isRight
    ensures noticed == old(PauseOf(p)).(waiting := old(p.waiting) + [device])
    ensures suspended == noticed.(suspended := old(p.suspended)[device := now + SUSPEND_POLL_TIMEOUT])
    ensures PauseOf(p) == suspended.(waiting := [], isRight := false)
  {
    p.OnDeviceDisconnected(device);
    noticed := PauseOf(p);
    var ok := p.SuspendPoll(device, now);
    suspended := PauseOf(p);
    assert device in p.waiting && device in p.suspended && IsKnown(p.devices.Keys, device);
    p.RescheduleDisconnectedDevices();
  }

  method SuspendFirst(p: Poller) returns (ghost noticed: Pause, ghost suspended: Pause)
    requires p.IsInOrder() && IsKnown(p.devices.Keys, 0) && p.suspended == map[] && p.waiting == []
    modifies p, p.scheduler
    ensures noticed == Pause([0], map[], true)
    ensures suspended == Pause([0], map[0 := SUSPEND_POLL_TIMEOUT], true)
    ensures PauseOf(p) == Pause([], map[0 := SUSPEND_POLL_TIMEOUT], false)
  {
    noticed, suspended := DisconnectThenSuspend(p, 0, 0);
  }

  /** So it is with a poller of one device right from the start. */
  method SuspendedIsPolled() returns (p: Poller, ghost noticed: Pause, ghost suspended: Pause)
    ensures noticed == Pause([0], map[], true)
    ensures suspended == Pause([0], map[0 := SUSPEND_POLL_TIMEOUT], true)
    ensures PauseOf(p) == Pause([], map[0 := SUSPEND_POLL_TIMEOUT], false)
  {
    p := NewPoller(OneRegister(None));
    DeviceIsKnown(p.devices, None);
    noticed, suspended := SuspendFirst(p);
  }
}
