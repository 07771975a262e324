/**
 A port is shared by two tasks: reading events and polling registers.  Whatever a cycle does, polling
 stays scheduled exactly once.
 */
module PollingCycle {
  import opened Common
  import opened PollPlan

  datatype TaskType = Polling | Events

  /** What a cycle finds: the time, and what the reads of events and registers report, in microseconds. */
  datatype Cycle = Cycle(
    now: int,
    idleTime: nat,
    spentTime: nat,
    hasDevicesWithEvents: bool,
    hasDevicesWithEventsAfter: bool,
    pollDeadline: int,
    notEnoughTime: bool)

  /** What a cycle ran, if anything was ready. */
  datatype Done = Nothing | EventsRead | Polled(force: bool, pollLimit: int)

  const BALANCING_THRESHOLD: nat := 500

  class RegisterAndEventsReader {
    const timeBalancer: Scheduler<TaskType>
    const readEventsPeriod: nat
    var lastCycleWasTooSmallToPoll: bool

    /** Polling is scheduled exactly once, reading events at most once, each in its own queue. */
    ghost predicate Valid()
      reads this, timeBalancer, timeBalancer.balancer
    {
      && timeBalancer.Valid()
      && |timeBalancer.low| == 1 && timeBalancer.low[0].data == Polling
      && (timeBalancer.high == [] || (|timeBalancer.high| == 1 && timeBalancer.high[0].data == Events))
    }

    constructor (readEventsPeriod: nat, now: int)
      ensures Valid() && timeBalancer.high == [] && fresh(timeBalancer) && fresh(timeBalancer.balancer)
    {
      this.readEventsPeriod := readEventsPeriod;
      timeBalancer := new Scheduler(BALANCING_THRESHOLD);
      lastCycleWasTooSmallToPoll := false;
      new;
      timeBalancer.AddEntry(Polling, now, Low);
    }

    /** A task is taken from the queue; the handler accepts whatever it is offered. */
    method TakeAll(priority: Priority, now: int)
      requires Valid() && HasReady(timeBalancer.QueueOf(priority), now)
      modifies timeBalancer
      ensures timeBalancer.low == if priority == Low then [] else old(timeBalancer.low)
      ensures timeBalancer.high == if priority == High then [] else old(timeBalancer.high)
    {
      while HasReady(timeBalancer.QueueOf(priority), now)
        invariant timeBalancer.QueueOf(priority) == [] || unchanged(timeBalancer)
        invariant timeBalancer.low == old(timeBalancer.low) || (priority == Low && timeBalancer.low == [])
        invariant timeBalancer.high == old(timeBalancer.high) || (priority == High && timeBalancer.high == [])
        decreases |timeBalancer.QueueOf(priority)|
      {
        var i := GetTop(timeBalancer.QueueOf(priority));
        timeBalancer.Pop(priority, i);
      }
    }

    /**
     One cycle with an open port.  Polling is put back whenever it was taken; reading events is scheduled after the
     cycle exactly if it still was or if there are devices with events.
     */
    method OpenPortCycle(c: Cycle) returns (done: Done)
      requires Valid()
      modifies this, timeBalancer, timeBalancer.balancer
      ensures Valid()
      ensures done.Polled? ==>
        && timeBalancer.low == [Entry(Polling, c.pollDeadline)]
        && (timeBalancer.high != [] <==> old(timeBalancer.high) != [] || c.hasDevicesWithEventsAfter)
        && lastCycleWasTooSmallToPoll == c.notEnoughTime
      ensures done.EventsRead? ==>
        && timeBalancer.low == old(timeBalancer.low)
        && (timeBalancer.high != [] <==> c.hasDevicesWithEvents)
        && lastCycleWasTooSmallToPoll == old(lastCycleWasTooSmallToPoll)
      ensures done.Nothing? ==>
        && timeBalancer.low == old(timeBalancer.low) && timeBalancer.high == old(timeBalancer.high)
        && !HasReady(timeBalancer.low, c.now) && !HasReady(timeBalancer.high, c.now)
      // When polling is due, it waits for events for less than the threshold only.
      ensures done.EventsRead? && HasReady(old(timeBalancer.low), c.now) ==>
        Min(old(timeBalancer.balancer.totalTime) + (if old(lastCycleWasTooSmallToPoll) then CeilToMilliseconds(c.idleTime) else 0),
            timeBalancer.balancer.maxTotalTime) < timeBalancer.balancer.totalTimeThreshold
    {
      if lastCycleWasTooSmallToPoll {
        timeBalancer.UpdateSelectionTime(CeilToMilliseconds(c.idleTime), High);
      }
      var choice := timeBalancer.ChooseNext(c.now, All);
      match choice
      case ChooseNothing => return Nothing;
      case ChooseHigh =>
        TakeAll(High, c.now);
        if c.hasDevicesWithEvents {
          timeBalancer.UpdateSelectionTime(CeilToMilliseconds(c.spentTime), High);
          timeBalancer.AddEntry(Events, c.now + readEventsPeriod, High);
        }
        return EventsRead;
      case ChooseLow(force, pollLimit) =>
        TakeAll(Low, c.now);
        timeBalancer.AddEntry(Polling, c.pollDeadline, Low);
        lastCycleWasTooSmallToPoll := c.notEnoughTime;
        if !c.notEnoughTime {
          timeBalancer.UpdateSelectionTime(CeilToMilliseconds(c.spentTime), Low);
        }
        if c.hasDevicesWithEventsAfter && timeBalancer.high == [] {
          timeBalancer.AddEntry(Events, c.now + readEventsPeriod, High);
        }
        return Polled(force, pollLimit);
    }
  }
}
