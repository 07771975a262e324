/**
 The registers of a device that are polled with one priority: reading them takes them out of their
 queue and puts them back, and none is lost that still has to be read.
 */
module PollableDevices {
  import opened Common
  import opened ModbusRange
  import opened ModbusRangeLaws
  import opened PollPlan
  import opened Registers

  // ----- one register -----

  /** What polling keeps of a register. */
  datatype Flags = Flags(available: Availability, excluded: bool, value: RegisterValue)

  /** What reading a register brings; some devices tell that they do not support it. */
  datatype Reading = Got(value: RegisterValue) | NotSupported(value: RegisterValue) | Failed(unavailable: bool)

  /** An unavailable register is not polled any more. */
  predicate UnavailableIsExcluded(f: Flags) {
    f.available == Unavailable ==> f.excluded
  }

  function AfterReading(c: RegisterConfig, f: Flags, reading: Reading): (r: Flags)
    ensures UnavailableIsExcluded(f) ==> UnavailableIsExcluded(r)
    ensures f.excluded ==> r.excluded
  {
    match reading
    case Got(value) =>
      if c.unsupportedValue == Some(value) then Flags(Unavailable, true, value)
      else Flags(Available, f.excluded, value)
    case NotSupported(value) => Flags(Available, true, value)
    case Failed(unavailable) => if unavailable then Flags(Unavailable, true, f.value) else f
  }

  ghost function FlagsOf(reg: Register): Flags
    reads reg
  {
    Flags(reg.available, reg.excludedFromPolling, reg.value)
  }

  /** A register that gets a value has the flags of one that was read. */
  method GetValue(reg: Register, value: RegisterValue)
    modifies reg
    ensures FlagsOf(reg) == AfterReading(reg.config, old(FlagsOf(reg)), Got(value))
  {
    reg.SetValue(value);
  }

  /** A register that turns out to be unavailable has the flags of one that was read so. */
  method GetUnavailable(reg: Register)
    modifies reg
    ensures FlagsOf(reg) == AfterReading(reg.config, old(FlagsOf(reg)), Failed(true))
  {
    reg.SetAvailable(Unavailable);
  }

  predicate IsPolled(c: RegisterConfig, priority: Priority) {
    c.IsHighPriority() == (priority == High) && c.accessType != WriteOnly
  }

  const MICROSECONDS := 1000

  /** The time after which a register is due again, unless it is excluded from polling. */
  function Period(c: RegisterConfig, priority: Priority): int
    requires IsPolled(c, priority)
  {
    if priority == High then c.readPeriod.value * MICROSECONDS
    else if c.readRateLimit.Some? then c.readRateLimit.value * MICROSECONDS
    else 1
  }

  /** When a register is polled again, unless it is not. */
  function NextPoll(c: RegisterConfig, priority: Priority, f: Flags, now: int): (r: Option<int>)
    requires IsPolled(c, priority)
    ensures r.Some? && r.value <= now <==> !f.excluded && Period(c, priority) <= 0
    ensures r.None? <==> f.excluded && f.value != Undefined
  {
    if f.excluded then if f.value == Undefined then Some(now + 1) else None
    else Some(now + Period(c, priority))
  }

  // ----- putting back -----

  /** The entries of the items that go back to their queue. */
  function PutBack<T>(range: seq<T>, next: seq<Option<int>>): Queue<T>
    requires |range| == |next|
  {
    if range == [] then []
    else
      var n := |range| - 1;
      PutBack(range[..n], next[..n]) + if next[n].Some? then [Entry(range[n], next[n].value)] else []
  }

  /** The items that do not go back. */
  function Dropped<T>(range: seq<T>, next: seq<Option<int>>): seq<T>
    requires |range| == |next|
  {
    if range == [] then []
    else
      var n := |range| - 1;
      Dropped(range[..n], next[..n]) + if next[n].None? then [range[n]] else []
  }

  lemma AllButLast<A>(s: seq<A>)
    requires s != []
    ensures multiset(s) == multiset(s[..|s| - 1]) + multiset{s[|s| - 1]}
  {
    assert s == s[..|s| - 1] + [s[|s| - 1]];
  }

  lemma OneMoreLast<A>(s: seq<A>, x: A)
    ensures multiset(s + [x]) == multiset(s) + multiset{x}
  {
  }

  lemma OneMore<A>(a: multiset<A>, b: multiset<A>, c: multiset<A>, x: A)
    requires a + b == c
    ensures (a + multiset{x}) + b == c + multiset{x}
    ensures b + (a + multiset{x}) == c + multiset{x}
  {
  }

  /** Every item goes back or is dropped. */
  lemma {:induction false} PutBackOrDropped<T>(range: seq<T>, next: seq<Option<int>>)
    requires |range| == |next|
    ensures Items(PutBack(range, next)) + multiset(Dropped(range, next)) == multiset(range)
  {
    if range != [] {
      var n := |range| - 1;
      var back, gone := PutBack(range[..n], next[..n]), Dropped(range[..n], next[..n]);
      PutBackOrDropped(range[..n], next[..n]);
      AllButLast(range);
      LastBackOrDropped(
        back, gone, multiset(range[..n]), range[n], next[n], PutBack(range, next), Dropped(range, next));
    }
  }

  lemma {:induction false} LastBackOrDropped<T>(
      back: Queue<T>, gone: seq<T>, front: multiset<T>, x: T, next: Option<int>, newBack: Queue<T>, newGone: seq<T>)
    requires Items(back) + multiset(gone) == front
    requires newBack == back + if next.Some? then [Entry(x, next.value)] else []
    requires newGone == gone + if next.None? then [x] else []
    ensures Items(newBack) + multiset(newGone) == front + multiset{x}
  {
    if next.Some? {
      PutIn(back, Entry(x, next.value), 0);
      assert newGone == gone;
      OneMore(Items(back), multiset(gone), front, x);
    } else {
      OneMoreLast(gone, x);
      assert newBack == back;
      OneMore(multiset(gone), Items(back), front, x);
    }
  }

  predicate DroppedAt<T(==)>(range: seq<T>, next: seq<Option<int>>, x: T, i: nat)
    requires i < |range| == |next|
  {
    range[i] == x && next[i].None?
  }

  lemma {:induction false} DroppedHasNoNext<T>(range: seq<T>, next: seq<Option<int>>, x: T) returns (i: nat)
    requires |range| == |next| && x in Dropped(range, next)
    ensures i < |range| && DroppedAt(range, next, x, i)
  {
    var n := |range| - 1;
    if x in Dropped(range[..n], next[..n]) {
      i := DroppedHasNoNext(range[..n], next[..n], x);
      assert DroppedAt(range[..n], next[..n], x, i);
    } else {
      i := n;
    }
  }

  predicate IsPutBackAt<T(==)>(range: seq<T>, next: seq<Option<int>>, e: Entry<T>, i: nat)
    requires |range| == |next|
  {
    i < |range| && range[i] == e.data && next[i] == Some(e.deadline)
  }

  /** Exactly the items with a next time go back, and they are due at that time. */
  lemma {:induction false} PutBackExactly<T>(range: seq<T>, next: seq<Option<int>>, e: Entry<T>)
    requires |range| == |next|
    ensures e in PutBack(range, next) <==> exists i :: IsPutBackAt(range, next, e, i)
  {
    if range != [] {
      var n := |range| - 1;
      PutBackExactly(range[..n], next[..n], e);
      if i: nat :| IsPutBackAt(range[..n], next[..n], e, i) {
        assert IsPutBackAt(range, next, e, i);
      }
      if next[n] == Some(e.deadline) && range[n] == e.data {
        assert IsPutBackAt(range, next, e, n);
      }
      if i: nat :| IsPutBackAt(range, next, e, i) && i < n {
        assert IsPutBackAt(range[..n], next[..n], e, i);
      }
    }
  }

  lemma MoveAside<A>(a: multiset<A>, rest: multiset<A>, list: multiset<A>, skipped: multiset<A>, all: multiset<A>, x: A)
    requires a == rest + multiset{x} && a + list + skipped == all
    ensures rest + (list + multiset{x}) + skipped == all
    ensures rest + list + (skipped + multiset{x}) == all
  {
  }

  // ----- the registers of a device -----

  /** Registers, known by their places in the list of their device, as far as polling is concerned. */
  datatype Registry = Registry(configs: seq<RegisterConfig>, flags: seq<Flags>, priority: Priority)
  {
    predicate IsSound() {
      |flags| == |configs| && forall id | 0 <= id < |flags| :: IsSoundAt(id)
    }

    predicate IsSoundAt(id: int)
      requires 0 <= id < |flags|
    {
      UnavailableIsExcluded(flags[id])
    }

    predicate Polls(id: int) {
      0 <= id < |configs| && IsPolled(configs[id], priority)
    }

    predicate IsExcluded(id: int) {
      0 <= id < |flags| && flags[id].excluded
    }

    predicate IsDone(id: int) {
      IsExcluded(id) && flags[id].value != Undefined
    }

    predicate IsUnavailable(id: int) {
      0 <= id < |flags| && flags[id].available == Unavailable
    }

    /** A register without a period is due again as soon as it goes back to the queue. */
    predicate StaysDue(id: int) {
      Polls(id) && !IsExcluded(id) && Period(configs[id], priority) <= 0
    }

    ghost predicate LacksPeriod() {
      exists id :: Polls(id) && Period(configs[id], priority) <= 0
    }

    function NextPollOf(id: int, now: int): (r: Option<int>)
      ensures IsSound() ==> (r.Some? && r.value <= now <==> StaysDue(id))
      ensures r.None? && Polls(id) && IsSound() ==> IsDone(id)
    {
      if |flags| == |configs| && Polls(id) then NextPoll(configs[id], priority, flags[id], now) else None
    }

    function NextPolls(list: seq<int>, now: int): (r: seq<Option<int>>)
      ensures |r| == |list|
      ensures forall i | 0 <= i < |list| :: r[i] == NextPollOf(list[i], now)
    {
      seq(|list|, i requires 0 <= i < |list| => NextPollOf(list[i], now))
    }

    /** A register is queued at most once, and it is one that is polled. */
    ghost predicate IsUnique(items: multiset<int>) {
      forall id | id in items :: Polls(id) && items[id] == 1
    }

    /** Besides, a register that is not queued is excluded from polling. */
    ghost predicate NoneIsLost(items: multiset<int>) {
      forall id | Polls(id) :: id in items || IsExcluded(id)
    }
  }

  /** Registers that left the queue and did not come back did so rightly; the rest follows. */
  lemma NoneGetsLost(r: Registry, after: Registry, before: multiset<int>, items: multiset<int>, dropped: multiset<int>)
    requires after.configs == r.configs && after.priority == r.priority
    requires r.IsUnique(before) && r.NoneIsLost(before) && items + dropped == before
    requires forall id | r.IsExcluded(id) :: after.IsExcluded(id)
    requires forall id | id in dropped :: after.IsExcluded(id)
    ensures after.IsUnique(items) && after.NoneIsLost(items)
  {
    forall id | id in items ensures after.Polls(id) && items[id] == 1 {
      assert id in before && r.Polls(id) && items[id] <= before[id];
    }
    forall id | after.Polls(id) ensures id in items || after.IsExcluded(id) {
      assert r.Polls(id);
      if id in before && id !in items {
        assert dropped[id] == 1;
      }
    }
  }

  /** What is not to be polled again is done. */
  lemma {:induction false} DroppedAreDone(r: Registry, list: seq<int>, now: int)
    requires r.IsSound() && forall i | 0 <= i < |list| :: r.Polls(list[i])
    ensures forall id | id in Dropped(list, r.NextPolls(list, now)) :: r.IsDone(id)
  {
    var next := r.NextPolls(list, now);
    forall id | id in Dropped(list, next) ensures r.IsDone(id) {
      var i := DroppedHasNoNext(list, next, id);
      assert next[i] == r.NextPollOf(list[i], now);
    }
  }

  /** Of the registers that are put back, one is due again if and only if it has no period. */
  lemma {:induction false} DueWhenPutBack(r: Registry, list: seq<int>, now: int, id: int)
    requires r.IsSound()
    ensures IsReadyIn(PutBack(list, r.NextPolls(list, now)), id, now) <==> id in list && r.StaysDue(id)
  {
    var next := r.NextPolls(list, now);
    if e :| e in PutBack(list, next) && e.data == id && e.deadline <= now {
      PutBackExactly(list, next, e);
      var i: nat :| IsPutBackAt(list, next, e, i);
      assert next[i] == r.NextPollOf(list[i], now);
    }
    if id in list && r.StaysDue(id) {
      var i: nat :| i < |list| && list[i] == id;
      assert next[i] == r.NextPollOf(list[i], now);
      var e := Entry(id, next[i].value);
      assert IsPutBackAt(list, next, e, i);
      PutBackExactly(list, next, e);
    }
  }

  /** So a queue of registers that are put back is ready at once if and only if some register has no period. */
  lemma {:induction false} ReadyWhenPutBack(r: Registry, list: seq<int>, now: int)
    requires r.IsSound()
    ensures (exists e | e in PutBack(list, r.NextPolls(list, now)) :: e.deadline <= now)
      <==> exists id | id in list :: r.StaysDue(id)
  {
    var back := PutBack(list, r.NextPolls(list, now));
    if e :| e in back && e.deadline <= now {
      DueWhenPutBack(r, list, now, e.data);
      assert IsReadyIn(back, e.data, now);
    }
    if id :| id in list && r.StaysDue(id) {
      DueWhenPutBack(r, list, now, id);
    }
  }

  method ScheduleNextPoll(r: Registry, queue: Queue<int>, id: int, now: int) returns (after: Queue<int>)
    requires r.IsSound() && r.Polls(id)
    ensures var next := r.NextPollOf(id, now);
      after == if next.Some? then queue + [Entry(id, next.value)] else queue
  {
    var c, f := r.configs[id], r.flags[id];
    if f.excluded {
      return if f.value == Undefined then queue + [Entry(id, now + 1)] else queue;
    }
    if r.priority == High {
      return queue + [Entry(id, now + c.readPeriod.value * MICROSECONDS)];
    }
    if c.readRateLimit.Some? {
      return queue + [Entry(id, now + c.readRateLimit.value * MICROSECONDS)];
    }
    return queue + [Entry(id, now + 1)];
  }

  method ScheduleAll(r: Registry, queue: Queue<int>, list: seq<int>, now: int) returns (after: Queue<int>)
    requires r.IsSound() && forall i | 0 <= i < |list| :: r.Polls(list[i])
    ensures after == queue + PutBack(list, r.NextPolls(list, now))
  {
    ghost var next := r.NextPolls(list, now);
    after := queue;
    for i := 0 to |list|
      invariant after == queue + PutBack(list[..i], next[..i])
    {
      assert list[..i + 1][..i] == list[..i] && next[..i + 1][..i] == next[..i];
      assert next[i] == r.NextPollOf(list[i], now);
      after := ScheduleNextPoll(r, after, list[i], now);
    }
    assert list[..|list|] == list && next[..|list|] == next;
  }

  /** Registers go back to the queue, or are dropped because they have been read and are excluded. */
  method PutBackAll(r: Registry, queue: Queue<int>, list: seq<int>, now: int)
    returns (after: Queue<int>, ghost dropped: multiset<int>)
    requires r.IsSound() && forall i | 0 <= i < |list| :: r.Polls(list[i])
    ensures Items(after) + dropped == Items(queue) + multiset(list)
    ensures after == queue + PutBack(list, r.NextPolls(list, now))
    ensures forall id | id in dropped :: r.IsDone(id)
    ensures forall id :: IsReadyIn(after, id, now) <==> IsReadyIn(queue, id, now) || (id in list && r.StaysDue(id))
    ensures forall e | e in after :: e in queue || e.deadline > now || r.StaysDue(e.data)
  {
    ghost var next := r.NextPolls(list, now);
    ghost var back, gone := PutBack(list, next), Dropped(list, next);
    after := ScheduleAll(r, queue, list, now);
    ItemsOfParts(queue, back);
    PutBackOrDropped(list, next);
    DueWhenAllPutBack(r, queue, list, now);
    DroppedAreDone(r, list, now);
    dropped := multiset(gone);
    MoveBack(Items(queue), Items(back), dropped, multiset(list));
  }

  lemma {:induction false} DueWhenAllPutBack(r: Registry, queue: Queue<int>, list: seq<int>, now: int)
    requires r.IsSound()
    ensures var back := PutBack(list, r.NextPolls(list, now));
      && (forall id :: IsReadyIn(queue + back, id, now) <==> IsReadyIn(queue, id, now) || (id in list && r.StaysDue(id)))
      && (forall e | e in back :: e.deadline > now || r.StaysDue(e.data))
  {
    var back := PutBack(list, r.NextPolls(list, now));
    forall id ensures IsReadyIn(back, id, now) <==> id in list && r.StaysDue(id) {
      DueWhenPutBack(r, list, now, id);
    }
    forall id ensures IsReadyIn(queue + back, id, now) <==> IsReadyIn(queue, id, now) || IsReadyIn(back, id, now) {
      ReadyInParts(queue, back, id, now);
    }
    forall e | e in back ensures e.deadline > now || r.StaysDue(e.data) {
      assert e.deadline <= now ==> IsReadyIn(back, e.data, now);
    }
  }

  lemma MoveBack<A>(rest: multiset<A>, back: multiset<A>, dropped: multiset<A>, list: multiset<A>)
    requires back + dropped == list
    ensures (rest + back) + dropped == rest + list
  {
  }

  // ----- reading -----

  /** A register as it is offered to a range. */
  function MemberOf(r: Registry, view: DeviceView, id: int): Member
    requires r.IsSound() && 0 <= id < |r.configs|
  {
    Member(r.configs[id], r.flags[id].available, view)
  }

  /** How long a read may take; the first register may be exempt. */
  datatype Limits = Limits(pollLimit: int, readAtLeastOneRegister: bool, sendTime: SendTime, responseTime: nat)
  {
    function TimingFor(isFirst: bool): Timing {
      Timing(sendTime, responseTime, if readAtLeastOneRegister && isFirst then NEVER else pollLimit)
    }
  }

  /** The registers of taken entries, without unavailable ones. */
  function Listed(r: Registry, taken: Queue<int>): seq<int> {
    if taken == [] then []
    else
      var n := |taken| - 1;
      Listed(r, taken[..n]) + if r.IsUnavailable(taken[n].data) then [] else [taken[n].data]
  }

  /** A range to which the registers of taken entries were offered. */
  function RangeOf(r: Registry, view: DeviceView, l: Limits, taken: Queue<int>): Range
    requires r.IsSound()
    decreases |taken|, 0
  {
    if taken == [] then EMPTY
    else
      var n := |taken| - 1;
      Offered(r, view, l, taken[..n], taken[n].data).0
  }

  /** The range after one more register is offered, and whether it is accepted. */
  function Offered(r: Registry, view: DeviceView, l: Limits, taken: Queue<int>, id: int): (Range, bool)
    requires r.IsSound()
    decreases |taken|, 1
  {
    var range := RangeOf(r, view, l, taken);
    if 0 <= id < |r.configs| then Add(range, MemberOf(r, view, id), l.TimingFor(Listed(r, taken) == [])) else (range, false)
  }

  predicate Accepts(r: Registry, view: DeviceView, l: Limits, taken: Queue<int>, id: int)
    requires r.IsSound()
  {
    Offered(r, view, l, taken, id).1
  }

  /** A due entry is taken after others because the range accepts its register. */
  predicate IsTakenAt(r: Registry, view: DeviceView, l: Limits, now: int, taken: Queue<int>, k: nat)
    requires r.IsSound()
  {
    k < |taken| ==> taken[k].deadline <= now && Accepts(r, view, l, taken[..k], taken[k].data)
  }

  ghost predicate AreAccepted(r: Registry, view: DeviceView, l: Limits, now: int, taken: Queue<int>)
    requires r.IsSound()
  {
    forall k: nat {:trigger IsTakenAt(r, view, l, now, taken, k)} :: IsTakenAt(r, view, l, now, taken, k)
  }

  /** Entries taken in the order of their deadlines, and those that are left. */
  ghost predicate AreEarliest<T(!new)>(queue: Queue<T>, taken: Queue<T>, rest: Queue<T>) {
    && multiset(taken) + multiset(rest) == multiset(queue)
    && (forall i, j | 0 <= i < j < |taken| :: taken[i].deadline <= taken[j].deadline)
    && (forall i, e | 0 <= i < |taken| && e in rest :: taken[i].deadline <= e.deadline)
  }

  /** Nothing more is due, or the register that is next does not fit. */
  ghost predicate EndsRightly(r: Registry, view: DeviceView, l: Limits, now: int, taken: Queue<int>, rest: Queue<int>)
    requires r.IsSound()
  {
    HasReady(rest, now) ==>
      exists i: nat {:trigger IsRefusedAt(r, view, l, taken, rest, i)} :: IsRefusedAt(r, view, l, taken, rest, i)
  }

  predicate IsRefusedAt(r: Registry, view: DeviceView, l: Limits, taken: Queue<int>, rest: Queue<int>, i: nat)
    requires r.IsSound()
  {
    i < |rest| && IsEarliest(rest, i) && !Accepts(r, view, l, taken, rest[i].data)
  }

  /** Due entries are taken in their order as long as the range accepts their registers. */
  ghost predicate IsTaken(
      r: Registry, view: DeviceView, l: Limits, now: int, queue: Queue<int>, taken: Queue<int>, rest: Queue<int>)
    requires r.IsSound()
  {
    AreAccepted(r, view, l, now, taken) && AreEarliest(queue, taken, rest) && EndsRightly(r, view, l, now, taken, rest)
  }

  lemma EntryTakenOut<T>(q: Queue<T>, i: nat)
    requires i < |q|
    ensures multiset(q) == multiset(Without(q, i)) + multiset{q[i]}
  {
    SplitAt(q, i);
  }

  lemma OneMoreEarliest<T(!new)>(queue: Queue<T>, taken: Queue<T>, rest: Queue<T>, i: nat)
    requires AreEarliest(queue, taken, rest) && i < |rest| && IsEarliest(rest, i)
    ensures AreEarliest(queue, taken + [rest[i]], Without(rest, i))
  {
    EntryTakenOut(rest, i);
    assert multiset(taken + [rest[i]]) == multiset(taken) + multiset{rest[i]};
    assert rest[i] in rest;
    forall e | e in Without(rest, i) ensures e in rest && rest[i].deadline <= e.deadline {
      var j :| 0 <= j < |rest| && rest[j] == e;
    }
  }

  lemma {:induction false} OneMoreTaken(
      r: Registry, view: DeviceView, l: Limits, now: int, taken: Queue<int>, e: Entry<int>)
    requires r.IsSound() && AreAccepted(r, view, l, now, taken)
    requires e.deadline <= now && Accepts(r, view, l, taken, e.data)
    ensures AreAccepted(r, view, l, now, taken + [e])
    ensures RangeOf(r, view, l, taken + [e]) == Offered(r, view, l, taken, e.data).0
    ensures Listed(r, taken + [e]) == Listed(r, taken) + if r.IsUnavailable(e.data) then [] else [e.data]
  {
    var longer := taken + [e];
    assert longer[..|taken|] == taken;
    forall k: nat ensures IsTakenAt(r, view, l, now, longer, k) {
      if k < |taken| {
        assert longer[..k] == taken[..k] && IsTakenAt(r, view, l, now, taken, k);
      }
    }
  }

  /** Takes ready registers out of a queue as long as a range accepts them; unavailable ones are skipped. */
  method TakeReady(r: Registry, view: DeviceView, queue: Queue<int>, now: int, l: Limits)
    returns (rest: Queue<int>, list: seq<int>, ghost taken: Queue<int>, ghost skipped: multiset<int>)
    requires r.IsSound() && forall id | id in Items(queue) :: r.Polls(id)
    ensures Items(rest) + multiset(list) + skipped == Items(queue)
    ensures forall id | id in skipped :: r.IsUnavailable(id)
    ensures forall e | e in rest :: e in queue
    ensures IsTaken(r, view, l, now, queue, taken, rest) && list == Listed(r, taken)
  {
    var range := EMPTY;
    rest, list, taken, skipped := queue, [], [], multiset{};
    while HasReady(rest, now)
      invariant Items(rest) + multiset(list) + skipped == Items(queue)
      invariant forall id | id in skipped :: r.IsUnavailable(id)
      invariant forall e | e in rest :: e in queue
      invariant range == RangeOf(r, view, l, taken) && list == Listed(r, taken)
      invariant AreAccepted(r, view, l, now, taken) && AreEarliest(queue, taken, rest)
      decreases |rest|
    {
      var i := GetTop(rest);
      var id := rest[i].data;
      IsPolledAt(r, queue, rest, list, skipped, i, now);
      var limit := if l.readAtLeastOneRegister && list == [] then NEVER else l.pollLimit;
      var (newRange, accepted) := Add(range, MemberOf(r, view, id), Timing(l.sendTime, l.responseTime, limit));
      if !accepted {
        assert IsRefusedAt(r, view, l, taken, rest, i);
        break;
      }
      OneMoreEarliest(queue, taken, rest, i);
      OneMoreTaken(r, view, l, now, taken, rest[i]);
      NextItems(queue, rest, list, skipped, i, now);
      if r.flags[id].available == Unavailable {
        skipped := skipped + multiset{id};
      } else {
        list := list + [id];
      }
      taken := taken + [rest[i]];
      range, rest := newRange, Without(rest, i);
    }
  }

  lemma {:induction false} IsPolledAt(
      r: Registry, queue: Queue<int>, rest: Queue<int>, list: seq<int>, skipped: multiset<int>, i: nat, now: int)
    requires forall id | id in Items(queue) :: r.Polls(id)
    requires i < |rest| && Items(rest) + multiset(list) + skipped == Items(queue)
    ensures r.Polls(rest[i].data)
  {
    TakenOut(rest, i, now);
    assert rest[i].data in Items(rest) && rest[i].data in Items(queue);
  }

  lemma {:induction false} NextItems(
      queue: Queue<int>, rest: Queue<int>, list: seq<int>, skipped: multiset<int>, i: nat, now: int)
    requires i < |rest| && Items(rest) + multiset(list) + skipped == Items(queue)
    ensures var id := rest[i].data;
      && Items(Without(rest, i)) + multiset(list + [id]) + skipped == Items(queue)
      && Items(Without(rest, i)) + multiset(list) + (skipped + multiset{id}) == Items(queue)
      && forall e | e in Without(rest, i) :: e in rest
  {
    var id := rest[i].data;
    TakenOut(rest, i, now);
    OneMoreLast(list, id);
    MoveAside(Items(rest), Items(Without(rest, i)), multiset(list), skipped, Items(queue), id);
  }

  /** Takes all ready registers. */
  method TakeAllReady(queue: Queue<int>, now: int) returns (rest: Queue<int>, list: seq<int>)
    ensures Items(rest) + multiset(list) == Items(queue)
    ensures forall e | e in rest :: e in queue && e.deadline > now
    ensures list != [] <==> HasReady(queue, now)
    ensures forall id :: id in list <==> IsReadyIn(queue, id, now)
  {
    rest, list := queue, [];
    while HasReady(rest, now)
      invariant Items(rest) + multiset(list) == Items(queue)
      invariant forall id :: IsReadyIn(queue, id, now) <==> id in list || IsReadyIn(rest, id, now)
      invariant list == [] ==> rest == queue
      invariant forall e | e in rest :: e in queue
      invariant list != [] ==> HasReady(queue, now)
      decreases |rest|
    {
      var i := GetTop(rest);
      var id := rest[i].data;
      ghost var next := Without(rest, i);
      TakenOut(rest, i, now);
      ReadyTakenOut(rest, i, now);
      OneMoreLast(list, id);
      MoveAside(Items(rest), Items(next), multiset(list), multiset{}, Items(queue), id);
      list := list + [id];
      rest := Without(rest, i);
    }
  }

  predicate AreDistinct(list: seq<int>) {
    forall i, j | 0 <= i < j < |list| :: list[i] != list[j]
  }

  /** Registers of a list have got what was read for them; others stay. */
  ghost predicate IsRead(r: Registry, after: Registry, list: seq<int>, readings: int -> Reading) {
    && |r.flags| == |r.configs|
    && after == r.(flags := after.flags) && |after.flags| == |r.flags|
    && forall id | 0 <= id < |r.flags| ::
         after.flags[id] == if id in list then AfterReading(r.configs[id], r.flags[id], readings(id)) else r.flags[id]
  }

  /** The registers of a range with what was read for them. */
  method ReadList(r: Registry, list: seq<int>, readings: int -> Reading) returns (after: Registry)
    requires r.IsSound() && AreDistinct(list) && forall i | 0 <= i < |list| :: r.Polls(list[i])
    ensures IsRead(r, after, list, readings) && after.IsSound()
    ensures forall id | r.IsExcluded(id) :: after.IsExcluded(id)
  {
    after := r;
    for i := 0 to |list|
      invariant IsRead(r, after, list[..i], readings) && after.IsSound()
      invariant forall id | r.IsExcluded(id) :: after.IsExcluded(id)
    {
      var id := list[i];
      assert r.Polls(id) && after.IsSoundAt(id) && id !in list[..i];
      var f := AfterReading(after.configs[id], after.flags[id], readings(id));
      ghost var before := after;
      after := after.(flags := after.flags[id := f]);
      forall k | 0 <= k < |after.flags| ensures after.IsSoundAt(k) {
        assert before.IsSoundAt(k);
      }
    }
    assert list[..|list|] == list;
  }

  /** What a read of due registers does: with those that are taken, the others that are left, and what is read. */
  ghost predicate IsReadOut(
      r: Registry, view: DeviceView, queue: Queue<int>, now: int, l: Limits, isAccessible: bool,
      readings: int -> Reading, after: Registry, newQueue: Queue<int>, list: seq<int>, taken: Queue<int>,
      rest: Queue<int>)
    requires r.IsSound()
  {
    && IsTaken(r, view, l, now, queue, taken, rest) && list == Listed(r, taken)
    && IsRead(r, after, if isAccessible then list else [], readings)
    && newQueue == rest + PutBack(list, after.NextPolls(list, now))
  }

  method ReadReady(
      r: Registry, view: DeviceView, queue: Queue<int>, now: int, l: Limits, isAccessible: bool,
      readings: int -> Reading)
    returns (after: Registry, newQueue: Queue<int>, list: seq<int>, ghost taken: Queue<int>, ghost rest: Queue<int>,
             ghost dropped: multiset<int>)
    requires r.IsSound() && r.IsUnique(Items(queue))
    ensures after.configs == r.configs && after.priority == r.priority && after.IsSound()
    ensures Items(newQueue) + dropped == Items(queue)
    ensures forall id | id in dropped :: r.IsUnavailable(id) || after.IsDone(id)
    ensures forall id | id in dropped :: after.IsExcluded(id)
    ensures forall id | r.IsExcluded(id) :: after.IsExcluded(id)
    ensures forall e | e in newQueue :: e in queue || e.deadline > now || after.StaysDue(e.data)
    ensures forall i | 0 <= i < |list| :: r.Polls(list[i])
    ensures IsReadOut(r, view, queue, now, l, isAccessible, readings, after, newQueue, list, taken, rest)
  {
    ghost var skipped;
    newQueue, list, taken, skipped := TakeReady(r, view, queue, now, l);
    rest := newQueue;
    SkippedAreExcluded(r, Items(queue), Items(rest), list, skipped);
    ListIsDistinct(r, Items(queue), Items(rest), list, skipped);
    after := r;
    if list != [] && isAccessible {
      after := ReadList(r, list, readings);
    }
    assert IsRead(r, after, if isAccessible then list else [], readings);
    forall i | 0 <= i < |list| ensures after.Polls(list[i]) {
      assert r.Polls(list[i]);
    }
    ghost var gone;
    newQueue, gone := PutBackAll(after, newQueue, list, now);
    MoveGone(Items(rest), Items(newQueue), gone, skipped, multiset(list), Items(queue));
    dropped := skipped + gone;
  }

  lemma CountedTwice(list: seq<int>, i: nat, j: nat)
    requires i < j < |list| && list[i] == list[j]
    ensures multiset(list)[list[i]] >= 2
  {
    assert list == list[..i] + [list[i]] + list[i + 1..j] + [list[j]] + list[j + 1..];
  }

  lemma ListIsDistinct(
      r: Registry, before: multiset<int>, rest: multiset<int>, list: seq<int>, skipped: multiset<int>)
    requires r.IsUnique(before) && rest + multiset(list) + skipped == before
    ensures AreDistinct(list)
  {
    forall i, j | 0 <= i < j < |list| ensures list[i] != list[j] {
      assert list[i] in multiset(list) && list[i] in before;
      if list[i] == list[j] {
        CountedTwice(list, i, j);
      }
    }
  }

  lemma SkippedAreExcluded(
      r: Registry, before: multiset<int>, rest: multiset<int>, list: seq<int>, skipped: multiset<int>)
    requires r.IsSound() && r.IsUnique(before) && rest + multiset(list) + skipped == before
    requires forall id | id in skipped :: r.IsUnavailable(id)
    ensures forall id | id in skipped :: r.IsExcluded(id)
    ensures forall i | 0 <= i < |list| :: r.Polls(list[i])
  {
    forall id | id in skipped ensures r.IsExcluded(id) {
      assert r.IsSoundAt(id);
    }
    forall i | 0 <= i < |list| ensures r.Polls(list[i]) {
      assert list[i] in multiset(list) && list[i] in before;
    }
  }

  lemma MoveGone<A>(
      rest: multiset<A>, after: multiset<A>, gone: multiset<A>, skipped: multiset<A>, list: multiset<A>, all: multiset<A>)
    requires rest + list + skipped == all && after + gone == rest + list
    ensures after + (skipped + gone) == all
  {
  }

  // ----- coming back -----

  /** Includes the register in polling again, whatever its availability was. */
  function Included(r: Registry, id: int): Registry
    requires 0 <= id < |r.flags|
  {
    r.(flags := r.flags[id := Flags(Unknown, false, r.flags[id].value)])
  }

  /** A register that is polled, excluded and not in the queue. */
  predicate IsLost(r: Registry, items: multiset<int>, id: int) {
    r.Polls(id) && r.IsExcluded(id) && id !in items
  }

  /** Every register that is excluded and not in the queue is included and put into the queue. */
  method RescheduleAll(r: Registry, queue: Queue<int>) returns (after: Registry, newQueue: Queue<int>)
    requires r.IsSound() && r.IsUnique(Items(queue))
    ensures after.configs == r.configs && after.priority == r.priority && after.IsSound()
    ensures after.IsUnique(Items(newQueue))
    ensures forall id | r.Polls(id) :: id in Items(newQueue) <==> id in Items(queue) || r.IsExcluded(id)
    ensures forall e | e in newQueue :: e in queue || e.deadline == 0
    ensures AreIncluded(r, after, Items(queue))
  {
    after, newQueue := r, queue;
    for id := 0 to |r.configs|
      invariant after.configs == r.configs && after.priority == r.priority && after.IsSound()
      invariant forall e | e in newQueue :: e in queue || e.deadline == 0
      invariant CameBack(r, Items(queue), Items(newQueue), id)
      invariant forall k | id <= k < |r.flags| :: after.flags[k] == r.flags[k]
      invariant forall k | 0 <= k < id :: IsIncludedAt(r, after, Items(queue), k)
    {
      ghost var before, soFar := Items(newQueue), after;
      SameLost(r, after, before, id);
      after, newQueue := RescheduleOne(after, newQueue, id);
      CameBackNext(r, Items(queue), before, Items(newQueue), id);
      assert r.Polls(id) ==> (id in before <==> id in Items(queue));
      forall k | 0 <= k < id ensures IsIncludedAt(r, after, Items(queue), k) {
        assert IsIncludedAt(r, soFar, Items(queue), k);
      }
    }
  }

  /** A register that is polled, excluded and not queued is polled again as if nothing was known of it; others stay. */
  predicate IsIncludedAt(r: Registry, after: Registry, items: multiset<int>, id: int) {
    0 <= id < |r.flags| && |after.flags| == |r.flags| ==>
      if r.Polls(id) && r.flags[id].excluded && id !in items
      then after.flags[id] == Flags(Unknown, false, r.flags[id].value) else after.flags[id] == r.flags[id]
  }

  ghost predicate AreIncluded(r: Registry, after: Registry, items: multiset<int>) {
    |after.flags| == |r.flags| && forall id | 0 <= id < |r.flags| :: IsIncludedAt(r, after, items, id)
  }

  lemma SameLost(r: Registry, s: Registry, items: multiset<int>, id: int)
    requires r.configs == s.configs && r.priority == s.priority && |r.flags| == |s.flags| && 0 <= id < |r.flags|
    requires r.flags[id] == s.flags[id]
    ensures IsLost(r, items, id) <==> IsLost(s, items, id)
  {
  }

  /** Of the registers before a place, all that were lost have come back. */
  ghost predicate CameBack(r: Registry, items: multiset<int>, newItems: multiset<int>, n: int) {
    && r.IsUnique(newItems)
    && forall k | r.Polls(k) :: k in newItems <==> k in items || (k < n && r.IsExcluded(k))
  }

  lemma CameBackNext(r: Registry, items: multiset<int>, before: multiset<int>, after: multiset<int>, id: int)
    requires CameBack(r, items, before, id)
    requires after == before + if IsLost(r, before, id) then multiset{id} else multiset{}
    ensures CameBack(r, items, after, id + 1)
  {
  }

  method RescheduleOne(r: Registry, queue: Queue<int>, id: int) returns (after: Registry, newQueue: Queue<int>)
    requires r.IsSound() && 0 <= id < |r.configs|
    ensures after.IsSound() && after == if IsLost(r, Items(queue), id) then Included(r, id) else r
    ensures newQueue == if IsLost(r, Items(queue), id) then queue + [Entry(id, 0)] else queue
    ensures Items(newQueue) == Items(queue) + if IsLost(r, Items(queue), id) then multiset{id} else multiset{}
    ensures forall e | e in newQueue :: e in queue || e.deadline == 0
    ensures forall k | 0 <= k < |r.flags| && k != id :: after.flags[k] == r.flags[k]
    ensures after.configs == r.configs && after.priority == r.priority
  {
    IsQueued(queue, id);
    after, newQueue := r, queue;
    if IsPolled(r.configs[id], r.priority) && r.flags[id].excluded && !IsIn(queue, id) {
      PutIn(queue, Entry(id, 0), 0);
      after := IncludeOne(r, id);
      newQueue := queue + [Entry(id, 0)];
    }
  }

  method IncludeOne(r: Registry, id: int) returns (after: Registry)
    requires r.IsSound() && 0 <= id < |r.flags|
    ensures after == Included(r, id) && after.IsSound()
  {
    after := Included(r, id);
    forall k | 0 <= k < |after.flags| ensures after.IsSoundAt(k) {
      assert r.IsSoundAt(k);
    }
  }

  predicate IsIn(queue: Queue<int>, id: int)
    ensures IsIn(queue, id) <==> Contains(queue, id)
  {
    exists i | 0 <= i < |queue| :: queue[i].data == id
  }

  /** At first every polled register is queued. */
  method FirstQueue(r: Registry, now: int) returns (queue: Queue<int>)
    ensures forall id | id in Items(queue) :: r.Polls(id) && Items(queue)[id] == 1
    ensures forall id | r.Polls(id) :: id in Items(queue)
    ensures forall e | e in queue :: e.deadline == now
  {
    queue := [];
    for id := 0 to |r.configs|
      invariant forall k | k in Items(queue) :: k < id && r.Polls(k) && Items(queue)[k] == 1
      invariant forall k | k < id && r.Polls(k) :: k in Items(queue)
      invariant forall e | e in queue :: e.deadline == now
    {
      if IsPolled(r.configs[id], r.priority) {
        PutIn(queue, Entry(id, now), now);
        queue := queue + [Entry(id, now)];
      }
    }
  }

  // ----- the device -----

  /** The part of a device that is polled with one priority. */
  datatype PollableDevice = PollableDevice(
    view: DeviceView,
    minRequestInterval: nat,
    registry: Registry,
    registers: Queue<int>,
    disconnectedPollDelay: nat,
    lastReadTime: int)
  {
    /** A register is queued at most once, and one that is not queued is excluded from polling. */
    ghost predicate Valid() {
      && registry.IsSound()
      && registry.IsUnique(Items(registers))
      && registry.NoneIsLost(Items(registers))
    }

    predicate HasRegisters() {
      registers != []
    }

    /** Registers of low priority may have to wait for the device, too. */
    function GetDeadline(): (r: int)
      ensures Deadline(registers) <= r
    {
      if registry.priority == Low && minRequestInterval != 0
      then Max(lastReadTime + minRequestInterval, Deadline(registers))
      else Deadline(registers)
    }

    /** A register is due, and will be due again as soon as it is put back. */
    ghost predicate StaysDue(now: int) {
      exists id :: IsReadyIn(registers, id, now) && registry.StaysDue(id)
    }

    /** The least time between requests puts off the next one of low priority. */
    predicate IsHeldBack(now: int) {
      registry.priority == Low && minRequestInterval != 0 && lastReadTime + minRequestInterval > now
    }

    lemma DueExactly(now: int)
      requires HasRegisters()
      ensures GetDeadline() <= now <==> HasReady(registers, now) && !IsHeldBack(now)
    {
    }

    /** A part may differ in what is queued and in the flags of its registers. */
    predicate HasSameSettings(other: PollableDevice) {
      this == other.(registry := registry, registers := registers) && IsSamePart(other)
    }

    predicate IsSamePart(other: PollableDevice) {
      registry.configs == other.registry.configs && registry.priority == other.registry.priority
    }
  }

  method MakePollableDevice(
      view: DeviceView, configs: seq<RegisterConfig>, flags: seq<Flags>, minRequestInterval: nat, now: int,
      priority: Priority)
    returns (p: PollableDevice)
    requires Registry(configs, flags, priority).IsSound()
    ensures p.Valid() && p.registry == Registry(configs, flags, priority) && p.view == view
    ensures p.minRequestInterval == minRequestInterval && p.disconnectedPollDelay == 0
    ensures forall id | p.registry.Polls(id) :: Items(p.registers)[id] == 1
    ensures p.HasRegisters() <==> exists id :: p.registry.Polls(id)
    ensures forall e | e in p.registers :: e.deadline == now
  {
    var r := Registry(configs, flags, priority);
    var queue := FirstQueue(r, now);
    p := PollableDevice(view, minRequestInterval, r, queue, 0, 0);
    if queue != [] {
      IsQueued(queue, queue[0].data);
      assert p.registry.Polls(queue[0].data);
    } else {
      assert forall id :: p.registry.Polls(id) ==> id in Items(queue);
    }
  }

  /**
   One read of ready registers, as far as they fit in one request.  Registers go back to the queue; one is dropped
   only if it was unavailable when it was offered, or if it is excluded from polling and has a value.
   */
  method ReadRegisterRange(
      p: PollableDevice, now: int, spentTime: nat, l: Limits, isAccessible: bool, readings: int -> Reading)
    returns (after: PollableDevice, list: seq<int>, ghost taken: Queue<int>, ghost rest: Queue<int>,
             ghost dropped: multiset<int>)
    requires p.Valid()
    ensures after.Valid() && after.IsSamePart(p)
    ensures Items(after.registers) + dropped == Items(p.registers)
    ensures forall id | id in dropped :: p.registry.IsUnavailable(id) || after.registry.IsDone(id)
    ensures forall e | e in after.registers :: e in p.registers || e.deadline > now || after.registry.StaysDue(e.data)
    ensures forall i | 0 <= i < |list| :: p.registry.Polls(list[i])
    ensures IsReadOut(
      p.registry, p.view, p.registers, now, l, isAccessible, readings, after.registry, after.registers, list, taken, rest)
    ensures after == p.(registry := after.registry, registers := after.registers,
                        lastReadTime := if list != [] then now + spentTime else p.lastReadTime)
  {
    var registry, registers;
    registry, registers, list, taken, rest, dropped := ReadReady(
      p.registry, p.view, p.registers, now, l, isAccessible, readings);
    NoneGetsLost(p.registry, registry, Items(p.registers), Items(registers), dropped);
    after := p.(registry := registry, registers := registers,
                lastReadTime := if list != [] then now + spentTime else p.lastReadTime);
  }

  /** Of the due registers that are taken and put back, exactly those without a period are due again. */
  lemma StillDue(p: PollableDevice, rest: Queue<int>, list: seq<int>, registers: Queue<int>, now: int)
    requires forall e | e in rest :: e.deadline > now
    requires forall id :: id in list <==> IsReadyIn(p.registers, id, now)
    requires forall id ::
      IsReadyIn(registers, id, now) <==> IsReadyIn(rest, id, now) || (id in list && p.registry.StaysDue(id))
    ensures HasReady(registers, now) <==> p.StaysDue(now)
    ensures p.(registers := registers).StaysDue(now) <==> p.StaysDue(now)
  {
    forall id ensures IsReadyIn(registers, id, now) <==> IsReadyIn(p.registers, id, now) && p.registry.StaysDue(id) {
      assert !IsReadyIn(rest, id, now);
    }
    var after := p.(registers := registers);
    if p.StaysDue(now) {
      var id :| IsReadyIn(p.registers, id, now) && p.registry.StaysDue(id);
      assert IsReadyIn(after.registers, id, now) && after.registry.StaysDue(id);
    }
    if HasReady(registers, now) {
      var id := SomeReady(registers, now);
      assert IsReadyIn(p.registers, id, now) && p.registry.StaysDue(id);
    }
  }

  /** Ready registers are taken as failed and put back. */
  method MarkWaitingRegistersAsReadErrorAndReschedule(p: PollableDevice, now: int)
    returns (after: PollableDevice, list: seq<int>, ghost rest: Queue<int>, ghost dropped: multiset<int>)
    requires p.Valid()
    ensures after.Valid() && after == p.(registers := after.registers)
    ensures Items(after.registers) + dropped == Items(p.registers)
    ensures forall id | id in dropped :: p.registry.IsDone(id)
    ensures list != [] <==> HasReady(p.registers, now)
    ensures forall i | 0 <= i < |list| :: p.registry.Polls(list[i])
    ensures HasReady(after.registers, now) <==> p.StaysDue(now)
    ensures after.StaysDue(now) <==> p.StaysDue(now)
    ensures after.registers == rest + PutBack(list, p.registry.NextPolls(list, now))
    ensures (forall e | e in rest :: e in p.registers && e.deadline > now)
    ensures (forall id :: id in list <==> IsReadyIn(p.registers, id, now))
  {
    var queue, registers;
    queue, list := TakeAllReady(p.registers, now);
    rest := queue;
    assert Items(rest) + multiset(list) + multiset{} == Items(p.registers);
    SkippedAreExcluded(p.registry, Items(p.registers), Items(rest), list, multiset{});
    registers, dropped := PutBackAll(p.registry, queue, list, now);
    NoneGetsLost(p.registry, p.registry, Items(p.registers), Items(registers), dropped);
    after := p.(registers := registers);
    StillDue(p, rest, list, registers, now);
  }

  /**
   Every register that was excluded from polling and is not queued is polled again at once.  All registers of the
   part are then queued exactly once, provided that absent ones are excluded, as they always are in a valid part.
   */
  method RescheduleAllRegisters(p: PollableDevice) returns (after: PollableDevice)
    requires p.registry.IsSound() && p.registry.IsUnique(Items(p.registers))
    ensures after.registry.IsSound() && after.registry.IsUnique(Items(after.registers))
    ensures after.HasSameSettings(p) && AreIncluded(p.registry, after.registry, Items(p.registers))
    ensures forall id | p.registry.Polls(id) ::
      id in Items(after.registers) <==> id in Items(p.registers) || p.registry.IsExcluded(id)
    ensures p.Valid() ==> after.Valid() && forall id | p.registry.Polls(id) :: Items(after.registers)[id] == 1
    ensures forall e | e in after.registers :: e in p.registers || e.deadline == 0
  {
    var registry, registers := RescheduleAll(p.registry, p.registers);
    after := p.(registry := registry, registers := registers);
    if p.Valid() {
      forall id | p.registry.Polls(id) ensures id in Items(registers) {
        assert id in Items(p.registers) || p.registry.IsExcluded(id);
      }
      forall id | registry.Polls(id) ensures id in Items(registers) {
        assert p.registry.Polls(id);
      }
    }
  }

  // ----- what a read means -----

  /** When a register is polled again, in numbers of its configuration. */
  lemma NextPollIs(r: Registry, id: int, now: int)
    requires |r.flags| == |r.configs| && r.Polls(id)
    ensures var c, f, next := r.configs[id], r.flags[id], r.NextPollOf(id, now);
      && (f.excluded && f.value != Undefined ==> next == None)
      && (f.excluded && f.value == Undefined ==> next == Some(now + 1))
      && (!f.excluded && c.readPeriod.Some? ==> next == Some(now + 1000 * c.readPeriod.value))
      && (!f.excluded && c.readPeriod.None? && c.readRateLimit.Some? ==> next == Some(now + 1000 * c.readRateLimit.value))
      && (!f.excluded && c.readPeriod.None? && c.readRateLimit.None? ==> next == Some(now + 1))
  {
  }

  /** A register that can be read: its entry is due, and it is not known to be unavailable. */
  predicate IsDueIn(r: Registry, now: int, e: Entry<int>) {
    e.deadline <= now && !r.IsUnavailable(e.data)
  }

  /** No other register that can be read comes before it. */
  ghost predicate IsFirstDue(r: Registry, now: int, queue: Queue<int>, e: Entry<int>) {
    && e in queue && IsDueIn(r, now, e)
    && forall other | other in queue && IsDueIn(r, now, other) :: e.deadline <= other.deadline
  }

  /** There is time for a request for the register alone. */
  predicate FitsAlone(r: Registry, view: DeviceView, l: Limits, id: int)
    requires r.IsSound()
  {
    0 <= id < |r.configs| ==>
      var m := MemberOf(r, view, id);
      Microseconds(m, m.config.WordWidth(), Timing(l.sendTime, l.responseTime, 0))
      <= 1000 * if l.readAtLeastOneRegister then NEVER else l.pollLimit
  }

  lemma {:induction false} ListedWereTaken(r: Registry, taken: Queue<int>, id: int) returns (k: nat)
    requires id in Listed(r, taken)
    ensures k < |taken| && taken[k].data == id && !r.IsUnavailable(id)
  {
    var n := |taken| - 1;
    if id in Listed(r, taken[..n]) {
      k := ListedWereTaken(r, taken[..n], id);
    } else {
      k := n;
    }
  }

  /** Every register that is read was due, and is not known to be unavailable. */
  lemma {:induction false} ListedWasDue(
      r: Registry, view: DeviceView, l: Limits, now: int, queue: Queue<int>, taken: Queue<int>, rest: Queue<int>, id: int)
    requires r.IsSound() && IsTaken(r, view, l, now, queue, taken, rest) && id in Listed(r, taken)
    ensures IsReadyIn(queue, id, now) && !r.IsUnavailable(id)
  {
    var k := ListedWereTaken(r, taken, id);
    assert IsTakenAt(r, view, l, now, taken, k);
    assert taken[k] in taken;
    assert taken[k] in multiset(taken) && taken[k] in multiset(queue);
  }

  lemma {:induction false} NoneListed(r: Registry, view: DeviceView, l: Limits, taken: Queue<int>)
    requires r.IsSound() && Listed(r, taken) == []
    ensures RangeOf(r, view, l, taken) == EMPTY
    ensures forall e | e in taken :: r.IsUnavailable(e.data)
  {
    if taken != [] {
      var n := |taken| - 1;
      NoneListed(r, view, l, taken[..n]);
    }
  }

  /**
   If no register is read, then none is due that can be read, or there is not even time for one alone that comes first
   among these.
   */
  lemma {:induction false} NothingIsRead(
      r: Registry, view: DeviceView, l: Limits, now: int, queue: Queue<int>, taken: Queue<int>, rest: Queue<int>)
    requires r.IsSound() && IsTaken(r, view, l, now, queue, taken, rest)
    requires forall id | id in Items(queue) :: r.Polls(id)
    requires Listed(r, taken) == []
    ensures (forall e | e in queue :: !IsDueIn(r, now, e))
         || exists e :: IsFirstDue(r, now, queue, e) && !FitsAlone(r, view, l, e.data)
  {
    NoneListed(r, view, l, taken);
    if e :| e in queue && IsDueIn(r, now, e) {
      EntryIsLeft(queue, taken, rest, e);
      assert HasReady(rest, now);
      var i: nat :| IsRefusedAt(r, view, l, taken, rest, i);
      RefusedIsFirst(r, view, l, now, queue, taken, rest, i, e);
    }
  }

  lemma {:induction false} FirstListed(r: Registry, taken: Queue<int>) returns (k: nat)
    requires Listed(r, taken) != []
    ensures k < |taken| && Listed(r, taken[..k]) == []
    ensures taken[k].data == Listed(r, taken)[0] && !r.IsUnavailable(taken[k].data)
  {
    var n := |taken| - 1;
    if Listed(r, taken[..n]) == [] {
      k := n;
    } else {
      k := FirstListed(r, taken[..n]);
      assert taken[..n][..k] == taken[..k];
    }
  }

  /** What is read begins with a register that is due first, and there is time for that one alone. */
  lemma FirstReadIsFirstDue(
      r: Registry, view: DeviceView, l: Limits, now: int, queue: Queue<int>, taken: Queue<int>, rest: Queue<int>)
    returns (e: Entry<int>)
    requires r.IsSound() && IsTaken(r, view, l, now, queue, taken, rest)
    requires forall id | id in Items(queue) :: r.Polls(id)
    requires Listed(r, taken) != []
    ensures e.data == Listed(r, taken)[0] && IsFirstDue(r, now, queue, e) && FitsAlone(r, view, l, e.data)
  {
    var k := FirstListed(r, taken);
    e := taken[k];
    assert IsTakenAt(r, view, l, now, taken, k);
    assert e in taken && e in multiset(taken) && e in multiset(queue);
    EntryIsPolled(r, queue, e);
    NoneListed(r, view, l, taken[..k]);
    FirstIsAccepted(MemberOf(r, view, e.data), l.TimingFor(true));
    TakenComesFirst(r, now, queue, taken, rest, k);
  }

  /** An entry that is taken comes first if none of those before it can be read. */
  lemma TakenComesFirst(r: Registry, now: int, queue: Queue<int>, taken: Queue<int>, rest: Queue<int>, k: nat)
    requires AreEarliest(queue, taken, rest) && k < |taken| && IsDueIn(r, now, taken[k]) && taken[k] in queue
    requires forall e | e in taken[..k] :: r.IsUnavailable(e.data)
    ensures IsFirstDue(r, now, queue, taken[k])
  {
    forall other | other in queue && IsDueIn(r, now, other) ensures taken[k].deadline <= other.deadline {
      EntryIsLeft(queue, taken, rest, other);
      if other in taken {
        var j := IndexOf(taken, other);
        NotBefore(taken, j, k);
      }
    }
  }

  lemma IndexOf<A>(s: seq<A>, x: A) returns (i: nat)
    requires x in s
    ensures i < |s| && s[i] == x
  {
    i :| i < |s| && s[i] == x;
  }

  lemma NotBefore<A>(s: seq<A>, j: nat, k: nat)
    requires j < |s| && k <= |s|
    ensures j < k ==> s[j] in s[..k]
  {
    if j < k {
      assert s[..k][j] == s[j];
    }
  }

  /** A further register is read only if there is time for all of them, or if it makes the response no longer. */
  lemma {:induction false} FurtherIsInTime(
      r: Registry, view: DeviceView, l: Limits, now: int, taken: Queue<int>, k: nat)
    requires r.IsSound() && AreAccepted(r, view, l, now, taken) && k < |taken|
    requires r.Polls(taken[k].data) && !r.IsUnavailable(taken[k].data) && Listed(r, taken[..k]) != []
    ensures var m, before, after :=
        MemberOf(r, view, taken[k].data), RangeOf(r, view, l, taken[..k]), RangeOf(r, view, l, taken[..k + 1]);
      || Microseconds(m, after.count, Timing(l.sendTime, l.responseTime, 0)) <= 1000 * l.pollLimit
      || (before.count != 0 && if m.config.typ == Coil || m.config.typ == Discrete
                               then before.count % 16 != 0 && WordsOfBits(after.count) == WordsOfBits(before.count)
                               else after.count == before.count)
  {
    assert IsTakenAt(r, view, l, now, taken, k);
    assert taken[..k + 1][..k] == taken[..k];
    AcceptedIsInTime(RangeOf(r, view, l, taken[..k]), MemberOf(r, view, taken[k].data), l.TimingFor(false));
  }

  lemma {:induction false} EntryIsPolled(r: Registry, queue: Queue<int>, e: Entry<int>)
    requires e in queue && forall id | id in Items(queue) :: r.Polls(id)
    ensures r.Polls(e.data)
  {
    IsQueued(queue, e.data);
    var i :| 0 <= i < |queue| && queue[i] == e;
  }

  lemma {:induction false} RefusedIsFirst(
      r: Registry, view: DeviceView, l: Limits, now: int, queue: Queue<int>, taken: Queue<int>, rest: Queue<int>,
      i: nat, e: Entry<int>)
    requires r.IsSound() && AreEarliest(queue, taken, rest) && IsRefusedAt(r, view, l, taken, rest, i)
    requires forall id | id in Items(queue) :: r.Polls(id)
    requires RangeOf(r, view, l, taken) == EMPTY && Listed(r, taken) == []
    requires forall t | t in taken :: r.IsUnavailable(t.data)
    requires e in queue && IsDueIn(r, now, e)
    ensures IsFirstDue(r, now, queue, rest[i]) && !FitsAlone(r, view, l, rest[i].data)
  {
    assert rest[i] in rest && rest[i] in multiset(rest) && rest[i] in multiset(queue);
    EntryIsPolled(r, queue, rest[i]);
    FirstIsRefused(r, view, l, taken, rest[i].data);
    FirstIsLeft(r, now, queue, taken, rest, i, e);
  }

  lemma EntryIsLeft(queue: Queue<int>, taken: Queue<int>, rest: Queue<int>, e: Entry<int>)
    requires multiset(taken) + multiset(rest) == multiset(queue) && e in queue
    ensures e in taken || e in rest
  {
    assert e in multiset(queue);
  }

  lemma FirstIsLeft(
      r: Registry, now: int, queue: Queue<int>, taken: Queue<int>, rest: Queue<int>, i: nat, e: Entry<int>)
    requires AreEarliest(queue, taken, rest) && forall t | t in taken :: r.IsUnavailable(t.data)
    requires i < |rest| && IsEarliest(rest, i) && e in queue && IsDueIn(r, now, e) && !r.IsUnavailable(rest[i].data)
    ensures IsFirstDue(r, now, queue, rest[i])
  {
    assert rest[i] in multiset(rest) && rest[i] in multiset(queue);
    forall other | other in queue && IsDueIn(r, now, other) ensures rest[i].deadline <= other.deadline {
      EntryIsLeft(queue, taken, rest, other);
      var j :| 0 <= j < |rest| && rest[j] == other;
    }
    EntryIsLeft(queue, taken, rest, e);
  }

  lemma {:induction false} FirstIsRefused(r: Registry, view: DeviceView, l: Limits, taken: Queue<int>, id: int)
    requires r.IsSound() && RangeOf(r, view, l, taken) == EMPTY && Listed(r, taken) == []
    requires !Accepts(r, view, l, taken, id) && 0 <= id < |r.configs|
    ensures !r.IsUnavailable(id) && !FitsAlone(r, view, l, id)
  {
    var m := MemberOf(r, view, id);
    if m.available != Unavailable {
      FirstIsAccepted(m, l.TimingFor(true));
    }
  }
}
