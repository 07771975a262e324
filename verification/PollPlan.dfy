/**
 Two queues of entries with deadlines, and the balance of time between them.  A queue yields some
 entry with the earliest deadline; which of several such entries comes first is left open.
 */
module PollPlan {
  import opened Common

  datatype Priority = High | Low
  datatype Selection = OnlyHighPriority | All

  /** The latest point of time; a queue without entries is never ready. */
  const NEVER: int := 0x7FFF_FFFF_FFFF_FFFF

  datatype Entry<T> = Entry(data: T, deadline: int)

  type Queue<T> = seq<Entry<T>>

  // ----- queues -----

  predicate IsEarliest<T>(q: Queue<T>, i: nat)
    requires i < |q|
  {
    forall j | 0 <= j < |q| :: q[i].deadline <= q[j].deadline
  }

  function Deadline<T>(q: Queue<T>): (r: int)
    ensures forall i | 0 <= i < |q| :: r <= q[i].deadline
    ensures if q == [] then r == NEVER else exists i | 0 <= i < |q| :: r == q[i].deadline
  {
    if q == [] then NEVER
    else if |q| == 1 then q[0].deadline
    else Min(q[0].deadline, Deadline(q[1..]))
  }

  predicate HasReady<T>(q: Queue<T>, now: int) {
    q != [] && Deadline(q) <= now
  }

  function Without<T>(q: Queue<T>, i: nat): (r: Queue<T>)
    requires i < |q|
    ensures |r| == |q| - 1
  {
    q[..i] + q[i + 1..]
  }

  /** The queued items, each as often as it is queued. */
  function Items<T>(q: Queue<T>): (r: multiset<T>)
    ensures |r| == |q|
  {
    if q == [] then multiset{} else Items(q[1..]) + multiset{q[0].data}
  }

  function CountReady<T>(q: Queue<T>, now: int): nat {
    if q == [] then 0 else (if q[0].deadline <= now then 1 else 0) + CountReady(q[1..], now)
  }

  lemma {:induction false} ItemsOfParts<T>(a: Queue<T>, b: Queue<T>)
    ensures Items(a + b) == Items(a) + Items(b)
  {
    if a == [] {
      assert a + b == b;
    } else {
      assert (a + b)[1..] == a[1..] + b;
      ItemsOfParts(a[1..], b);
    }
  }

  lemma {:induction false} ReadyOfParts<T>(a: Queue<T>, b: Queue<T>, now: int)
    ensures CountReady(a + b, now) == CountReady(a, now) + CountReady(b, now)
  {
    if a == [] {
      assert a + b == b;
    } else {
      assert (a + b)[1..] == a[1..] + b;
      ReadyOfParts(a[1..], b, now);
    }
  }

  lemma SplitAt<T>(q: seq<T>, i: nat)
    requires i < |q|
    ensures q == q[..i] + ([q[i]] + q[i + 1..])
  {
  }

  /** Taking an entry out takes out its item, and a ready entry if it is one. */
  lemma {:induction false} TakenOut<T>(q: Queue<T>, i: nat, now: int)
    requires i < |q|
    ensures Items(q) == Items(Without(q, i)) + multiset{q[i].data}
    ensures CountReady(q, now) == CountReady(Without(q, i), now) + if q[i].deadline <= now then 1 else 0
    ensures forall e | e in Without(q, i) :: e in q
  {
    var a, one, b := q[..i], [q[i]], q[i + 1..];
    SplitAt(q, i);
    ItemsOfParts(a, one + b);
    ItemsOfParts(one, b);
    ItemsOfParts(a, b);
    ReadyOfParts(a, one + b, now);
    ReadyOfParts(one, b, now);
    ReadyOfParts(a, b, now);
  }

  lemma {:induction false} PutIn<T>(q: Queue<T>, e: Entry<T>, now: int)
    ensures Items(q + [e]) == Items(q) + multiset{e.data}
    ensures CountReady(q + [e], now) == CountReady(q, now) + if e.deadline <= now then 1 else 0
  {
    ItemsOfParts(q, [e]);
    ReadyOfParts(q, [e], now);
  }

  lemma {:induction false} IsQueued<T>(q: Queue<T>, x: T)
    ensures x in Items(q) <==> Contains(q, x)
  {
    if q != [] {
      IsQueued(q[1..], x);
      if Contains(q, x) {
        var i :| 0 <= i < |q| && q[i].data == x;
        if i > 0 {
          assert q[1..][i - 1].data == x;
        }
      }
      if Contains(q[1..], x) {
        var i :| 0 <= i < |q[1..]| && q[1..][i].data == x;
        assert q[i + 1].data == x;
      }
    }
  }

  ghost predicate Contains<T>(q: Queue<T>, x: T) {
    exists i | 0 <= i < |q| :: q[i].data == x
  }

  /** An entry of an item is due. */
  ghost predicate IsReadyIn<T>(q: Queue<T>, x: T, now: int) {
    exists e | e in q :: e.data == x && e.deadline <= now
  }

  lemma SomeReady<T>(q: Queue<T>, now: int) returns (x: T)
    requires HasReady(q, now)
    ensures IsReadyIn(q, x, now)
  {
    var i :| 0 <= i < |q| && q[i].deadline <= now;
    x := q[i].data;
    assert q[i] in q;
  }

  lemma ReadyInParts<T>(a: Queue<T>, b: Queue<T>, x: T, now: int)
    ensures IsReadyIn(a + b, x, now) <==> IsReadyIn(a, x, now) || IsReadyIn(b, x, now)
  {
  }

  lemma ReadyTakenOut<T>(q: Queue<T>, i: nat, now: int)
    requires i < |q|
    ensures forall x ::
      (IsReadyIn(q, x, now) <==> IsReadyIn(Without(q, i), x, now) || (x == q[i].data && q[i].deadline <= now))
  {
    SplitAt(q, i);
    forall x
      ensures (IsReadyIn(q, x, now) <==> IsReadyIn(Without(q, i), x, now) || (x == q[i].data && q[i].deadline <= now))
    {
      ReadyInParts(q[..i], [q[i]] + q[i + 1..], x, now);
      ReadyInParts([q[i]], q[i + 1..], x, now);
      ReadyInParts(q[..i], q[i + 1..], x, now);
      assert IsReadyIn([q[i]], x, now) <==> x == q[i].data && q[i].deadline <= now by {
        assert q[i] in [q[i]];
      }
    }
  }

  method GetTop<T>(q: Queue<T>) returns (i: nat)
    requires q != []
    ensures i < |q| && IsEarliest(q, i)
    ensures q[i].deadline == Deadline(q)
  {
    i := 0;
    for j := 1 to |q|
      invariant i < j
      invariant forall k | 0 <= k < j :: q[i].deadline <= q[k].deadline
    {
      if q[j].deadline < q[i].deadline {
        i := j;
      }
    }
  }

  /** One entry of an item is taken out, if there is one. */
  ghost predicate IsRemoved<T>(before: Queue<T>, after: Queue<T>, x: T) {
    if Contains(before, x) then exists i | 0 <= i < |before| :: before[i].data == x && after == Without(before, i)
    else after == before
  }

  method RemoveItem<T(==)>(q: Queue<T>, x: T) returns (r: Queue<T>)
    ensures IsRemoved(q, r, x)
  {
    for i := 0 to |q|
      invariant forall k | 0 <= k < i :: q[k].data != x
    {
      if q[i].data == x {
        return Without(q, i);
      }
    }
    return q;
  }

  lemma {:induction false} ItemsRemoved<T>(before: Queue<T>, after: Queue<T>, x: T)
    requires IsRemoved(before, after, x)
    ensures Items(after) == Items(before) - multiset{x}
    ensures forall e | e in after :: e in before
  {
    IsQueued(before, x);
    if Contains(before, x) {
      var i :| 0 <= i < |before| && before[i].data == x && after == Without(before, i);
      TakenOut(before, i, 0);
    }
  }

  lemma {:induction false} CountPutIn<T>(q: Queue<T>, e: Entry<T>, x: T)
    ensures Items(q + [e])[x] == Items(q)[x] + if x == e.data then 1 else 0
  {
    PutIn(q, e, 0);
  }

  lemma {:induction false} CountRemoved<T>(before: Queue<T>, after: Queue<T>, x: T, y: T)
    requires IsRemoved(before, after, x)
    ensures Items(after)[y] == if y == x && Items(before)[y] > 0 then Items(before)[y] - 1 else Items(before)[y]
  {
    ItemsRemoved(before, after, x);
  }

  // ----- balancing -----

  /** The time by which high priority is ahead, kept within twice the lag that low priority may have. */
  class TotalTimeBalancer {
    var totalTime: int
    const totalTimeThreshold: nat
    const maxTotalTime: int

    ghost predicate Valid()
      reads this
    {
      0 <= maxTotalTime && -maxTotalTime <= totalTime <= maxTotalTime
    }

    constructor (totalTimeThreshold: nat, maxTotalTime: nat)
      ensures Valid() && totalTime == 0
      ensures this.totalTimeThreshold == totalTimeThreshold && this.maxTotalTime == maxTotalTime
    {
      this.totalTimeThreshold, this.maxTotalTime := totalTimeThreshold, maxTotalTime;
      totalTime := 0;
    }

    method IncrementTotalTime(delta: nat)
      requires Valid()
      modifies this
      ensures Valid() && totalTime == Min(old(totalTime) + delta, maxTotalTime)
    {
      totalTime := Min(totalTime + delta, maxTotalTime);
    }

    method DecrementTotalTime(delta: nat)
      requires Valid()
      modifies this
      ensures Valid() && totalTime == Max(old(totalTime) - delta, -maxTotalTime)
    {
      totalTime := Max(totalTime - delta, -maxTotalTime);
    }

    method Reset()
      requires Valid()
      modifies this
      ensures Valid() && totalTime == 0
    {
      totalTime := 0;
    }
  }

  /** What a scheduler cycles next: which queue, whether the first entry is forced, and the time there is for it. */
  datatype Choice = ChooseHigh | ChooseLow(force: bool, pollLimit: int) | ChooseNothing

  /** Milliseconds, rounded up. */
  function CeilToMilliseconds(microseconds: int): int {
    -((-microseconds) / 1000)
  }

  /** The choice of a scheduler with some total time; deadlines are in microseconds, the rest in milliseconds. */
  function Choose<T>(
      high: Queue<T>, low: Queue<T>, totalTime: int, threshold: nat, now: int, policy: Selection): Choice
  {
    var force := policy == All && (totalTime >= threshold || high == []);
    if HasReady(high, now) && (!force || !HasReady(low, now)) then ChooseHigh
    else if HasReady(low, now) then ChooseLow(force, LowPollLimit(high, totalTime, threshold, now))
    else ChooseNothing
  }

  /** Low priority has time until high priority is due, or the time that it is behind. */
  function LowPollLimit<T>(high: Queue<T>, totalTime: int, threshold: nat, now: int): int {
    if high == [] then NEVER
    else
      var delta := CeilToMilliseconds(Deadline(high) - now);
      if delta > 0 then delta else Max(totalTime - threshold, 0)
  }

  class Scheduler<T(==)> {
    var low: Queue<T>
    var high: Queue<T>
    const balancer: TotalTimeBalancer

    ghost predicate Valid()
      reads this, balancer
    {
      balancer.Valid()
    }

    constructor (maxLowPriorityLag: nat)
      ensures Valid() && fresh(balancer) && low == [] && high == [] && balancer.totalTime == 0
      ensures balancer.totalTimeThreshold == maxLowPriorityLag && balancer.maxTotalTime == 2 * maxLowPriorityLag
    {
      balancer := new TotalTimeBalancer(maxLowPriorityLag, 2 * maxLowPriorityLag);
      low, high := [], [];
    }

    function QueueOf(priority: Priority): Queue<T>
      reads this
    {
      if priority == Low then low else high
    }

    method AddEntry(x: T, deadline: int, priority: Priority)
      modifies this
      ensures low == if priority == Low then old(low) + [Entry(x, deadline)] else old(low)
      ensures high == if priority == High then old(high) + [Entry(x, deadline)] else old(high)
    {
      if priority == Low {
        low := low + [Entry(x, deadline)];
      } else {
        high := high + [Entry(x, deadline)];
      }
    }

    /** The head of a selection; the entries of the chosen queue are then offered while they are ready and accepted. */
    method ChooseNext(now: int, policy: Selection) returns (choice: Choice)
      ensures choice == Choose(high, low, balancer.totalTime, balancer.totalTimeThreshold, now, policy)
    {
      var forceLowPriority := policy == All && (balancer.totalTime >= balancer.totalTimeThreshold || high == []);
      if HasReady(high, now) && (!forceLowPriority || !HasReady(low, now)) {
        return ChooseHigh;
      }
      if HasReady(low, now) {
        var pollLimit := NEVER;
        if high != [] {
          var delta := CeilToMilliseconds(Deadline(high) - now);
          pollLimit := if delta > 0 then delta else Max(balancer.totalTime - balancer.totalTimeThreshold, 0);
        }
        return ChooseLow(forceLowPriority, pollLimit);
      }
      return ChooseNothing;
    }

    method Pop(priority: Priority, i: nat)
      requires i < |QueueOf(priority)|
      modifies this
      ensures low == if priority == Low then Without(old(low), i) else old(low)
      ensures high == if priority == High then Without(old(high), i) else old(high)
    {
      if priority == Low {
        low := Without(low, i);
      } else {
        high := Without(high, i);
      }
    }

    method Remove(x: T)
      modifies this
      ensures IsRemoved(old(low), low, x) && IsRemoved(old(high), high, x)
    {
      low := RemoveItem(low, x);
      high := RemoveItem(high, x);
    }

    method UpdateSelectionTime(delta: nat, priority: Priority)
      requires Valid()
      modifies balancer
      ensures Valid()
      ensures balancer.totalTime ==
        if priority == High then Min(old(balancer.totalTime) + delta, balancer.maxTotalTime)
        else Max(old(balancer.totalTime) - delta, -balancer.maxTotalTime)
    {
      if priority == High {
        balancer.IncrementTotalTime(delta);
      } else {
        balancer.DecrementTotalTime(delta);
      }
    }
  }

  // ----- bounded lag -----

  /**
   What happens to the balance: high priority takes its turn, low priority is offered a turn and uses time or none,
   idle time is counted as time of high priority, or the balance starts anew.
   */
  datatype Turn = HighTurn(delta: nat) | LowTurn(delta: nat) | Idle(delta: nat) | Restart

  /** The balance, and the time of high priority since low priority was last offered a turn or the balance started anew. */
  datatype Balance = Balance(totalTime: int, spent: nat)

  function After(b: Balance, turn: Turn, lag: nat): Balance {
    match turn
    case HighTurn(delta) => Balance(Min(b.totalTime + delta, 2 * lag), b.spent + delta)
    case Idle(delta) => Balance(Min(b.totalTime + delta, 2 * lag), b.spent + delta)
    case LowTurn(delta) => Balance(Max(b.totalTime - delta, -2 * lag), 0)
    case Restart => Balance(0, 0)
  }

  function Balanced(turns: seq<Turn>, lag: nat): Balance {
    if turns == [] then Balance(0, 0) else After(Balanced(turns[..|turns| - 1], lag), turns[|turns| - 1], lag)
  }

  ghost predicate SomeIsDue<T>(q: Queue<T>, now: int) {
    exists e | e in q :: e.deadline <= now
  }

  lemma ReadyIsDue<T>(q: Queue<T>, now: int)
    ensures HasReady(q, now) <==> SomeIsDue(q, now)
  {
    if HasReady(q, now) {
      var i :| 0 <= i < |q| && q[i].deadline <= now;
      assert q[i] in q;
    }
    if e :| e in q && e.deadline <= now {
      var i :| 0 <= i < |q| && q[i] == e;
    }
  }

  /** When each priority gets its turn: low priority if nothing of high priority is due, or if it is behind by its lag. */
  lemma ChoiceExactly<T>(high: Queue<T>, low: Queue<T>, totalTime: int, lag: nat, now: int, policy: Selection)
    ensures var choice := Choose(high, low, totalTime, lag, now, policy);
      && (choice == ChooseNothing <==> !SomeIsDue(high, now) && !SomeIsDue(low, now))
      && (choice.ChooseLow? <==>
          SomeIsDue(low, now) && (!SomeIsDue(high, now) || (policy == All && totalTime >= lag)))
      && (choice.ChooseLow? ==> (choice.force <==> policy == All && (totalTime >= lag || high == [])))
  {
    ReadyIsDue(high, now);
    ReadyIsDue(low, now);
  }

  lemma CeilIs(microseconds: int)
    ensures var ms := CeilToMilliseconds(microseconds); 1000 * (ms - 1) < microseconds <= 1000 * ms
  {
  }

  /** Low priority has the time until high priority is due, in whole milliseconds, or else the time that it is behind. */
  lemma PollLimitIs<T>(high: Queue<T>, low: Queue<T>, totalTime: int, lag: nat, now: int, policy: Selection)
    requires Choose(high, low, totalTime, lag, now, policy).ChooseLow?
    ensures var limit := Choose(high, low, totalTime, lag, now, policy).pollLimit;
      && (high == [] ==> limit == NEVER)
      && (high != [] && !SomeIsDue(high, now) ==>
            (forall e | e in high :: 1000 * (limit - 1) < e.deadline - now)
            && exists e | e in high :: e.deadline - now <= 1000 * limit)
      && (SomeIsDue(high, now) ==> limit == if totalTime > lag then totalTime - lag else 0)
  {
    ReadyIsDue(high, now);
    if high != [] {
      var i :| 0 <= i < |high| && Deadline(high) == high[i].deadline;
      assert high[i] in high;
      CeilIs(Deadline(high) - now);
    }
  }

  /** With policy All a turn of high priority while low priority is ready means that low priority is not behind. */
  lemma HighTurnIsFair<T>(high: Queue<T>, low: Queue<T>, totalTime: int, lag: nat, now: int)
    requires HasReady(low, now) && Choose(high, low, totalTime, lag, now, All) == ChooseHigh
    ensures totalTime < lag
  {
  }

  /** Without that policy low priority is not forced, but is selected all the same when high priority is not ready. */
  lemma OnlyHighPriorityStillSelectsLow<T>(high: Queue<T>, low: Queue<T>, totalTime: int, lag: nat, now: int)
    ensures Choose(high, low, totalTime, lag, now, OnlyHighPriority).ChooseLow? <==>
      HasReady(low, now) && !HasReady(high, now)
    ensures Choose(high, low, totalTime, lag, now, OnlyHighPriority).ChooseLow? ==>
      !Choose(high, low, totalTime, lag, now, OnlyHighPriority).force
  {
  }

  lemma {:induction false} BalanceIsBounded(turns: seq<Turn>, lag: nat)
    ensures var b := Balanced(turns, lag);
      && -2 * lag <= b.totalTime <= 2 * lag
      && (b.totalTime < 2 * lag ==> b.spent <= b.totalTime + 2 * lag)
  {
    if turns != [] {
      BalanceIsBounded(turns[..|turns| - 1], lag);
    }
  }

  /** What a scheduler meets: queues, a policy, and the time that the chosen priority then takes; or a closed port. */
  datatype PortCycle<T> =
    | Open(high: Queue<T>, low: Queue<T>, now: int, policy: Selection, delta: nat)
    | Closed

  /** Low priority is ready, and the policy does not exclude it. */
  predicate IsLowReady<T>(c: PortCycle<T>) {
    c.Open? && c.policy == All && HasReady(c.low, c.now)
  }

  function ChoiceOf<T>(b: Balance, c: PortCycle<T>, lag: nat): Choice
    requires c.Open?
  {
    Choose(c.high, c.low, b.totalTime, lag, c.now, c.policy)
  }

  function TurnOf<T>(b: Balance, c: PortCycle<T>, lag: nat): Turn {
    if c.Closed? then Restart
    else
      match ChoiceOf(b, c, lag)
      case ChooseHigh => HighTurn(c.delta)
      case ChooseLow(_, _) => LowTurn(c.delta)
      case ChooseNothing => Idle(c.delta)
  }

  /** The turns of a run of a scheduler, each of them chosen with the balance that the earlier ones have left. */
  function TurnsOf<T>(cycles: seq<PortCycle<T>>, lag: nat): (turns: seq<Turn>)
    ensures |turns| == |cycles|
  {
    if cycles == [] then []
    else
      var earlier := TurnsOf(cycles[..|cycles| - 1], lag);
      earlier + [TurnOf(Balanced(earlier, lag), cycles[|cycles| - 1], lag)]
  }

  function BalanceAfter<T>(cycles: seq<PortCycle<T>>, lag: nat): Balance {
    Balanced(TurnsOf(cycles, lag), lag)
  }

  /**
   In every run of a scheduler: whenever high priority gets a turn while low priority is ready, and the policy of that
   turn does not exclude low priority, high priority has spent less than three lags since low priority was last chosen
   or the port was last closed, whichever was later.
   */
  lemma LagIsBounded<T>(cycles: seq<PortCycle<T>>, lag: nat, i: nat)
    requires i < |cycles| && IsLowReady(cycles[i])
    requires ChoiceOf(BalanceAfter(cycles[..i], lag), cycles[i], lag) == ChooseHigh
    ensures BalanceAfter(cycles[..i], lag).spent < 3 * lag
  {
    var b := BalanceAfter(cycles[..i], lag);
    BalanceIsBounded(TurnsOf(cycles[..i], lag), lag);
    HighTurnIsFair(cycles[i].high, cycles[i].low, b.totalTime, lag, cycles[i].now);
  }

  lemma OneMoreTurn<T>(cycles: seq<PortCycle<T>>, c: PortCycle<T>, lag: nat)
    ensures var b := BalanceAfter(cycles, lag);
      BalanceAfter(cycles + [c], lag) == After(b, TurnOf(b, c, lag), lag)
  {
    var all, earlier := cycles + [c], TurnsOf(cycles, lag);
    assert all[..|all| - 1] == cycles;
    var turns := TurnsOf(all, lag);
    assert turns[..|turns| - 1] == earlier;
  }

  /** No smaller bound holds: for every lag there is a run, with low priority ready throughout, that all but reaches it. */
  lemma LagBoundIsReached(lag: nat) returns (cycles: seq<PortCycle<int>>, last: PortCycle<int>)
    requires lag > 0
    ensures forall i | 0 <= i < |cycles| :: IsLowReady(cycles[i])
    ensures IsLowReady(last) && ChoiceOf(BalanceAfter(cycles, lag), last, lag) == ChooseHigh
    ensures BalanceAfter(cycles, lag).spent == 3 * lag - 1
  {
    var due := [Entry(0, 0)];
    var first, second := Open([], due, 0, All, 2 * lag), Open(due, due, 0, All, 3 * lag - 1);
    OneMoreTurn([], first, lag);
    assert [] + [first] == [first];
    assert BalanceAfter([first], lag) == Balance(-2 * lag, 0);
    OneMoreTurn([first], second, lag);
    cycles, last := [first] + [second], Open(due, due, 0, All, 1);
  }
}
