/** The parts that a poller schedules: how they are made from listed devices, and when they are due. */
module PollerParts {
  import opened PollPlan
  import opened PollableDevices
  import opened PollerPlan
  import opened Registers

  const DISCONNECTED_POLL_DELAY_STEP: nat := 500_000
  const DISCONNECTED_POLL_DELAY_LIMIT: nat := 10_000_000

  type Parts = map<Key, PollableDevice>

  /** The keys that have queued registers. */
  function Full(parts: Parts): set<Key> {
    set k | k in parts && parts[k].HasRegisters()
  }

  /** A valid part that is known by its own priority. */
  ghost predicate IsPart(k: Key, part: PollableDevice) {
    part.Valid() && part.registry.priority == k.priority
  }

  ghost predicate AreParts(parts: Parts) {
    forall k {:trigger IsPart(k, parts[k])} | k in parts :: IsPart(k, parts[k])
  }

  /** Parts may differ in what is queued and in the flags of their registers. */
  ghost predicate OnlyRegistersDiffer(before: Parts, after: Parts) {
    && before.Keys == after.Keys
    && forall k {:trigger after[k].HasSameSettings(before[k])} | k in before :: after[k].HasSameSettings(before[k])
  }

  lemma NothingDiffers(parts: Parts)
    ensures OnlyRegistersDiffer(parts, parts)
  {
  }

  lemma StillOnlyRegisters(first: Parts, before: Parts, after: Parts)
    requires OnlyRegistersDiffer(first, before) && OnlyRegistersDiffer(before, after)
    ensures OnlyRegistersDiffer(first, after)
  {
    forall k | k in first ensures after[k].HasSameSettings(first[k]) {
      assert before[k].HasSameSettings(first[k]) && after[k].HasSameSettings(before[k]);
    }
  }

  /** Changing one part changes whether that part has registers, and nothing else. */
  lemma FullChanged(parts: Parts, k: Key, part: PollableDevice)
    requires k in parts
    ensures parts[k := part].Keys == parts.Keys
    ensures SameElsewhere(Full(parts), Full(parts[k := part]), k)
    ensures k in Full(parts[k := part]) <==> part.HasRegisters()
    ensures Full(parts[k := part]) <= parts.Keys
    ensures AreParts(parts) && IsPart(k, part) ==> AreParts(parts[k := part])
    ensures part.HasSameSettings(parts[k]) ==> OnlyRegistersDiffer(parts, parts[k := part])
  {
  }

  lemma SameFull(parts: Parts, k: Key, part: PollableDevice)
    requires k in parts && part.HasRegisters() == parts[k].HasRegisters()
    ensures Full(parts[k := part]) == Full(parts)
  {
  }

  /** A device as it is listed, with its registers. */
  datatype ListedDevice = ListedDevice(
    view: DeviceView, minRequestInterval: nat, configs: seq<RegisterConfig>, flags: seq<Flags>)
  {
    predicate IsSound() {
      RegistryOf(Low).IsSound()
    }

    function RegistryOf(priority: Priority): Registry {
      Registry(configs, flags, priority)
    }
  }

  /** A register of the device is polled with the priority of the key. */
  ghost predicate HasPart(list: seq<ListedDevice>, k: Key) {
    k.device < |list| && exists id :: list[k.device].RegistryOf(k.priority).Polls(id)
  }

  /** A part in which every register that is polled is queued for some time. */
  ghost predicate IsPartOf(device: ListedDevice, k: Key, part: PollableDevice, now: int) {
    && IsPart(k, part) && part.HasRegisters()
    && part.registry == device.RegistryOf(k.priority)
    && part.minRequestInterval == device.minRequestInterval
    && part.disconnectedPollDelay == 0
    && (forall id | part.registry.Polls(id) :: Items(part.registers)[id] == 1)
    && (forall e | e in part.registers :: e.deadline == now)
  }

  /** The parts of listed devices are those that have registers to poll. */
  ghost predicate ArePartsOf(parts: Parts, list: seq<ListedDevice>, now: int) {
    && (forall k :: k in parts <==> HasPart(list, k))
    && (forall k | k in parts :: IsPartOf(list[k.device], k, parts[k], now))
  }

  lemma NewParts(parts: Parts, list: seq<ListedDevice>, now: int)
    requires ArePartsOf(parts, list, now)
    ensures AreParts(parts) && Full(parts) == parts.Keys
  {
  }

  method MakeParts(list: seq<ListedDevice>, now: int) returns (parts: Parts)
    requires forall i | 0 <= i < |list| :: list[i].IsSound()
    ensures ArePartsOf(parts, list, now)
  {
    parts := map[];
    for i := 0 to |list|
      invariant forall k :: k in parts <==> k.device < i && HasPart(list, k)
      invariant forall k | k in parts :: IsPartOf(list[k.device], k, parts[k], now)
    {
      ghost var before := parts;
      parts := AddPart(parts, list, HighKey(i), now);
      ghost var middle := parts;
      parts := AddPart(parts, list, LowKey(i), now);
      forall k ensures k in parts <==> k.device < i + 1 && HasPart(list, k) {
        assert k.device == i ==> k == if k.priority == High then HighKey(i) else LowKey(i);
      }
    }
  }

  method AddPart(parts: Parts, list: seq<ListedDevice>, k: Key, now: int) returns (after: Parts)
    requires k.device < |list| && list[k.device].IsSound()
    requires forall j | j in parts :: j.device < |list| && IsPartOf(list[j.device], j, parts[j], now)
    ensures forall j :: j in after <==> j in parts || (j == k && HasPart(list, k))
    ensures forall j | j in after :: j.device < |list| && IsPartOf(list[j.device], j, after[j], now)
  {
    var part := MakePart(list[k.device], k, now);
    after := if part.HasRegisters() then parts[k := part] else parts;
  }

  method MakePart(device: ListedDevice, k: Key, now: int) returns (part: PollableDevice)
    requires device.IsSound()
    ensures part.HasRegisters() <==> exists id :: device.RegistryOf(k.priority).Polls(id)
    ensures part.HasRegisters() ==> IsPartOf(device, k, part, now)
  {
    var r := device.RegistryOf(k.priority);
    forall id | 0 <= id < |r.flags| ensures r.IsSoundAt(id) {
      assert device.RegistryOf(Low).IsSoundAt(id);
    }
    part := MakePollableDevice(device.view, device.configs, device.flags, device.minRequestInterval, now, k.priority);
  }

  // ----- when a part is due -----

  /** A disconnected device is delayed more and more. */
  function NextDelay(part: PollableDevice, isDisconnected: bool): nat {
    if !isDisconnected then 0
    else if part.disconnectedPollDelay < DISCONNECTED_POLL_DELAY_LIMIT
      then part.disconnectedPollDelay + DISCONNECTED_POLL_DELAY_STEP
    else part.disconnectedPollDelay
  }

  /** A part gets its next delay when it is put back, which it is if it has registers. */
  function WithDelay(parts: Parts, k: Key, isDisconnected: bool): Parts
    requires k in parts
  {
    if parts[k].HasRegisters()
    then parts[k := parts[k].(disconnectedPollDelay := NextDelay(parts[k], isDisconnected))]
    else parts
  }

  lemma DelayChanges(parts: Parts, k: Key, isDisconnected: bool)
    requires k in parts && AreParts(parts)
    ensures var after := WithDelay(parts, k, isDisconnected);
      AreParts(after) && after.Keys == parts.Keys && Full(after) == Full(parts)
  {
    assert IsPart(k, parts[k]);
    var part := parts[k].(disconnectedPollDelay := NextDelay(parts[k], isDisconnected));
    assert IsPart(k, part);
    FullChanged(parts, k, part);
    SameFull(parts, k, part);
  }

  predicate IsDelayed(part: PollableDevice, isDisconnected: bool) {
    isDisconnected && part.disconnectedPollDelay != 0
  }

  /** A part is due as soon as it is put back. */
  predicate IsReadyNext(part: PollableDevice, isDisconnected: bool, now: int) {
    HasReady(part.registers, now) && !part.IsHeldBack(now) && !IsDelayed(part, isDisconnected)
  }

  /** A delayed part is polled after its delay, others when their registers are due. */
  function NextDeadline(part: PollableDevice, isDisconnected: bool, now: int): int {
    if IsDelayed(part, isDisconnected) then now + part.disconnectedPollDelay else part.GetDeadline()
  }

  /** The delay of a part that was put back so often while its device was disconnected. */
  function DelayAfter(part: PollableDevice, times: nat): nat {
    if times == 0 then part.disconnectedPollDelay
    else NextDelay(part.(disconnectedPollDelay := DelayAfter(part, times - 1)), true)
  }

  /** Each time adds half a second, up to ten seconds; the first time, and once it is connected, there is no delay. */
  lemma {:induction false} DelayIs(part: PollableDevice, times: nat, now: int)
    requires part.disconnectedPollDelay == 0
    ensures DelayAfter(part, times) == if times < 20 then 500_000 * times else 10_000_000
    ensures var delayed := part.(disconnectedPollDelay := DelayAfter(part, times));
      && NextDeadline(delayed, true, now) == (
        if times == 0 then part.GetDeadline() else now + if times < 20 then 500_000 * times else 10_000_000)
      && NextDeadline(delayed, false, now) == part.GetDeadline() && NextDelay(delayed, false) == 0
  {
    if times > 0 {
      DelayIs(part, times - 1, now);
    }
  }

  method Delayed(part: PollableDevice, isDisconnected: bool, now: int) returns (delay: nat, deadline: int)
    requires part.HasRegisters()
    ensures delay == NextDelay(part, isDisconnected)
    ensures deadline == NextDeadline(part, isDisconnected, now)
    ensures deadline <= now <==> IsReadyNext(part, isDisconnected, now)
  {
    delay := 0;
    deadline := part.GetDeadline();
    part.DueExactly(now);
    if isDisconnected {
      delay := part.disconnectedPollDelay;
      if delay != 0 {
        deadline := now + delay;
      }
      if delay < DISCONNECTED_POLL_DELAY_LIMIT {
        delay := delay + DISCONNECTED_POLL_DELAY_STEP;
      }
    }
  }

  // ----- failing -----

  /** Failing the due registers of a part leaves the part due. */
  ghost predicate GoesRound(part: PollableDevice, isDisconnected: bool, now: int) {
    part.StaysDue(now) && !part.IsHeldBack(now) && !IsDelayed(part, isDisconnected)
  }

  /** It does so however often they fail, as long as its device does not count as disconnected. */
  ghost predicate IsStuck(part: PollableDevice, isDisconnected: bool, now: int) {
    part.StaysDue(now) && !part.IsHeldBack(now) && !isDisconnected
  }

  /** A part that can get stuck: it has a register without a period, and nothing puts it off. */
  ghost predicate CanStick(part: PollableDevice, isDisconnected: bool, now: int) {
    part.registry.LacksPeriod() && !part.IsHeldBack(now) && !isDisconnected
  }

  /** What failing one part does to the parts. */
  ghost predicate IsFailed(before: Parts, after: Parts, k: Key, isDisconnected: bool, now: int) {
    && k in before && k in after
    && after == before[k := after[k]]
    && after[k] == before[k].(registers := after[k].registers, disconnectedPollDelay :=
        if after[k].HasRegisters() then NextDelay(before[k], isDisconnected) else before[k].disconnectedPollDelay)
    && (HasReady(after[k].registers, now) <==> before[k].StaysDue(now))
    && (after[k].StaysDue(now) <==> before[k].StaysDue(now))
  }

  /** Whether a device is disconnected by the failures of a part of it, if that is the part of a round. */
  type Disconnects = (nat, nat) -> bool

  ghost predicate IsGivenUp(disconnects: Disconnects, from: nat, device: nat) {
    forall round: nat | from <= round :: disconnects(round, device)
  }

  /** What matters when due registers fail: the parts, which of them are due, how many entries are, and who is away. */
  datatype Failing = Failing(parts: Parts, due: Key -> bool, ready: nat, disconnected: set<nat>)
  {
    /** A part is due, and stays so however often its registers fail, until its device is disconnected. */
    ghost predicate Sticks(k: Key, now: int) {
      k in parts && due(k) && IsStuck(parts[k], k.device in disconnected, now)
    }

    /** From some round on, whatever sticks is disconnected when it fails. */
    ghost predicate AreGivenUp(now: int, disconnects: Disconnects, from: nat) {
      forall k {:trigger Sticks(k, now)} | Sticks(k, now) :: IsGivenUp(disconnects, from, k.device)
    }

    ghost predicate NothingIsDue() {
      forall k | k in parts :: !due(k)
    }

    /** The rounds are over: nothing is due, or it is a part whose registers are not. */
    ghost predicate IsOver(now: int) {
      NothingIsDue() || exists k | k in parts :: due(k) && !HasReady(parts[k].registers, now)
    }

    /** Every due part has due registers; this may not be so when a delay is over before registers are due. */
    ghost predicate DueHaveRegisters(now: int) {
      forall k | k in parts && due(k) :: HasReady(parts[k].registers, now)
    }
  }

  predicate IsSameElsewhere(before: Key -> bool, after: Key -> bool, k: Key, j: Key) {
    j != k ==> after(j) == before(j)
  }

  /** The due registers of one part fail; there is one due entry less unless the part goes round. */
  ghost predicate FailsOne(a: Failing, b: Failing, now: int, disconnects: Disconnects, round: nat, k: Key) {
    && a.due(k) && k in a.parts && HasReady(a.parts[k].registers, now)
    && b.disconnected == a.disconnected + (if disconnects(round, k.device) then {k.device} else {})
    && IsFailed(a.parts, b.parts, k, k.device in b.disconnected, now)
    && (forall j :: IsSameElsewhere(a.due, b.due, k, j))
    && var again := GoesRound(a.parts[k], k.device in b.disconnected, now);
    && b.due(k) == again
    && b.ready == a.ready - if again then 0 else 1
  }

  /** The parts that are not delayed. */
  function Undelayed(parts: Parts): set<Key> {
    set k | k in parts && parts[k].disconnectedPollDelay == 0
  }

  /** A part of a disconnected device goes round once only: it is then delayed. */
  lemma GoesRoundOnce(before: Parts, after: Parts, k: Key, now: int)
    requires IsFailed(before, after, k, true, now) && GoesRound(before[k], true, now)
    ensures |Undelayed(after)| < |Undelayed(before)|
  {
    assert Undelayed(after) == Undelayed(before) - {k};
    assert k in Undelayed(before);
  }

  /** The due registers of a part fail, which may mean that its device is disconnected. */
  ghost predicate AllFail(a: Failing, b: Failing, now: int, disconnects: Disconnects, round: nat, k: Key) {
    && RegistersFail(a.parts, b.parts, k, now)
    && b.disconnected == a.disconnected + (if disconnects(round, k.device) then {k.device} else {})
    && b.due == a.due
    && b.ready == a.ready
  }

  /** Of the due registers that fail, those without a period are due again. */
  ghost predicate RegistersFail(before: Parts, after: Parts, k: Key, now: int) {
    && k in before && k in after
    && after == before[k := before[k].(registers := after[k].registers)]
    && (HasReady(after[k].registers, now) <==> before[k].StaysDue(now))
    && (after[k].StaysDue(now) <==> before[k].StaysDue(now))
  }

  /** A part whose entry has been taken out goes back as far as it has registers. */
  ghost predicate IsPutBack(a: Failing, b: Failing, now: int, k: Key) {
    && k in a.parts
    && b.parts == WithDelay(a.parts, k, k.device in a.disconnected)
    && b.disconnected == a.disconnected
    && var again := IsReadyNext(a.parts[k], k.device in a.disconnected, now);
    && b.due(k) == again
    && (forall j :: IsSameElsewhere(a.due, b.due, k, j))
    && b.ready == a.ready - if again then 0 else 1
  }

  lemma PartPutBack(a: Failing, between: Key -> bool, b: Failing, now: int, k: Key)
    requires k in a.parts && b.disconnected == a.disconnected
    requires b.parts == WithDelay(a.parts, k, k.device in a.disconnected)
    requires var again := IsReadyNext(a.parts[k], k.device in a.disconnected, now);
      IsDueAdded(between, b.due, k, again) && b.ready == a.ready - if again then 0 else 1
    requires IsDueTakenOut(a.due, between, k)
    ensures IsPutBack(a, b, now, k)
  {
    var again := IsReadyNext(a.parts[k], k.device in a.disconnected, now);
    assert IsDueTakenOutAt(a.due, between, k, k) && IsDueAddedAt(between, b.due, k, again, k);
    forall j ensures IsSameElsewhere(a.due, b.due, k, j) {
      assert IsDueTakenOutAt(a.due, between, k, j) && IsDueAddedAt(between, b.due, k, again, j);
    }
  }

  lemma PartFailed(a: Failing, b: Failing, c: Failing, now: int, disconnects: Disconnects, round: nat, k: Key)
    requires a.due(k) && k in a.parts && HasReady(a.parts[k].registers, now)
    requires AllFail(a, b, now, disconnects, round, k) && IsPutBack(b, c, now, k)
    ensures FailsOne(a, c, now, disconnects, round, k)
  {
  }

  /** Whatever sticks after a round did so before. */
  lemma GivenUpStill(a: Failing, b: Failing, now: int, disconnects: Disconnects, round: nat, k: Key, from: nat)
    requires FailsOne(a, b, now, disconnects, round, k) && a.AreGivenUp(now, disconnects, from)
    ensures b.AreGivenUp(now, disconnects, from)
  {
    forall j | b.Sticks(j, now) ensures IsGivenUp(disconnects, from, j.device) {
      assert IsSameElsewhere(a.due, b.due, k, j);
      assert j == k ==> a.parts[k].IsHeldBack(now) == b.parts[k].IsHeldBack(now);
      assert a.Sticks(j, now);
    }
  }

  /** Once stuck parts are given up, a round leaves fewer due entries, or as many with one more part delayed. */
  lemma RoundEnds(a: Failing, b: Failing, now: int, disconnects: Disconnects, round: nat, k: Key, from: nat)
    requires FailsOne(a, b, now, disconnects, round, k) && a.AreGivenUp(now, disconnects, from) && from <= round
    ensures b.ready < a.ready || (b.ready == a.ready && |Undelayed(b.parts)| < |Undelayed(a.parts)|)
  {
    if GoesRound(a.parts[k], k.device in b.disconnected, now) {
      assert a.Sticks(k, now) ==> IsGivenUp(disconnects, from, k.device);
      GoesRoundOnce(a.parts, b.parts, k, now);
    }
  }

  /** A stuck part stays stuck, whichever part fails, if its device is not disconnected. */
  lemma StuckStays(a: Failing, b: Failing, now: int, disconnects: Disconnects, round: nat, k: Key, stuck: Key)
    requires FailsOne(a, b, now, disconnects, round, k) && a.Sticks(stuck, now) && !disconnects(round, stuck.device)
    ensures b.Sticks(stuck, now)
  {
    assert IsSameElsewhere(a.due, b.due, k, stuck);
  }

  lemma DueStillHaveRegisters(a: Failing, b: Failing, now: int, disconnects: Disconnects, round: nat, k: Key)
    requires FailsOne(a, b, now, disconnects, round, k) && a.DueHaveRegisters(now)
    ensures b.DueHaveRegisters(now)
  {
    forall j | j in b.parts && b.due(j) ensures HasReady(b.parts[j].registers, now) {
      assert IsSameElsewhere(a.due, b.due, k, j);
      assert j != k ==> j in a.parts && a.due(j);
    }
  }

  /** Parts that cannot get stuck are not stuck, whatever has been queued. */
  lemma NoneCanStick(before: Parts, f: Failing, now: int, disconnects: Disconnects, from: nat)
    requires OnlyRegistersDiffer(before, f.parts)
    requires forall k | k in before && CanStick(before[k], k.device in f.disconnected, now) ::
      IsGivenUp(disconnects, from, k.device)
    ensures f.AreGivenUp(now, disconnects, from)
  {
    forall k | f.Sticks(k, now) ensures IsGivenUp(disconnects, from, k.device) {
      var id :| IsReadyIn(f.parts[k].registers, id, now) && f.parts[k].registry.StaysDue(id);
      assert f.parts[k].HasSameSettings(before[k]);
      assert before[k].registry.Polls(id);
    }
  }

  // ----- rounds one after another -----

  /** The states between rounds, and the part that fails in each round. */
  datatype Rounds = Rounds(states: seq<Failing>, failed: seq<Key>)
  {
    ghost predicate IsRoundAt(now: int, disconnects: Disconnects, i: nat)
      requires i < |failed| && |states| == |failed| + 1
    {
      FailsOne(states[i], states[i + 1], now, disconnects, i, failed[i])
    }

    ghost predicate Valid(now: int, disconnects: Disconnects) {
      && |states| == |failed| + 1
      && forall i: nat {:trigger IsRoundAt(now, disconnects, i)} | i < |failed| :: IsRoundAt(now, disconnects, i)
    }

    function First(): Failing
      requires states != []
    {
      states[0]
    }

    function Last(): Failing
      requires states != []
    {
      states[|states| - 1]
    }

    function Then(state: Failing, k: Key): Rounds {
      Rounds(states + [state], failed + [k])
    }
  }

  lemma OneMoreRound(rounds: Rounds, now: int, disconnects: Disconnects, state: Failing, k: Key)
    requires rounds.Valid(now, disconnects)
    requires FailsOne(rounds.Last(), state, now, disconnects, |rounds.failed|, k)
    ensures rounds.Then(state, k).Valid(now, disconnects)
    ensures rounds.Then(state, k).First() == rounds.First() && rounds.Then(state, k).Last() == state
  {
    var all := rounds.Then(state, k);
    forall i: nat | i < |all.failed| ensures all.IsRoundAt(now, disconnects, i) {
      assert i < |rounds.failed| ==> rounds.IsRoundAt(now, disconnects, i);
    }
  }

  /** A part that was due at first and is not due in the end has failed. */
  lemma {:induction false} DueHasFailed(rounds: Rounds, now: int, disconnects: Disconnects, k: Key)
    requires rounds.Valid(now, disconnects) && rounds.First().due(k) && !rounds.Last().due(k)
    ensures k in rounds.failed
    decreases |rounds.failed|
  {
    var n := |rounds.failed| - 1;
    assert n >= 0;
    assert rounds.IsRoundAt(now, disconnects, n);
    if rounds.failed[n] != k {
      assert IsSameElsewhere(rounds.states[n].due, rounds.states[n + 1].due, rounds.failed[n], k);
      var front := Rounds(rounds.states[..n + 1], rounds.failed[..n]);
      forall i: nat | i < n ensures front.IsRoundAt(now, disconnects, i) {
        assert rounds.IsRoundAt(now, disconnects, i);
      }
      DueHasFailed(front, now, disconnects, k);
    }
  }
}
