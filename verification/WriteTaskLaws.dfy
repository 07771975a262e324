/** What comes of tasks that are run one after another, and how each of them is a run of the handover. */
module WriteTaskLaws {
  import opened Common
  import opened RegisterHandler
  import opened WriteHandoff
  import opened WriteHandoffLaws
  import opened WriteTasks

  // ----- many tasks -----

  lemma {:induction false} HandlersStay(done: Flushed, runs: seq<RegisterHandler>, meetings: Meetings, from: nat)
    ensures RunAll(done, runs, meetings, from).states.Keys == done.states.Keys
  {
    if runs != [] {
      HandlersStay(done, runs[..|runs| - 1], meetings, from);
    }
  }

  /** A handler without a task stays as it is, and nothing is sent for it. */
  lemma {:induction false} OthersStay(
      done: Flushed, runs: seq<RegisterHandler>, meetings: Meetings, from: nat, h: RegisterHandler)
    requires h !in runs && h in done.states
    ensures var after := RunAll(done, runs, meetings, from);
      && h in after.states && after.states[h] == done.states[h]
      && (h in after.retries <==> h in done.retries)
      && forall v :: (h, v) in after.sent <==> (h, v) in done.sent
  {
    if runs != [] {
      OthersStay(done, runs[..|runs| - 1], meetings, from, h);
    }
  }

  /** The port is open, the register supported, the device connected and prepared. */
  predicate ReachesDevice(e: Surroundings) {
    e.portIsOpen && e.isSupported && !e.isDisconnected && e.isPrepared
  }

  /** Besides, the device accepts what is sent, and no other value is set meanwhile. */
  predicate Delivers(e: Surroundings) {
    ReachesDevice(e) && e.outcome == Done && e.during == []
  }

  ghost predicate AllDeliver(runs: seq<RegisterHandler>, meetings: Meetings, from: nat) {
    forall i: nat {:trigger DeliversAt(runs, meetings, from, i)} | i < |runs| :: DeliversAt(runs, meetings, from, i)
  }

  predicate DeliversAt(runs: seq<RegisterHandler>, meetings: Meetings, from: nat, i: nat)
    requires i < |runs|
  {
    Delivers(meetings(from + i, runs[i]))
  }

  lemma DeliveredOnce(done: Flushed, h: RegisterHandler, e: Surroundings)
    requires h in done.states && Delivers(e)
    ensures var after := RunOne(done, h, e);
      && h in after.states && !after.states[h].dirty && after.retries == done.retries
      && after.sent == done.sent + if done.states[h].dirty then [(h, done.states[h].valueToSet)] else []
  {
  }

  /** If devices accept what is sent, no handler with a task has a waiting value left, and nothing is to be retried. */
  lemma {:induction false} AllAreDelivered(
      done: Flushed, runs: seq<RegisterHandler>, meetings: Meetings, from: nat, h: RegisterHandler)
    requires AllDeliver(runs, meetings, from) && (forall g | g in runs :: g in done.states) && h in runs
    ensures var after := RunAll(done, runs, meetings, from);
      && h in after.states && !after.states[h].dirty && after.retries == done.retries
      && (done.states[h].dirty ==> (h, done.states[h].valueToSet) in after.sent)
  {
    var n := |runs| - 1;
    var front, last := runs[..n], runs[n];
    var before := RunAll(done, front, meetings, from);
    FrontDelivers(runs, meetings, from);
    HandlersStay(done, front, meetings, from);
    assert DeliversAt(runs, meetings, from, n) && last in runs && last in before.states.Keys;
    DeliveredOnce(before, last, meetings(from + n, last));
    NothingIsRetried(done, front, meetings, from);
    if h in front {
      AllAreDelivered(done, front, meetings, from, h);
    } else {
      OthersStay(done, front, meetings, from, h);
    }
  }

  lemma FrontDelivers(runs: seq<RegisterHandler>, meetings: Meetings, from: nat)
    requires runs != [] && AllDeliver(runs, meetings, from)
    ensures AllDeliver(runs[..|runs| - 1], meetings, from)
  {
    var front := runs[..|runs| - 1];
    forall i: nat | i < |front| ensures DeliversAt(front, meetings, from, i) {
      assert DeliversAt(runs, meetings, from, i);
    }
  }

  lemma {:induction false} NothingIsRetried(
      done: Flushed, runs: seq<RegisterHandler>, meetings: Meetings, from: nat)
    requires AllDeliver(runs, meetings, from) && forall g | g in runs :: g in done.states
    ensures RunAll(done, runs, meetings, from).retries == done.retries
  {
    if runs != [] {
      var n := |runs| - 1;
      FrontDelivers(runs, meetings, from);
      NothingIsRetried(done, runs[..n], meetings, from);
      HandlersStay(done, runs[..n], meetings, from);
      assert DeliversAt(runs, meetings, from, n) && runs[n] in runs;
      DeliveredOnce(RunAll(done, runs[..n], meetings, from), runs[n], meetings(from + n, runs[n]));
    }
  }

  /** Nothing is sent while no task reaches a device: the port is closed, say, or devices are disconnected. */
  lemma {:induction false} NothingIsSent(done: Flushed, runs: seq<RegisterHandler>, meetings: Meetings, from: nat)
    requires forall i: nat, h :: !ReachesDevice(meetings(i, h))
    ensures RunAll(done, runs, meetings, from).sent == done.sent
  {
    if runs != [] {
      var n := |runs| - 1;
      NothingIsSent(done, runs[..n], meetings, from);
      assert !ReachesDevice(meetings(from + n, runs[n]));
    }
  }

  /** A register is found to be supported whenever its task is run. */
  ghost predicate IsSupported(meetings: Meetings, h: RegisterHandler) {
    forall i: nat :: meetings(i, h).isSupported
  }

  /** No waiting value of a supported register loses its task, whatever tasks of other registers meet. */
  lemma {:induction false} WaitingIsRetried(
      done: Flushed, runs: seq<RegisterHandler>, meetings: Meetings, from: nat, h: RegisterHandler)
    requires h in done.states && IsSupported(meetings, h)
    requires done.states[h].dirty ==> h in runs || h in done.retries
    ensures var after := RunAll(done, runs, meetings, from);
      h in after.states && (after.states[h].dirty ==> h in after.retries)
  {
    if runs != [] {
      var n := |runs| - 1;
      var front, last := runs[..n], runs[n];
      assert runs == front + [last];
      HandlersStay(done, front, meetings, from);
      assert h in RunAll(done, front, meetings, from).states.Keys;
      if last != h {
        WaitingIsRetried(done, front, meetings, from, h);
      }
    }
  }

  /** Only tasks that were run are retried. */
  lemma {:induction false} RetriedWasRun(
      done: Flushed, runs: seq<RegisterHandler>, meetings: Meetings, from: nat, h: RegisterHandler)
    ensures h in RunAll(done, runs, meetings, from).retries ==> h in done.retries || h in runs
  {
    if runs != [] {
      RetriedWasRun(done, runs[..|runs| - 1], meetings, from, h);
    }
  }

  // ----- a task as a run of the handover -----

  /** Values that are set one after another at the same time. */
  function Sets(r: Reg, values: seq<RawValue>, at: int): seq<Action> {
    if values == [] then [] else Sets(r, values[..|values| - 1], at) + [SetValue(r, values[|values| - 1], at)]
  }

  function Opening(): seq<Action> {
    [CheckDirty] + [PrepareToAccess(true), Snapshot]
  }

  function Closing(e: Surroundings): seq<Action> {
    [Write(e.outcome), Settle(e.now)] + [Finish]
  }

  /** The steps of a task. */
  function ActionsOf(r: Reg, h: Handler, e: Surroundings, now: int): seq<Action> {
    if !h.dirty then [CheckDirty]
    else if e.portIsOpen && !e.isSupported then [CheckDirty, RefuseUnsupported]
    else if !e.portIsOpen || e.isDisconnected then [CheckDirty, Defer(e.now)]
    else if !e.isPrepared then [CheckDirty] + [PrepareToAccess(false), Finish]
    else Opening() + (Sets(r, e.during, now) + Closing(e))
  }

  lemma {:induction false} RunOf(s: State, a: Action)
    requires IsEnabled(s, a)
    ensures Run(s, [a]) == Step(s, a)
  {
    assert Run(s, []) == s;
    WriteHandoffLaws.RunNext(s, [], a);
    assert [] + [a] == [a];
  }

  /** A state in which the task of a register is about to be run. */
  predicate IsStarted(s: State) {
    IsAt(s, Start)
  }

  /** A task is over: its register has a new state, others stay, and it is kept if it is to be retried. */
  predicate IsOver(s: State, t: State, r: Reg, g: Register, retry: bool, rest: seq<Reg>) {
    && t.regs == s.regs[r := g] && t.tasks == s.tasks && t.thread == Picking(rest)
    && t.retry == s.retry + if retry then [r] else []
  }

  /** What the device has received of a task. */
  function ReceivedBy(g: Register, e: Surroundings): Option<RawValue> {
    if Sent(g.handler, e).Some? && (e.outcome == Done || e.outcome.received) then Sent(g.handler, e) else g.received
  }

  lemma {:induction false} RefusedIsOver(s: State, e: Surroundings)
    requires IsStarted(s) && s.regs[s.thread.reg].handler.dirty && e.portIsOpen && !e.isSupported
    ensures var r, g := s.thread.reg, s.regs[s.thread.reg];
      IsOver(s, Run(s, [CheckDirty, RefuseUnsupported]), r, g.(orphaned := true), false, s.thread.rest)
  {
    RunPair(s, CheckDirty, RefuseUnsupported);
  }

  lemma {:induction false} DeferredIsOver(s: State, at: int)
    requires IsStarted(s) && s.regs[s.thread.reg].handler.dirty && s.now <= at
    ensures var r, g := s.thread.reg, Deferred(s.regs[s.thread.reg], at, s.maxWriteFailTime);
      IsOver(s, Run(s, [CheckDirty, Defer(at)]), r, g, g.handler.dirty, s.thread.rest)
  {
    RunPair(s, CheckDirty, Defer(at));
  }

  lemma {:induction false} UnpreparedIsOver(s: State)
    requires IsStarted(s) && s.regs[s.thread.reg].handler.dirty
    ensures IsOver(
      s, Run(s, [CheckDirty] + [PrepareToAccess(false), Finish]), s.thread.reg, s.regs[s.thread.reg], true, s.thread.rest)
  {
    var checked := Step(s, CheckDirty);
    RunOf(s, CheckDirty);
    RunPair(checked, PrepareToAccess(false), Finish);
    RunJoined(s, [CheckDirty], [PrepareToAccess(false), Finish]);
  }

  /** Values that are set while one is being written. */
  lemma {:induction false} SetsMeanwhile(s: State, r: Reg, values: seq<RawValue>)
    requires r in s.regs
    ensures var t, g := Run(s, Sets(r, values, s.now)), s.regs[r];
      && r in t.regs && t == s.(regs := s.regs[r := t.regs[r]], adding := t.adding)
      && t.regs[r] == g.(handler := t.regs[r].handler, fate := t.regs[r].fate)
      && t.regs[r].handler == if values == [] then g.handler else WithValue(g.handler, values[|values| - 1])
  {
    if values == [] {
      assert Sets(r, values, s.now) == [] && s.regs[r := s.regs[r]] == s.regs;
    } else {
      var front := values[..|values| - 1];
      SetsMeanwhile(s, r, front);
      WriteHandoffLaws.RunNext(s, Sets(r, front, s.now), SetValue(r, values[|values| - 1], s.now));
    }
  }

  lemma {:induction false} WrittenThenSettled(s: State, outcome: Outcome, at: int)
    requires IsRunning(s) && s.thread.stage.Writing? && s.now <= at
    ensures var r, written := s.thread.reg, s.thread.stage.written;
      var g := Settled(Received(s.regs[r], written, outcome), written, outcome, at, s.maxWriteFailTime);
      Run(s, [Write(outcome), Settle(at)])
      == s.(regs := s.regs[r := g], thread := s.thread.(stage := End), now := at)
  {
    RunPair(s, Write(outcome), Settle(at));
    var r, written := s.thread.reg, s.thread.stage.written;
    var received := Received(s.regs[r], written, outcome);
    var g := Settled(received, written, outcome, at, s.maxWriteFailTime);
    assert s.regs[r := received][r := g] == s.regs[r := g];
  }

  lemma {:induction false} EndIsOver(s: State)
    requires IsAt(s, End)
    ensures var r := s.thread.reg; var retry := s.regs[r].handler.dirty;
      Run(s, [Finish])
      == s.(thread := Picking(s.thread.rest), retry := if retry then s.retry + [r] else s.retry)
  {
    RunOf(s, Finish);
  }

  lemma {:induction false} WrittenIsOver(s: State, outcome: Outcome, at: int)
    requires IsRunning(s) && s.thread.stage.Writing? && s.now <= at
    ensures var r, written := s.thread.reg, s.thread.stage.written;
      var g := Settled(Received(s.regs[r], written, outcome), written, outcome, at, s.maxWriteFailTime);
      IsOver(s, Run(s, [Write(outcome), Settle(at)] + [Finish]), r, g, g.handler.dirty, s.thread.rest)
  {
    WrittenThenSettled(s, outcome, at);
    EndIsOver(Run(s, [Write(outcome), Settle(at)]));
    RunJoined(s, [Write(outcome), Settle(at)], [Finish]);
  }

  lemma {:induction false} StartedIsWriting(s: State)
    requires IsStarted(s) && s.regs[s.thread.reg].handler.dirty
    ensures Run(s, [CheckDirty] + [PrepareToAccess(true), Snapshot])
         == s.(thread := s.thread.(stage := Writing(s.regs[s.thread.reg].handler.valueToSet)))
  {
    var checked := Step(s, CheckDirty);
    RunOf(s, CheckDirty);
    CheckedIsWritten(checked);
    RunJoined(s, [CheckDirty], [PrepareToAccess(true), Snapshot]);
  }

  lemma {:induction false} RunInThree(s: State, a: seq<Action>, b: seq<Action>, c: seq<Action>)
    ensures Run(s, a + (b + c)) == Run(Run(Run(s, a), b), c)
  {
    RunJoined(s, a, b + c);
    RunJoined(Run(s, a), b, c);
  }

  /** What becomes of a register, with the values set meanwhile. */
  lemma SettledIsTask(g: Register, during: Register, e: Surroundings, max: nat)
    requires g.handler.dirty && ReachesDevice(e) && during == g.(handler := during.handler, fate := during.fate)
    requires during.handler ==
      if e.during == [] then g.handler else WithValue(g.handler, e.during[|e.during| - 1])
    ensures var written := g.handler.valueToSet;
      var after := Settled(Received(during, written, e.outcome), written, e.outcome, e.now, max);
      && after.handler == AfterTask(g.handler, e, max) && after.received == ReceivedBy(g, e)
      && (after.handler.dirty <==> AsksRetry(g.handler, e, max))
  {
  }

  lemma OverTwice(s: State, during: State, t: State, r: Reg, g: Register, retry: bool, rest: seq<Reg>)
    requires r in s.regs && r in during.regs && IsOver(during, t, r, g, retry, rest)
    requires during.regs == s.regs[r := during.regs[r]] && during.tasks == s.tasks && during.retry == s.retry
    ensures IsOver(s, t, r, g, retry, rest)
  {
    assert s.regs[r := during.regs[r]][r := g] == s.regs[r := g];
  }

  /** A value is written while others may be set. */
  lemma {:induction false} StartedIsWritten(s: State, e: Surroundings)
    requires IsStarted(s) && s.regs[s.thread.reg].handler.dirty && ReachesDevice(e) && s.now <= e.now
    ensures var r := s.thread.reg;
      var h, t := s.regs[r].handler, Run(s, ActionsOf(r, s.regs[r].handler, e, s.now));
      && r in t.regs && IsOver(s, t, r, t.regs[r], AsksRetry(h, e, s.maxWriteFailTime), s.thread.rest)
      && t.regs[r].handler == AfterTask(h, e, s.maxWriteFailTime)
      && t.regs[r].received == ReceivedBy(s.regs[r], e)
  {
    var r, rest, max := s.thread.reg, s.thread.rest, s.maxWriteFailTime;
    var g := s.regs[r];
    var written := g.handler.valueToSet;
    StartedIsWriting(s);
    var s1 := s.(thread := Running(r, Writing(written), rest));
    SetsMeanwhile(s1, r, e.during);
    var s2 := Run(s1, Sets(r, e.during, s.now));
    WrittenIsOver(s2, e.outcome, e.now);
    var s3 := Run(s2, [Write(e.outcome), Settle(e.now)] + [Finish]);
    SettledIsTask(g, s2.regs[r], e, max);
    OverTwice(s, s2, s3, r, Settled(Received(s2.regs[r], written, e.outcome), written, e.outcome, e.now, max),
              AsksRetry(g.handler, e, max), rest);
    RunInThree(s, Opening(), Sets(r, e.during, s.now), Closing(e));
  }

  /**
   A task is a run of the handover: it leaves its handler in the same state, is kept for a retry in the same cases, and
   the device receives what the task sends.
   */
  lemma {:induction false} TaskIsSteps(s: State, e: Surroundings)
    requires IsStarted(s) && s.now <= e.now
    ensures var r := s.thread.reg;
      var h, t := s.regs[r].handler, Run(s, ActionsOf(r, s.regs[r].handler, e, s.now));
      && r in t.regs && IsOver(s, t, r, t.regs[r], AsksRetry(h, e, s.maxWriteFailTime), s.thread.rest)
      && t.regs[r].handler == AfterTask(h, e, s.maxWriteFailTime)
      && t.regs[r].received == ReceivedBy(s.regs[r], e)
  {
    var r := s.thread.reg;
    if !s.regs[r].handler.dirty {
      RunOf(s, CheckDirty);
      assert s.regs[r := s.regs[r]] == s.regs;
    } else if e.portIsOpen && !e.isSupported {
      RefusedIsOver(s, e);
    } else if !e.portIsOpen || e.isDisconnected {
      DeferredIsOver(s, e.now);
    } else if !e.isPrepared {
      UnpreparedIsOver(s);
      assert s.regs[r := s.regs[r]] == s.regs;
    } else {
      StartedIsWritten(s, e);
    }
  }
}
